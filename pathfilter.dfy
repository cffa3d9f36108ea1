/**
 * The ignored-path filter: which changed files are grader or workflow
 * infrastructure rather than student work.
 */
module PathFilter {

  /** Directory prefixes whose files never count as student work. */
  const IgnoredFilePrefixes: seq<string> := [".github/workflows/", "artifacts/", "node_modules/"]

  /** Repository-root files that never count as student work. */
  const IgnoredFilesExact: set<string> := {"grade.cjs", "package.json", "package-lock.json", "grade.yml", ".gitignore"}

  /** JavaScript's `p.startsWith(pre)`. */
  predicate StartsWith(p: string, pre: string) {
    pre <= p
  }

  /** Some prefix of `prefixes` starts `p`, trying the prefixes in order. */
  function StartsWithAny(prefixes: seq<string>, p: string): bool {
    if |prefixes| == 0 then false
    else StartsWith(p, prefixes[0]) || StartsWithAny(prefixes[1..], p)
  }

  /** Trying the prefixes in order finds one exactly when some prefix of the list starts `p`. */
  lemma {:induction false} StartsWithAnyIff(prefixes: seq<string>, p: string)
    ensures StartsWithAny(prefixes, p) <==> exists pre :: pre in prefixes && StartsWith(p, pre)
  {
    if |prefixes| > 0 {
      StartsWithAnyIff(prefixes[1..], p);
      assert prefixes == [prefixes[0]] + prefixes[1..];
    }
  }

  /** `isIgnoredPath(p)`: the empty path, an exact infrastructure name, or a path under an infrastructure directory. */
  function IsIgnoredPath(p: string): bool {
    if p == "" then true
    else if p in IgnoredFilesExact then true
    else StartsWithAny(IgnoredFilePrefixes, p)
  }

  /** The ignored paths, written out: the empty path, the five names and everything under the three directories. */
  lemma {:induction false} IsIgnoredPathIff(p: string)
    ensures IsIgnoredPath(p) <==>
      || p == ""
      || p == "grade.cjs" || p == "package.json" || p == "package-lock.json" || p == "grade.yml" || p == ".gitignore"
      || StartsWith(p, ".github/workflows/") || StartsWith(p, "artifacts/") || StartsWith(p, "node_modules/")
  {
    StartsWithAnyIff(IgnoredFilePrefixes, p);
  }

  /** `changed.some(f => !isIgnoredPath(f))`: some changed file is student work. */
  function HasStudentWorkChange(changed: seq<string>): bool {
    if |changed| == 0 then false
    else !IsIgnoredPath(changed[0]) || HasStudentWorkChange(changed[1..])
  }

  /** Some changed file is student work exactly when one of them is not ignored. */
  lemma {:induction false} HasStudentWorkChangeIff(changed: seq<string>)
    ensures HasStudentWorkChange(changed) <==> exists f :: f in changed && !IsIgnoredPath(f)
  {
    if |changed| > 0 {
      HasStudentWorkChangeIff(changed[1..]);
      assert changed == [changed[0]] + changed[1..];
    }
  }

  /**
   * A commit's change list lets it through the filter: an empty list (a merge,
   * or a failed diff) never excludes it; a non-empty one must touch student work.
   */
  predicate ChangeSetAdmits(changed: seq<string>) {
    |changed| == 0 || HasStudentWorkChange(changed)
  }

  /** A commit that touches only infrastructure files is filtered out. */
  lemma {:induction false} InfraOnlyIsExcluded(changed: seq<string>)
    requires |changed| > 0
    requires forall f :: f in changed ==> IsIgnoredPath(f)
    ensures !ChangeSetAdmits(changed)
  {
    HasStudentWorkChangeIff(changed);
  }

  /** Two strings that differ at a position both have are unequal, and neither starts the other. */
  lemma DifferAt(p: string, q: string, k: nat)
    requires k < |p| && k < |q| && p[k] != q[k]
    ensures p != q && !StartsWith(p, q)
  {
  }

  /**
   * Every ignored name starts with '.', 'a', 'g', 'n' or 'p': a non-empty path
   * starting with any other character is student work.
   */
  lemma {:induction false} OtherFirstCharIsStudentWork(p: string)
    requires p != "" && p[0] !in {'.', 'a', 'g', 'n', 'p'}
    ensures !IsIgnoredPath(p)
  {
    IsIgnoredPathIff(p);
    DifferAt(p, "grade.cjs", 0);
    DifferAt(p, "package.json", 0);
    DifferAt(p, "package-lock.json", 0);
    DifferAt(p, "grade.yml", 0);
    DifferAt(p, ".gitignore", 0);
    DifferAt(p, ".github/workflows/", 0);
    DifferAt(p, "artifacts/", 0);
    DifferAt(p, "node_modules/", 0);
  }

  /** The lab's required submission file, and everything else under the lab directory, is student work. */
  lemma {:induction false} LabDirectoryIsStudentWork(rest: string)
    ensures !IsIgnoredPath("5-7-back-end-fundamentals/" + rest)
  {
    OtherFirstCharIsStudentWork("5-7-back-end-fundamentals/" + rest);
  }

  /** Prefixes are whole directory names: "artifacts/" covers the report but not a look-alike file. */
  lemma PrefixIsWholeDirectory()
    ensures IsIgnoredPath("artifacts/grade.csv")
    ensures !IsIgnoredPath("artifacts-notes.md")
  {
    var p := "artifacts-notes.md";
    IsIgnoredPathIff("artifacts/grade.csv");
    IsIgnoredPathIff(p);
    DifferAt(p, "artifacts/", 9);
    DifferAt(p, "grade.cjs", 0);
    DifferAt(p, "package.json", 0);
    DifferAt(p, "package-lock.json", 0);
    DifferAt(p, "grade.yml", 0);
    DifferAt(p, ".gitignore", 0);
    DifferAt(p, ".github/workflows/", 0);
    DifferAt(p, "node_modules/", 0);
  }
}
