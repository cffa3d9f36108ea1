/**
 * What the autograder reads from git, and how it parses it. Running git is not
 * modelled: each invocation's standard output (or the failure `execSync`
 * throws) is given as a value. JavaScript's `Number` and `Date` are given
 * as a `JsRuntime`.
 */
module Git {
  import opened Wrappers
  import opened Text

  /** The captured output of one `execSync` git invocation, or the error it threw. */
  datatype GitOutput = Output(text: string) | Failed(error: string)

  /**
   * The JavaScript runtime functions the parse depends on:
   * `number(s)` is `Number(s)` when that is finite (`None` for NaN and the infinities);
   * `isoString(ms)` is `new Date(ms).toISOString()` for a time value in range.
   */
  datatype JsRuntime = JsRuntime(number: string -> Option<int>, isoString: int -> string)

  /** Largest magnitude of a valid JavaScript time value; `toISOString` throws a RangeError beyond it. */
  const MaxTimeValue: int := 8_640_000_000_000_000

  predicate IsTimeValue(ms: int) {
    -MaxTimeValue <= ms <= MaxTimeValue
  }

  /** The fields of one `%H|%ct|%an|%ae|%s` log line. */
  datatype LogFields = LogFields(sha: string, ct: string, an: string, ae: string, subject: string)

  /** `parts[k] || ""`: a missing field reads as the empty string. */
  function FieldOr(parts: seq<string>, k: nat): string {
    if k < |parts| then parts[k] else ""
  }

  /** Parses one log line: the first four `|`-separated fields, then the rest re-joined with `|` as the subject. */
  function ParseLogLine(line: string): LogFields {
    var parts := Split(line, '|');
    LogFields(parts[0], FieldOr(parts, 1), FieldOr(parts, 2), FieldOr(parts, 3),
              if |parts| > 4 then Join(parts[4..], '|') else "")
  }

  /** The four leading fields of a parsed line never contain the separator. */
  lemma {:induction false} ParsedFieldsLackSeparator(line: string)
    ensures var f := ParseLogLine(line);
      '|' !in f.sha && '|' !in f.ct && '|' !in f.an && '|' !in f.ae
  {
    var parts := Split(line, '|');
    SplitPartsLackSeparator(line, '|');
    assert forall k :: 0 <= k < |parts| ==> parts[k] in parts;
  }

  /** The line `git log --format=%H|%ct|%an|%ae|%s` prints for a commit. */
  function FormatLogLine(f: LogFields): string {
    f.sha + "|" + f.ct + "|" + f.an + "|" + f.ae + "|" + f.subject
  }

  /** Parsing a formatted line gives back its fields, even when the subject itself contains `|`. */
  lemma {:induction false} ParseFormatRoundTrip(f: LogFields)
    requires '|' !in f.sha && '|' !in f.ct && '|' !in f.an && '|' !in f.ae
    ensures ParseLogLine(FormatLogLine(f)) == f
  {
    var subjectParts := Split(f.subject, '|');
    var tail3 := f.ae + ['|'] + f.subject;
    var tail2 := f.an + ['|'] + tail3;
    var tail1 := f.ct + ['|'] + tail2;
    var line := f.sha + ['|'] + tail1;
    assert FormatLogLine(f) == line;
    var parts := Split(line, '|');
    assert parts == [f.sha] + ([f.ct] + ([f.an] + ([f.ae] + subjectParts))) by {
      SplitAtFirst(f.ae, '|', f.subject);
      SplitAtFirst(f.an, '|', tail3);
      SplitAtFirst(f.ct, '|', tail2);
      SplitAtFirst(f.sha, '|', tail1);
    }
    assert parts[0] == f.sha && parts[1] == f.ct && parts[2] == f.an && parts[3] == f.ae;
    assert parts[4..] == subjectParts;
    JoinSplit(f.subject, '|');
  }

  /** A line without any `|` is all sha: every other field is missing and reads as empty. */
  lemma {:induction false} LineWithoutSeparators(line: string)
    requires '|' !in line
    ensures ParseLogLine(line) == LogFields(line, "", "", "", "")
  {
    SplitWithout(line, '|');
  }

  /** Drops the empty strings, keeping the order of the rest (`.filter(Boolean)`). */
  function NonEmpty(xs: seq<string>): seq<string> {
    if |xs| == 0 then []
    else if xs[0] == "" then NonEmpty(xs[1..])
    else [xs[0]] + NonEmpty(xs[1..])
  }

  /** `NonEmpty` keeps exactly the non-empty entries: it drops the empty ones and changes nothing else. */
  lemma {:induction false} NonEmptyKeeps(xs: seq<string>)
    ensures forall x :: x in NonEmpty(xs) <==> x in xs && x != ""
    ensures (forall x :: x in xs ==> x != "") ==> NonEmpty(xs) == xs
  {
    if |xs| > 0 {
      NonEmptyKeeps(xs[1..]);
      assert xs == [xs[0]] + xs[1..];
      if forall x :: x in xs ==> x != "" {
        assert xs[0] in xs;
        assert forall x :: x in xs[1..] ==> x in xs;
      }
    }
  }

  /** Trims every entry (`.map(s => s.trim())`). */
  function TrimAll(xs: seq<string>): (r: seq<string>)
    ensures |r| == |xs|
  {
    if |xs| == 0 then [] else [Trim(xs[0])] + TrimAll(xs[1..])
  }

  lemma {:induction false} TrimAllAt(xs: seq<string>)
    ensures forall k :: 0 <= k < |xs| ==> TrimAll(xs)[k] == Trim(xs[k])
  {
    if |xs| > 0 {
      TrimAllAt(xs[1..]);
    }
  }

  /**
   * `getChangedFilesForCommit`: the output of `git diff-tree --name-only -r`, trimmed,
   * split into lines, each line trimmed, empty lines dropped. A failed command gives no files.
   */
  function ChangedFilesForCommit(out: GitOutput): seq<string> {
    match out
    case Failed(_) => []
    case Output(text) =>
      var t := Trim(text);
      if t == "" then [] else NonEmpty(TrimAll(Split(t, '\n')))
  }

  /** Every changed file reported is a non-empty, trimmed line of git's output; a failed command or blank output reports none. */
  lemma {:induction false} ChangedFilesAreTrimmed(out: GitOutput)
    ensures forall f :: f in ChangedFilesForCommit(out) ==> f != "" && IsTrimmed(f)
    ensures out.Failed? || Trim(out.text) == "" ==> ChangedFilesForCommit(out) == []
  {
    if out.Output? && Trim(out.text) != "" {
      var all := TrimAll(Split(Trim(out.text), '\n'));
      NonEmptyKeeps(all);
      TrimAllAt(Split(Trim(out.text), '\n'));
      forall f | f in all ensures IsTrimmed(f) {
        var k :| 0 <= k < |all| && all[k] == f;
      }
    }
  }

  /** A path as git lists it: one non-empty line without surrounding white space. */
  predicate IsListedPath(p: string) {
    p != "" && IsTrimmed(p) && '\n' !in p
  }

  /** Joining listed paths keeps their outer characters at the ends. */
  lemma {:induction false} JoinOfListedPaths(paths: seq<string>)
    requires |paths| >= 1
    requires forall k :: 0 <= k < |paths| ==> IsListedPath(paths[k])
    ensures var j := Join(paths, '\n'); var last := paths[|paths| - 1];
      |paths[0]| > 0 && |last| > 0 && |j| > 0 && j[0] == paths[0][0] && j[|j| - 1] == last[|last| - 1]
  {
    assert IsListedPath(paths[0]) && IsListedPath(paths[|paths| - 1]);
    if |paths| > 1 {
      JoinOfListedPaths(paths[1..]);
    }
  }

  lemma EmptyListingTrims()
    ensures Trim("\n") == ""
  {
    assert IsSpace('\n');
    assert "\n"[1..] == "";
    assert TrimStart("\n") == "";
  }

  /** git's listing (paths, each on its own line) trims to the paths joined by newlines. */
  lemma {:induction false} TrimOfListing(paths: seq<string>)
    requires forall k :: 0 <= k < |paths| ==> IsListedPath(paths[k])
    ensures Trim(Join(paths, '\n') + "\n") == Join(paths, '\n')
  {
    var j := Join(paths, '\n');
    var text := j + "\n";
    if |paths| == 0 {
      assert text == "\n";
      EmptyListingTrims();
    } else {
      JoinOfListedPaths(paths);
      assert IsListedPath(paths[0]) && IsListedPath(paths[|paths| - 1]);
      assert !IsSpace(text[0]);
      assert TrimStart(text) == text;
      assert text[..|text| - 1] == j;
      assert IsSpace(text[|text| - 1]);
      assert TrimEnd(text) == TrimEnd(j);
      assert !IsSpace(j[|j| - 1]);
      assert TrimEnd(j) == j;
    }
  }

  /** Trimming leaves listed paths as they are. */
  lemma {:induction false} TrimAllListed(paths: seq<string>)
    requires forall k :: 0 <= k < |paths| ==> IsListedPath(paths[k])
    ensures TrimAll(paths) == paths
  {
    var t := TrimAll(paths);
    TrimAllAt(paths);
    forall k | 0 <= k < |paths| ensures t[k] == paths[k] {
      assert IsListedPath(paths[k]);
      TrimOfTrimmed(paths[k]);
    }
  }

  /** Dropping empties leaves listed paths as they are. */
  lemma {:induction false} NonEmptyListed(paths: seq<string>)
    requires forall k :: 0 <= k < |paths| ==> IsListedPath(paths[k])
    ensures NonEmpty(paths) == paths
  {
    NonEmptyKeeps(paths);
    forall x | x in paths ensures x != "" {
      var k :| 0 <= k < |paths| && paths[k] == x;
      assert IsListedPath(paths[k]);
    }
  }

  /** Changed-file parsing inverts git's listing: one path per line, each ending in a newline. */
  lemma {:induction false} ChangedFilesRoundTrip(paths: seq<string>)
    requires forall k :: 0 <= k < |paths| ==> IsListedPath(paths[k])
    ensures ChangedFilesForCommit(Output(Join(paths, '\n') + "\n")) == paths
  {
    var j := Join(paths, '\n');
    var text := j + "\n";
    assert Trim(text) == j by { TrimOfListing(paths); }
    if |paths| > 0 {
      assert j != "" by { JoinOfListedPaths(paths); }
      assert Split(j, '\n') == paths by {
        forall p | p in paths ensures '\n' !in p {
          var k :| 0 <= k < |paths| && paths[k] == p;
          assert IsListedPath(paths[k]);
        }
        SplitJoin(paths, '\n');
      }
      assert NonEmpty(TrimAll(paths)) == paths by {
        TrimAllListed(paths);
        NonEmptyListed(paths);
      }
      assert ChangedFilesForCommit(Output(text)) == NonEmpty(TrimAll(Split(Trim(text), '\n')));
    }
  }

  /** What `getHeadCommitInfo` reports about HEAD. */
  datatype HeadInfo = HeadInfo(sha: string, epochMs: Option<int>, iso: string, author: string, email: string, subject: string)

  /** `x || "unknown"`. */
  function OrUnknown(s: string): (r: string)
    ensures r != ""
    ensures s != "" ==> r == s
  {
    if s == "" then "unknown" else s
  }

  /**
   * `getHeadCommitInfo`: parses `git log -1 --format=%H|%ct|%an|%ae|%s`.
   * Unlike the scan, it destructures the split, so a missing timestamp field is
   * `undefined`, `Number(undefined)` is NaN, and the time is unknown. An ISO
   * string is made only for a non-zero time; a RangeError there, like a failed
   * command or empty output, gives no head at all.
   */
  function HeadCommitInfo(out: GitOutput, rt: JsRuntime): (head: Option<HeadInfo>)
    ensures head.Some? ==> out.Output? && Trim(out.text) != ""
    ensures head.Some? ==> head.value.sha != "" && head.value.author != "" && head.value.email != ""
    ensures head.Some? && head.value.epochMs.Some? ==> IsTimeValue(head.value.epochMs.value)
  {
    match out
    case Failed(_) => None
    case Output(text) =>
      var t := Trim(text);
      if t == "" then None
      else
        var parts := Split(t, '|');
        var seconds := if |parts| > 1 then rt.number(parts[1]) else None;
        var epochMs := if seconds.Some? then Some(seconds.value * 1000) else None;
        if epochMs.Some? && epochMs.value != 0 && !IsTimeValue(epochMs.value) then None
        else
          Some(HeadInfo(
            sha := OrUnknown(parts[0]),
            epochMs := epochMs,
            iso := if epochMs.Some? && epochMs.value != 0 then rt.isoString(epochMs.value) else "unknown",
            author := OrUnknown(FieldOr(parts, 2)),
            email := OrUnknown(FieldOr(parts, 3)),
            subject := if |parts| > 4 then Join(parts[4..], '|') else ""))
  }

  /** A HEAD line with no timestamp field has an unknown time, where the scan would read zero. */
  lemma {:induction false} HeadWithoutTimestamp(sha: string, rt: JsRuntime)
    requires sha != "" && IsTrimmed(sha) && '|' !in sha
    ensures HeadCommitInfo(Output(sha), rt) == Some(HeadInfo(sha, None, "unknown", "unknown", "unknown", ""))
  {
    SplitWithout(sha, '|');
  }

  /**
   * HEAD's fields are those of the parsed output line: the sha, author and
   * e-mail (or "unknown") and the subject, with the time `Number(ct) * 1000`
   * when the line has a timestamp field whose `Number` is finite. Non-empty
   * output gives a head exactly when that time is absent, zero or in range.
   */
  lemma {:induction false} HeadAgreesWithParse(text: string, rt: JsRuntime)
    ensures var t := Trim(text);
      var f := ParseLogLine(t);
      var ms := if '|' in t && rt.number(f.ct).Some? then Some(rt.number(f.ct).value * 1000) else None;
      var h := HeadCommitInfo(Output(text), rt);
      && (h.Some? <==> t != "" && (ms.None? || ms.value == 0 || IsTimeValue(ms.value)))
      && (h.Some? ==> h.value == HeadInfo(OrUnknown(f.sha), ms,
                                          if ms.Some? && ms.value != 0 then rt.isoString(ms.value) else "unknown",
                                          OrUnknown(f.an), OrUnknown(f.ae), f.subject))
  {
    var t := Trim(text);
    if '|' in t {
      SplitHasTwo(t, '|');
    } else {
      SplitWithout(t, '|');
    }
  }

  /** For the line git prints, HEAD reports the commit's own fields and `ct` seconds as milliseconds. */
  lemma {:induction false} HeadOfFormattedLine(f: LogFields, rt: JsRuntime)
    requires '|' !in f.sha && '|' !in f.ct && '|' !in f.an && '|' !in f.ae
    requires IsTrimmed(FormatLogLine(f))
    ensures var ms := if rt.number(f.ct).Some? then Some(rt.number(f.ct).value * 1000) else None;
      var h := HeadCommitInfo(Output(FormatLogLine(f)), rt);
      && (h.Some? <==> ms.None? || ms.value == 0 || IsTimeValue(ms.value))
      && (h.Some? ==> h.value.sha == OrUnknown(f.sha) && h.value.epochMs == ms
                      && h.value.author == OrUnknown(f.an) && h.value.email == OrUnknown(f.ae)
                      && h.value.subject == f.subject)
  {
    var line := FormatLogLine(f);
    TrimOfTrimmed(line);
    ParseFormatRoundTrip(f);
    assert line[|f.sha|] == '|';
    HeadAgreesWithParse(line, rt);
  }
}
