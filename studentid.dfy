/**
 * The student id shown in the report: the first non-empty value among the
 * STUDENT_USERNAME variable, the last '-'-separated part of the repository
 * name, the GITHUB_ACTOR variable, the repository name itself and "student".
 * Environment variables are parameters; an unset variable is "".
 */
module StudentId {
  import opened Text

  /** JavaScript's `a || b` on strings: the empty string is falsy. */
  function Or(a: string, b: string): string {
    if a != "" then a else b
  }

  /**
   * The repository name of "org/repo": the second '/'-separated part when the
   * text holds a '/' (`includes` of a one-character string is membership),
   * the whole text otherwise.
   */
  function RepoName(repoFull: string): string {
    if '/' in repoFull then
      SplitHasTwo(repoFull, '/');
      Split(repoFull, '/')[1]
    else repoFull
  }

  /** The part of the repository name after its last '-', or "" when it has none. */
  function RepoSuffix(repoName: string): string {
    if repoName != "" && '-' in repoName then
      var parts := Split(repoName, '-');
      parts[|parts| - 1]
    else ""
  }

  /** `getStudentId()`, with the three environment variables as parameters. */
  function GetStudentId(studentUsername: string, githubRepository: string, githubActor: string): (id: string)
    ensures id != ""
    ensures studentUsername != "" ==> id == studentUsername
  {
    var repoName := RepoName(githubRepository);
    Or(Or(Or(Or(studentUsername, RepoSuffix(repoName)), githubActor), repoName), "student")
  }

  /** `id` is the first non-empty entry of `candidates`. */
  predicate IsFirstNonEmpty(candidates: seq<string>, id: string) {
    exists k :: 0 <= k < |candidates| && candidates[k] == id && id != ""
      && forall j :: 0 <= j < k ==> candidates[j] == ""
  }

  /** The id is the first non-empty value in the documented order of precedence. */
  lemma {:induction false} StudentIdIsFirstNonEmpty(studentUsername: string, githubRepository: string, githubActor: string)
    ensures var repoName := RepoName(githubRepository);
      IsFirstNonEmpty([studentUsername, RepoSuffix(repoName), githubActor, repoName, "student"],
                      GetStudentId(studentUsername, githubRepository, githubActor))
  {
    var repoName := RepoName(githubRepository);
    var c := [studentUsername, RepoSuffix(repoName), githubActor, repoName, "student"];
    var id := GetStudentId(studentUsername, githubRepository, githubActor);
    if c[0] != "" {
      assert c[0] == id;
    } else if c[1] != "" {
      assert c[1] == id;
    } else if c[2] != "" {
      assert c[2] == id;
    } else if c[3] != "" {
      assert c[3] == id;
    } else {
      assert c[4] == id;
    }
  }

  /** In "org/name" with no further '/', the repository name is `name`. */
  lemma {:induction false} RepoNameOfOwnerAndName(org: string, name: string)
    requires '/' !in org && '/' !in name
    ensures RepoName(org + "/" + name) == name
  {
    assert org + "/" + name == org + ['/'] + name;
    SplitAtFirst(org, '/', name);
    SplitWithout(name, '/');
  }

  /**
   * Without STUDENT_USERNAME, a repository named "org/prefix-user" yields the
   * user part: the classroom's naming convention.
   */
  lemma {:induction false} IdFromRepositorySuffix(org: string, prefix: string, user: string, githubActor: string)
    requires '/' !in org && '/' !in prefix && '/' !in user
    requires '-' !in user && user != ""
    ensures GetStudentId("", org + "/" + prefix + "-" + user, githubActor) == user
  {
    var name := prefix + "-" + user;
    assert name == prefix + ['-'] + user;
    assert '/' !in name;
    assert org + "/" + prefix + "-" + user == org + "/" + name;
    RepoNameOfOwnerAndName(org, name);
    assert '-' in name by {
      assert name[|prefix|] == '-';
    }
    LastOfSplit(prefix, '-', user);
  }

  /** The lab's example: "Web-Engineering-KFUPM/5-7-back-end-fundamentals-zeyd92" gives "zeyd92". */
  lemma {:induction false} ClassroomRepositoryExample(githubActor: string)
    ensures GetStudentId("", "Web-Engineering-KFUPM" + "/" + "5-7-back-end-fundamentals" + "-" + "zeyd92", githubActor) == "zeyd92"
  {
    var org, prefix, user := "Web-Engineering-KFUPM", "5-7-back-end-fundamentals", "zeyd92";
    assert '/' !in org && '/' !in prefix by {
      assert forall c :: c in org + prefix ==> c != '/';
    }
    assert '/' !in user && '-' !in user;
    IdFromRepositorySuffix(org, prefix, user, githubActor);
  }
}
