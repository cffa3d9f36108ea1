/**
 * What the provenance scan knows about each line of the commit log: the
 * repository's git outputs, and the three tests a line must pass to count as
 * student work.
 */
module Commits {
  import opened Wrappers
  import opened Text
  import opened Classifier
  import opened PathFilter
  import opened Git

  /**
   * The repository as the scan sees it: the output of `git log -n 800`, of
   * `git log -1` (HEAD), and of `git diff-tree` for each sha.
   */
  datatype Repo = Repo(log: GitOutput, head: GitOutput, diffTree: string -> GitOutput)

  /** The log lines the scan walks: none when git failed or printed nothing. */
  function LogLines(repo: Repo): seq<string> {
    match repo.log
    case Failed(_) => []
    case Output(text) => if Trim(text) == "" then [] else Split(Trim(text), '\n')
  }

  predicate IsBotLine(f: LogFields) {
    IsBotCommit(f.an, f.ae, f.subject)
  }

  function ChangedFiles(repo: Repo, sha: string): seq<string> {
    ChangedFilesForCommit(repo.diffTree(sha))
  }

  /** The three tests a log line must pass, in the order the scan applies them. */
  predicate IsStudentWork(f: LogFields, repo: Repo, rt: JsRuntime) {
    && !IsBotLine(f)
    && ChangeSetAdmits(ChangedFiles(repo, f.sha))
    && rt.number(f.ct).Some?
  }

  /** The scan reaches line `k`: every earlier line was skipped. */
  ghost predicate Reached(lines: seq<string>, k: nat, repo: Repo, rt: JsRuntime)
    requires k <= |lines|
  {
    forall j :: 0 <= j < k ==> !Qualifies(lines, j, repo, rt)
  }

  /** Line `j` of the log passes the three tests. */
  predicate Qualifies(lines: seq<string>, j: nat, repo: Repo, rt: JsRuntime)
    requires j < |lines|
  {
    IsStudentWork(ParseLogLine(lines[j]), repo, rt)
  }

  /** Whether each line of the log passes the three tests. */
  function Verdicts(lines: seq<string>, repo: Repo, rt: JsRuntime): (v: seq<bool>)
    ensures |v| == |lines|
    ensures forall j :: 0 <= j < |lines| ==> v[j] == Qualifies(lines, j, repo, rt)
  {
    seq(|lines|, j requires 0 <= j < |lines| => Qualifies(lines, j, repo, rt))
  }

  /** The scan asks git for line `k`'s changed files: it reaches the line and the line is not a bot commit. */
  ghost predicate Inspected(lines: seq<string>, k: nat, repo: Repo, rt: JsRuntime)
    requires k < |lines|
  {
    !IsBotLine(ParseLogLine(lines[k])) && Reached(lines, k, repo, rt)
  }

  /** `inspected` lists exactly the non-bot lines before `n`. */
  predicate NonBotBefore(lines: seq<string>, n: nat, inspected: seq<nat>)
    requires n <= |lines|
  {
    && (forall k :: k in inspected ==> k < n)
    && (forall k :: 0 <= k < n ==> (k in inspected <==> !IsBotLine(ParseLogLine(lines[k]))))
  }

  /** One more line: a non-bot line joins the inspected ones, a bot line does not. */
  lemma NonBotStep(lines: seq<string>, i: nat, inspected: seq<nat>)
    requires i < |lines| && NonBotBefore(lines, i, inspected)
    ensures IsBotLine(ParseLogLine(lines[i])) ==> NonBotBefore(lines, i + 1, inspected)
    ensures !IsBotLine(ParseLogLine(lines[i])) ==> NonBotBefore(lines, i + 1, inspected + [i])
  {
  }

  /** A scan that reached line `n` has inspected exactly the non-bot lines before it. */
  lemma InspectedWhenReached(lines: seq<string>, n: nat, inspected: seq<nat>, repo: Repo, rt: JsRuntime)
    requires n <= |lines| && Reached(lines, n, repo, rt)
    requires NonBotBefore(lines, n, inspected)
    ensures forall k :: 0 <= k < n ==> (k in inspected <==> Inspected(lines, k, repo, rt))
  {
  }

  /** A scan that ran to the end has inspected exactly the lines it reached that are not bot commits. */
  lemma {:induction false} InspectedAtEnd(lines: seq<string>, inspected: seq<nat>, repo: Repo, rt: JsRuntime)
    requires Reached(lines, |lines|, repo, rt)
    requires NonBotBefore(lines, |lines|, inspected)
    ensures forall k :: k in inspected <==> 0 <= k < |lines| && Inspected(lines, k, repo, rt)
  {
    InspectedWhenReached(lines, |lines|, inspected, repo, rt);
  }

  /** A scan that stops at a qualifying line has inspected all it ever will: no later line is reached. */
  lemma {:induction false} InspectedAtStop(lines: seq<string>, i: nat, inspected: seq<nat>, repo: Repo, rt: JsRuntime)
    requires i < |lines| && Reached(lines, i, repo, rt) && Qualifies(lines, i, repo, rt)
    requires NonBotBefore(lines, i + 1, inspected)
    ensures forall k :: k in inspected <==> 0 <= k < |lines| && Inspected(lines, k, repo, rt)
  {
    forall k | 0 <= k <= i ensures Reached(lines, k, repo, rt) {
    }
    forall k | i < k < |lines| ensures !Reached(lines, k, repo, rt) {
    }
  }
}
