/**
 * The provenance scan: walk the commit log newest-first and take the first
 * commit that is not a bot commit, does not touch only grader infrastructure,
 * and has a finite timestamp. If none qualifies, report HEAD instead; if the
 * log is empty or git fails, report an "unknown" sentinel.
 */
module Provenance {
  import opened Wrappers
  import opened Text
  import opened Classifier
  import opened PathFilter
  import opened Git
  import opened Commits

  /** How the reported commit was chosen. */
  datatype Note = NoCommits | StudentWork | FallbackToHead | InspectionFailed(error: string)

  /** The commit reported for submission timing. */
  datatype CommitInfo = CommitInfo(epochMs: Option<int>, iso: string, sha: string, author: string, email: string, subject: string, note: Note)

  /** What `String(e)` gives for the error `toISOString` throws on an out-of-range time. */
  const RangeErrorText: string := "RangeError: Invalid time value"

  /** The result when nothing is known about the commit. */
  function Sentinel(note: Note): CommitInfo {
    CommitInfo(None, "unknown", "unknown", "unknown", "unknown", "", note)
  }

  /** The first position at or after `from` holding `true`. */
  function FirstTrue(v: seq<bool>, from: nat): (r: Option<nat>)
    requires from <= |v|
    ensures r.Some? ==> from <= r.value < |v| && v[r.value]
    decreases |v| - from
  {
    if from == |v| then None
    else if v[from] then Some(from)
    else FirstTrue(v, from + 1)
  }

  /** Nothing before the position `FirstTrue` finds holds `true`; when it finds none, nothing does. */
  lemma {:induction false} FirstTrueIsFirst(v: seq<bool>, from: nat)
    requires from <= |v|
    ensures var r := FirstTrue(v, from);
      && (r.Some? ==> forall j :: from <= j < r.value ==> !v[j])
      && (r.None? ==> forall j :: from <= j < |v| ==> !v[j])
    decreases |v| - from
  {
    if from < |v| && !v[from] {
      FirstTrueIsFirst(v, from + 1);
    }
  }

  /** When nothing from `from` up to `i` holds, `FirstTrue` stops at `i`, or finds nothing when `i` is the end. */
  lemma {:induction false} FirstTrueAt(v: seq<bool>, from: nat, i: nat)
    requires from <= i <= |v|
    requires forall j :: from <= j < i ==> !v[j]
    requires i < |v| ==> v[i]
    ensures FirstTrue(v, from) == if i < |v| then Some(i) else None
    decreases i - from
  {
    if from < i {
      FirstTrueAt(v, from + 1, i);
    }
  }

  /** The position of the first log line that passes all three tests. */
  function FirstStudentWork(lines: seq<string>, repo: Repo, rt: JsRuntime): (r: Option<nat>)
    ensures r.Some? ==> r.value < |lines| && Qualifies(lines, r.value, repo, rt)
  {
    FirstTrue(Verdicts(lines, repo, rt), 0)
  }

  /**
   * The scan's choice is the line it reaches that qualifies: once every line
   * before `i` has failed, line `i` is chosen if it qualifies, and no line is
   * chosen if `i` is past the end.
   */
  lemma {:induction false} FirstStudentWorkIsReached(lines: seq<string>, i: nat, repo: Repo, rt: JsRuntime)
    requires i <= |lines| && Reached(lines, i, repo, rt)
    requires i < |lines| ==> Qualifies(lines, i, repo, rt)
    ensures FirstStudentWork(lines, repo, rt) == if i < |lines| then Some(i) else None
  {
    var v := Verdicts(lines, repo, rt);
    assert forall j :: 0 <= j < i ==> !v[j];
    FirstTrueAt(v, 0, i);
  }

  /** `FirstStudentWork` finds a qualifying line with none before it, or reports that no line qualifies. */
  lemma {:induction false} FirstStudentWorkIsFirst(lines: seq<string>, repo: Repo, rt: JsRuntime)
    ensures var r := FirstStudentWork(lines, repo, rt);
      && (r.Some? ==> Reached(lines, r.value, repo, rt))
      && (r.None? ==> Reached(lines, |lines|, repo, rt))
  {
    var v := Verdicts(lines, repo, rt);
    FirstTrueIsFirst(v, 0);
  }

  /** The report for an accepted line; an out-of-range time makes `toISOString` throw, and the scan fails. */
  function Selected(f: LogFields, rt: JsRuntime): (info: CommitInfo)
    requires rt.number(f.ct).Some?
    ensures IsComplete(info)
    ensures info.note == StudentWork || info.note == InspectionFailed(RangeErrorText)
    ensures info.note == StudentWork <==> IsTimeValue(rt.number(f.ct).value * 1000)
    ensures info.note == StudentWork ==>
      && info.epochMs == Some(rt.number(f.ct).value * 1000)
      && info.sha == OrUnknown(f.sha) && info.author == OrUnknown(f.an) && info.email == OrUnknown(f.ae)
      && info.subject == f.subject
  {
    var ms := rt.number(f.ct).value * 1000;
    if !IsTimeValue(ms) then Sentinel(InspectionFailed(RangeErrorText))
    else CommitInfo(Some(ms), rt.isoString(ms), OrUnknown(f.sha), OrUnknown(f.an), OrUnknown(f.ae), f.subject, StudentWork)
  }

  /** Every report names a sha, an author and an e-mail, and any time it gives is a valid time value. */
  predicate IsComplete(info: CommitInfo) {
    && info.sha != "" && info.author != "" && info.email != ""
    && (info.epochMs.Some? ==> IsTimeValue(info.epochMs.value))
  }

  /** The report when no line qualifies: HEAD's fields when HEAD could be read, "unknown" otherwise. */
  function Fallback(head: Option<HeadInfo>): CommitInfo {
    match head
    case None => Sentinel(FallbackToHead)
    case Some(h) => CommitInfo(h.epochMs, h.iso, h.sha, h.author, h.email, h.subject, FallbackToHead)
  }

  /** `getLatestStudentWorkCommitInfo`, as a function of what git prints. */
  function LatestStudentWorkCommit(repo: Repo, rt: JsRuntime): (info: CommitInfo)
    ensures IsComplete(info)
    ensures info.note == NoCommits <==> repo.log.Output? && Trim(repo.log.text) == ""
  {
    match repo.log
    case Failed(e) => Sentinel(InspectionFailed(e))
    case Output(text) =>
      if Trim(text) == "" then Sentinel(NoCommits)
      else
        match FirstStudentWork(LogLines(repo), repo, rt)
        case Some(k) => Selected(ParseLogLine(LogLines(repo)[k]), rt)
        case None => Fallback(HeadCommitInfo(repo.head, rt))
  }

  /** A line that fails the tests moves the scan on to the next one. */
  lemma SkipLine(lines: seq<string>, i: nat, repo: Repo, rt: JsRuntime)
    requires i < |lines| && Reached(lines, i, repo, rt)
    requires !Qualifies(lines, i, repo, rt)
    ensures Reached(lines, i + 1, repo, rt)
  {
  }

  /**
   * The scan as the autograder runs it: a loop over the log lines that skips bot
   * commits before asking git for their changed files, skips infrastructure-only
   * commits and commits without a finite time, and returns at the first other one.
   * `inspected` lists the lines whose changed files were asked for.
   */
  method GetLatestStudentWorkCommitInfo(repo: Repo, rt: JsRuntime) returns (info: CommitInfo, inspected: seq<nat>)
    ensures info == LatestStudentWorkCommit(repo, rt)
    ensures var lines := LogLines(repo);
      forall k :: k in inspected <==> 0 <= k < |lines| && Inspected(lines, k, repo, rt)
  {
    inspected := [];
    if repo.log.Failed? {
      info := Sentinel(InspectionFailed(repo.log.error));
      return;
    }
    var out := Trim(repo.log.text);
    if out == "" {
      info := Sentinel(NoCommits);
      return;
    }
    var lines := Split(out, '\n');
    assert lines == LogLines(repo);
    for i := 0 to |lines|
      invariant Reached(lines, i, repo, rt)
      invariant NonBotBefore(lines, i, inspected)
    {
      var f := ParseLogLine(lines[i]);
      NonBotStep(lines, i, inspected);
      if LooksLikeBotCommit(BotHaystack(f.an, f.ae, f.subject)) {
        SkipLine(lines, i, repo, rt);
        continue;
      }
      inspected := inspected + [i];
      var changed := ChangedFilesForCommit(repo.diffTree(f.sha));
      if |changed| > 0 {
        var hasStudentWorkChange := HasStudentWorkChange(changed);
        if !hasStudentWorkChange {
          SkipLine(lines, i, repo, rt);
          continue;
        }
      }
      var seconds := rt.number(f.ct);
      if seconds.None? {
        SkipLine(lines, i, repo, rt);
        continue;
      }
      assert Qualifies(lines, i, repo, rt);
      FirstStudentWorkIsReached(lines, i, repo, rt);
      InspectedAtStop(lines, i, inspected, repo, rt);
      info := Selected(f, rt);
      return;
    }
    FirstStudentWorkIsReached(lines, |lines|, repo, rt);
    InspectedAtEnd(lines, inspected, repo, rt);
    info := Fallback(HeadCommitInfo(repo.head, rt));
  }

  /** The reported fields are those of log line `f`. */
  ghost predicate Describes(info: CommitInfo, f: LogFields, rt: JsRuntime) {
    && rt.number(f.ct).Some?
    && info.epochMs == Some(rt.number(f.ct).value * 1000)
    && info.sha == OrUnknown(f.sha)
    && info.author == OrUnknown(f.an)
    && info.email == OrUnknown(f.ae)
    && info.subject == f.subject
  }

  /**
   * A commit selected as student work is the newest line that passes all three
   * tests: in particular it is never a bot commit and never infrastructure-only.
   */
  lemma {:induction false} SelectedIsNewestStudentWork(repo: Repo, rt: JsRuntime)
    requires LatestStudentWorkCommit(repo, rt).note == StudentWork
    ensures var lines := LogLines(repo); var info := LatestStudentWorkCommit(repo, rt);
      exists k :: 0 <= k < |lines| && Reached(lines, k, repo, rt)
        && Qualifies(lines, k, repo, rt)
        && Describes(info, ParseLogLine(lines[k]), rt)
  {
    var lines := LogLines(repo);
    var p := FirstStudentWork(lines, repo, rt);
    FirstStudentWorkIsFirst(lines, repo, rt);
    assert p.Some?;
    var k := p.value;
    var f := ParseLogLine(lines[k]);
    assert LatestStudentWorkCommit(repo, rt) == Selected(f, rt);
    assert Reached(lines, k, repo, rt) && Qualifies(lines, k, repo, rt);
    assert Describes(Selected(f, rt), f, rt);
  }

  /** For a non-empty log, the result falls back to HEAD exactly when no line passes the tests. */
  lemma {:induction false} FallbackExactlyWhenNothingQualifies(repo: Repo, rt: JsRuntime)
    requires repo.log.Output? && Trim(repo.log.text) != ""
    ensures var lines := LogLines(repo);
      LatestStudentWorkCommit(repo, rt).note == FallbackToHead <==> forall k :: 0 <= k < |lines| ==> !Qualifies(lines, k, repo, rt)
  {
    var lines := LogLines(repo);
    var p := FirstStudentWork(lines, repo, rt);
    FirstStudentWorkIsFirst(lines, repo, rt);
    if p.Some? {
      var f := ParseLogLine(lines[p.value]);
      assert Qualifies(lines, p.value, repo, rt);
      assert LatestStudentWorkCommit(repo, rt) == Selected(f, rt);
    }
  }

  /** A fallback report carries HEAD's fields when HEAD can be read, and is the "unknown" sentinel otherwise. */
  lemma {:induction false} FallbackCarriesHead(repo: Repo, rt: JsRuntime)
    ensures var info := LatestStudentWorkCommit(repo, rt);
      info.note == FallbackToHead ==>
        match HeadCommitInfo(repo.head, rt)
        case Some(h) => info.sha == h.sha && info.epochMs == h.epochMs && info.author == h.author
                        && info.email == h.email && info.subject == h.subject && info.iso == h.iso
        case None => info == Sentinel(FallbackToHead)
  {
    var lines := LogLines(repo);
    if repo.log.Output? && Trim(repo.log.text) != "" {
      match FirstStudentWork(lines, repo, rt)
      case Some(k) =>
        assert LatestStudentWorkCommit(repo, rt) == Selected(ParseLogLine(lines[k]), rt);
      case None =>
    }
  }

  /** An empty log gives the sentinel without consulting HEAD; a failed `git log` gives the failure note. */
  lemma EmptyOrFailedLogIgnoresHead(repo: Repo, rt: JsRuntime)
    ensures repo.log.Output? && Trim(repo.log.text) == "" ==> LatestStudentWorkCommit(repo, rt) == Sentinel(NoCommits)
    ensures repo.log.Failed? ==> LatestStudentWorkCommit(repo, rt) == Sentinel(InspectionFailed(repo.log.error))
  {
  }

  /**
   * An empty change list never excludes a commit: a reached non-bot line with no
   * listed files and a finite time is the one reported (or the scan fails on its time).
   */
  lemma {:induction false} EmptyChangeSetNeverExcludes(repo: Repo, rt: JsRuntime, k: nat)
    requires var lines := LogLines(repo);
      && k < |lines| && Reached(lines, k, repo, rt)
      && var f := ParseLogLine(lines[k]);
         !IsBotLine(f) && ChangedFiles(repo, f.sha) == [] && rt.number(f.ct).Some?
    ensures var info := LatestStudentWorkCommit(repo, rt);
      if IsTimeValue(rt.number(ParseLogLine(LogLines(repo)[k]).ct).value * 1000)
      then info.note == StudentWork && Describes(info, ParseLogLine(LogLines(repo)[k]), rt)
      else info == Sentinel(InspectionFailed(RangeErrorText))
  {
    var lines := LogLines(repo);
    assert Qualifies(lines, k, repo, rt);
    FirstStudentWorkIsReached(lines, k, repo, rt);
  }

  /** No signal fits in the two spaces that join three empty fields. */
  lemma EmptyFieldsAreNotBot()
    ensures !IsBotCommit("", "", "")
  {
    assert "" + " " + "" + " " + "" == "  ";
    ToLowerAt("  ");
    assert BotHaystack("", "", "") == "  ";
    LooksLikeBotCommitIff("  ");
    forall s | s in BotSignals ensures !Occurs(s, "  ") {
      OccursNeedsRoom(s, "  ");
    }
  }

  /**
   * A log line that is a bare sha has no timestamp field; when `Number("")`
   * is 0, as in JavaScript, a scan that reaches it reports time 0.
   */
  lemma {:induction false} BareShaLineHasTimeZero(repo: Repo, rt: JsRuntime, k: nat)
    requires rt.number("") == Some(0)
    requires var lines := LogLines(repo);
      && k < |lines| && Reached(lines, k, repo, rt) && '|' !in lines[k]
      && ChangeSetAdmits(ChangedFiles(repo, lines[k]))
    ensures LatestStudentWorkCommit(repo, rt).epochMs == Some(0)
  {
    var lines := LogLines(repo);
    LineWithoutSeparators(lines[k]);
    EmptyFieldsAreNotBot();
    assert Qualifies(lines, k, repo, rt);
    FirstStudentWorkIsReached(lines, k, repo, rt);
  }
}
