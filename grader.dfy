/**
 * The grading run of the script's top level: locate and test the server file,
 * pick the commit that times the submission, derive the status and marks,
 * score the tasks and decide whether the optional dynamic run happens.
 * The file system, the environment and the compiler check are parameters.
 */
module Grader {
  import opened Wrappers
  import opened Text
  import opened Git
  import opened Commits
  import opened Provenance
  import opened Lateness
  import opened Submission
  import opened Scoring
  import opened StudentId

  /** The environment variables the autograder reads; an unset variable is "". */
  datatype Env = Env(studentUsername: string, githubRepository: string, githubActor: string)

  /** The optional dynamic run: skipped, stopped by a compile error, or run in the sandbox. */
  datatype DynamicRun = Skipped | CompileFailed(error: string) | Ran

  /** What the run decides; the report and the CSV file are built from these values. */
  datatype Outcome = Outcome(
    studentId: string,
    hasServer: bool,
    serverEmpty: bool,
    commit: CommitInfo,
    head: Option<HeadInfo>,
    late: bool,
    status: Status,
    submissionMarks: nat,
    tasks: seq<TaskResult>,
    earnedTasks: nat,
    total: nat,
    dynamicRun: DynamicRun)

  /**
   * One grading run. `server` is the content of the required server file, or
   * None when it is not a regular file; `compileError(code)` is None when the
   * code compiles and the error text otherwise.
   */
  method Grade(env: Env, server: Option<string>, stripComments: string -> string,
               repo: Repo, rt: JsRuntime, compileError: string -> Option<string>)
    returns (o: Outcome)
    ensures o.studentId == GetStudentId(env.studentUsername, env.githubRepository, env.githubActor)
    ensures o.hasServer == server.Some?
    ensures o.serverEmpty == (server.None? || IsEmptyCode(stripComments, server.value))
    ensures o.commit == LatestStudentWorkCommit(repo, rt)
    ensures o.head == HeadCommitInfo(repo.head, rt)
    ensures o.late <==> !o.serverEmpty && o.commit.epochMs.Some? && o.commit.epochMs.value > DueEpochMs
    ensures o.status == StatusOf(o.hasServer, o.serverEmpty, o.late)
    ensures o.submissionMarks == SubmissionMarks(o.status)
    ensures |o.tasks| == |Tasks| && forall i :: 0 <= i < |Tasks| ==> o.tasks[i] == ResultOf(Tasks[i], o.status)
    ensures o.earnedTasks == SumEarned(o.tasks)
    ensures o.earnedTasks == if o.status == NoSubmission then 0 else SumMarks(Tasks)
    ensures o.total == LabTotal(o.status)
    ensures o.total == 0 <==> o.serverEmpty
    ensures o.total == 90 <==> o.late
    ensures o.dynamicRun == Skipped <==> o.serverEmpty
    ensures o.dynamicRun == Ran <==> !o.serverEmpty && compileError(server.value).None?
  {
    var studentId := GetStudentId(env.studentUsername, env.githubRepository, env.githubActor);
    var hasServer := server.Some?;
    var serverCode := if hasServer then server.value else "";
    var serverEmpty := if hasServer then IsEmptyCode(stripComments, serverCode) else true;

    var commitInfo, inspected := GetLatestStudentWorkCommitInfo(repo, rt);
    var headInfo := HeadCommitInfo(repo.head, rt);

    var late := if hasServer && !serverEmpty then WasSubmittedLate(commitInfo.epochMs) else false;

    var status := OnTime;
    if !hasServer || serverEmpty {
      status := NoSubmission;
    } else {
      status := if late then Late else OnTime;
    }
    var submissionMarks := SubmissionMarks(status);

    var dynamicRun := Skipped;
    if hasServer && !serverEmpty {
      var error := compileError(serverCode);
      if error.Some? {
        dynamicRun := CompileFailed(error.value);
      } else {
        dynamicRun := Ran;
      }
    }

    var taskResults, earnedTasks := ScoreTasks(Tasks, status);
    var total := TotalEarned(earnedTasks, submissionMarks);
    LabTotalByStatus(status);

    o := Outcome(studentId, hasServer, serverEmpty, commitInfo, headInfo, late, status,
                 submissionMarks, taskResults, earnedTasks, total, dynamicRun);
  }

  /** An empty or unreadable history gives no commit time, and so never a late submission. */
  lemma {:induction false} EmptyHistoryIsNeverLate(repo: Repo, rt: JsRuntime)
    requires repo.log.Failed? || Trim(repo.log.text) == ""
    ensures !WasSubmittedLate(LatestStudentWorkCommit(repo, rt).epochMs)
  {
    EmptyOrFailedLogIgnoresHead(repo, rt);
  }

  /**
   * A commit chosen from a log line without a timestamp field has time 0,
   * which the lateness rule treats as unknown: never late.
   */
  lemma {:induction false} MissingTimestampIsNeverLate(repo: Repo, rt: JsRuntime, k: nat)
    requires rt.number("") == Some(0)
    requires var lines := LogLines(repo);
      && k < |lines| && Reached(lines, k, repo, rt) && '|' !in lines[k]
      && PathFilter.ChangeSetAdmits(ChangedFiles(repo, lines[k]))
    ensures !WasSubmittedLate(LatestStudentWorkCommit(repo, rt).epochMs)
  {
    BareShaLineHasTimeZero(repo, rt, k);
  }

  /**
   * The git commands as the script writes them: `--format=%H|%ct|%an|%ae|%s`
   * reaches `/bin/sh` unquoted, so each `|` starts a pipe and the last stage,
   * `%s`, is not a command. Both `git log` calls then fail, HEAD is unreadable,
   * the commit time is unknown and no submission is ever marked late.
   */
  method GradeWithUnquotedFormat(env: Env, server: Option<string>, stripComments: string -> string,
                                 logError: string, headError: string, diffTree: string -> GitOutput,
                                 rt: JsRuntime, compileError: string -> Option<string>)
    returns (o: Outcome)
    ensures o.commit == Sentinel(InspectionFailed(logError)) && o.head == None
    ensures !o.late && o.status != Late
    ensures o.total == 0 || o.total == 100
  {
    var repo := Repo(Failed(logError), Failed(headError), diffTree);
    o := Grade(env, server, stripComments, repo, rt, compileError);
    EmptyOrFailedLogIgnoresHead(repo, rt);
    LabTotalByStatus(o.status);
  }

  /**
   * With the format quoted, as intended, the scan sees the log: when the commit
   * it selects was made after the deadline, the submission is late.
   */
  lemma {:induction false} LateStudentWorkIsLate(repo: Repo, rt: JsRuntime, k: nat)
    requires var lines := LogLines(repo);
      && k < |lines| && Reached(lines, k, repo, rt) && Qualifies(lines, k, repo, rt)
      && var ms := rt.number(ParseLogLine(lines[k]).ct).value * 1000;
         IsTimeValue(ms) && ms > DueEpochMs
    ensures WasSubmittedLate(LatestStudentWorkCommit(repo, rt).epochMs)
  {
    var lines := LogLines(repo);
    FirstStudentWorkIsReached(lines, k, repo, rt);
    assert LatestStudentWorkCommit(repo, rt) == Selected(ParseLogLine(lines[k]), rt);
  }
}
