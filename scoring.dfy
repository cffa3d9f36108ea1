/**
 * Status and score: the status code of a submission, its submission marks,
 * the two 40-mark tasks and the total, clamped at 100.
 */
module Scoring {

  /** The status codes of the report: 0 on time, 1 late, 2 no submission or an empty server file. */
  datatype Status = OnTime | Late | NoSubmission

  /** The number the report and the CSV file show for a status. */
  function Code(s: Status): (c: nat)
    ensures c <= 2
  {
    match s
    case OnTime => 0
    case Late => 1
    case NoSubmission => 2
  }

  /**
   * The status rule: a missing or empty server file is "no submission";
   * otherwise a late submission is late and any other is on time.
   */
  function StatusOf(hasServer: bool, serverEmpty: bool, late: bool): (s: Status)
    ensures s == NoSubmission <==> !hasServer || serverEmpty
    ensures s == Late <==> hasServer && !serverEmpty && late
  {
    if !hasServer || serverEmpty then NoSubmission
    else if late then Late else OnTime
  }

  /** Submission marks out of 20: full on time, half when late, none without a submission. */
  function SubmissionMarks(s: Status): (m: nat)
    ensures m <= 20
    ensures m == 0 <==> s == NoSubmission
  {
    match s
    case NoSubmission => 0
    case Late => 10
    case OnTime => 20
  }

  /** A worse status code never earns more submission marks. */
  lemma MarksFallAsStatusWorsens(a: Status, b: Status)
    requires Code(a) <= Code(b)
    ensures SubmissionMarks(a) >= SubmissionMarks(b)
  {
  }

  datatype Task = Task(id: string, name: string, marks: nat)

  /** The lab's two tasks, 40 marks each. */
  const Tasks: seq<Task> := [
    Task("Task 1", "Data flow understanding notes (backend route + frontend fetch)", 40),
    Task("Task 2", "Back-end fundamentals requirements", 40)
  ]

  /** One checklist line of a task's feedback (`req(label, ok, detailIfFail)`, with the label as `title`). */
  datatype Requirement = Requirement(title: string, ok: bool, detailIfFail: string)

  datatype TaskResult = TaskResult(id: string, name: string, earned: nat, max: nat, reqs: seq<Requirement>)

  const CannotGradeLabel: string := "No submission / empty server.js → cannot grade tasks"
  const CompletedLabel: string := "Completed"

  /** The result of one task: nothing without a submission, its full marks otherwise. */
  function ResultOf(t: Task, s: Status): (r: TaskResult)
    ensures r.id == t.id && r.name == t.name && r.max == t.marks && r.earned <= r.max
    ensures |r.reqs| == 1 && (r.reqs[0].ok <==> s != NoSubmission)
  {
    if s == NoSubmission then TaskResult(t.id, t.name, 0, t.marks, [Requirement(CannotGradeLabel, false, "")])
    else TaskResult(t.id, t.name, t.marks, t.marks, [Requirement(CompletedLabel, true, "")])
  }

  /** The marks of `tasks` added up. */
  function SumMarks(tasks: seq<Task>): nat {
    if |tasks| == 0 then 0
    else SumMarks(tasks[..|tasks| - 1]) + tasks[|tasks| - 1].marks
  }

  /** The marks earned in `results` added up. */
  function SumEarned(results: seq<TaskResult>): nat {
    if |results| == 0 then 0
    else SumEarned(results[..|results| - 1]) + results[|results| - 1].earned
  }

  /**
   * `tasks.map(...)` with the `earnedTasks` accumulator: every task earns its
   * full marks unless there is no submission, when every task earns nothing.
   */
  method ScoreTasks(tasks: seq<Task>, s: Status) returns (results: seq<TaskResult>, earnedTasks: nat)
    ensures |results| == |tasks|
    ensures forall i :: 0 <= i < |tasks| ==> results[i] == ResultOf(tasks[i], s)
    ensures forall i :: 0 <= i < |tasks| ==> results[i].earned == if s == NoSubmission then 0 else tasks[i].marks
    ensures earnedTasks == SumEarned(results)
    ensures earnedTasks == if s == NoSubmission then 0 else SumMarks(tasks)
  {
    results := [];
    earnedTasks := 0;
    var i := 0;
    while i < |tasks|
      invariant 0 <= i <= |tasks|
      invariant |results| == i
      invariant forall j :: 0 <= j < i ==> results[j] == ResultOf(tasks[j], s)
      invariant earnedTasks == SumEarned(results)
      invariant earnedTasks == if s == NoSubmission then 0 else SumMarks(tasks[..i])
    {
      var t := tasks[i];
      var r: TaskResult;
      if s == NoSubmission {
        r := TaskResult(t.id, t.name, 0, t.marks, [Requirement(CannotGradeLabel, false, "")]);
      } else {
        r := TaskResult(t.id, t.name, t.marks, t.marks, [Requirement(CompletedLabel, true, "")]);
        earnedTasks := earnedTasks + t.marks;
      }
      assert SumEarned(results + [r]) == SumEarned(results) + r.earned by {
        assert (results + [r])[..|results|] == results;
      }
      assert SumMarks(tasks[..i + 1]) == SumMarks(tasks[..i]) + t.marks by {
        assert tasks[..i + 1][..i] == tasks[..i];
      }
      results := results + [r];
      i := i + 1;
    }
    assert tasks[..i] == tasks;
  }

  /** `Math.min(earnedTasks + submissionMarks, 100)`. */
  function TotalEarned(earnedTasks: nat, submissionMarks: nat): (total: nat)
    ensures total <= 100 && total <= earnedTasks + submissionMarks
    ensures total == earnedTasks + submissionMarks || total == 100
  {
    if earnedTasks + submissionMarks < 100 then earnedTasks + submissionMarks else 100
  }

  /** The lab's score for a status: tasks earn 80 or nothing, and the total is 100, 90 or 0. */
  function LabTotal(s: Status): nat {
    TotalEarned(if s == NoSubmission then 0 else SumMarks(Tasks), SubmissionMarks(s))
  }

  /** The tasks are worth 80 in all, so the clamp never cuts: the totals are exactly 100, 90 and 0. */
  lemma LabTotals()
    ensures SumMarks(Tasks) == 80
    ensures LabTotal(OnTime) == 100 && LabTotal(Late) == 90 && LabTotal(NoSubmission) == 0
  {
    assert Tasks[..1][..0] == [];
    assert Tasks[..1] == [Tasks[0]];
    assert Tasks[..|Tasks| - 1] == Tasks[..1];
  }

  /** The total is 0 exactly without a submission, and 100 exactly for an on-time one. */
  lemma {:induction false} LabTotalByStatus(s: Status)
    ensures LabTotal(s) in {0, 90, 100}
    ensures LabTotal(s) == 0 <==> s == NoSubmission
    ensures LabTotal(s) == 100 <==> s == OnTime
  {
    LabTotals();
  }
}
