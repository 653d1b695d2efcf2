/**
 * The records the program reads from the learning-management API. Timestamps are
 * integer ticks; integers are the C# `int` fields, on which the program only compares.
 */
module Entities {

  /** A user: the observer, or a student the observer follows. */
  datatype User = User(id: int, name: string)

  /** One assignment of a course, with the grading fields a merge fills in. */
  datatype Assignment = Assignment(
    id: int,
    name: string,
    hasSubmittedSubmissions: bool,
    dueAt: int,
    lockAt: int,
    unlockAt: int,
    graderId: int,
    score: int,
    pointsPossible: int,
    workflowState: string)

  /** One attempt a student submitted for an assignment, with its grading state. */
  datatype Submission = Submission(
    assignmentId: int,
    graderId: int,
    score: int,
    attempt: int,
    workflowState: string)

  /**
   * Who graded an assignment, read off the sign of its grader id: no grader, a
   * teacher (a real user id), or the system (a negative id).
   */
  function GradedBy(a: Assignment): (kind: string)
    ensures kind == "not graded" <==> a.graderId == 0
    ensures kind == "teacher" <==> a.graderId > 0
    ensures kind == "automatic" <==> a.graderId < 0
  {
    if a.graderId == 0 then "not graded" else if a.graderId > 0 then "teacher" else "automatic"
  }
}
