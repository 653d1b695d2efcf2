/** Which assignments the report shows: FilterToRelevantAssignments. */
module Relevance {
  import opened Linq
  import opened Entities

  /** The first `Where`: the assignment locks after `now`. */
  function LocksAfter(now: int): Assignment -> bool
  {
    (a: Assignment) => a.lockAt > now
  }

  /** The second `Where`: the assignment unlocked before `now`. */
  function UnlockedBefore(now: int): Assignment -> bool
  {
    (a: Assignment) => a.unlockAt < now
  }

  /** The third `Where`: the assignment is worth points. */
  function HasPoints(a: Assignment): bool
  {
    a.pointsPossible > 0
  }

  /** The fourth `Where`: the assignment is not graded, or graded below full marks. */
  function StillOpenForMarks(a: Assignment): bool
  {
    (a.workflowState == "graded" && a.score < a.pointsPossible) || a.workflowState != "graded"
  }

  /** All four conditions at once, as one predicate. */
  function IsRelevant(a: Assignment, now: int): (keep: bool)
    ensures keep <==> && a.lockAt > now
                      && a.unlockAt < now
                      && a.pointsPossible > 0
                      && !(a.workflowState == "graded" && a.score >= a.pointsPossible)
  {
    LocksAfter(now)(a) && UnlockedBefore(now)(a) && HasPoints(a) && StillOpenForMarks(a)
  }

  /** `IsRelevant` at a fixed `now`, as a predicate value. */
  function RelevantAt(now: int): Assignment -> bool
  {
    (a: Assignment) => IsRelevant(a, now)
  }

  /**
   * FilterToRelevantAssignments: four chained `Where` calls, all reading the same clock
   * value `now`.
   */
  function FilterToRelevantAssignments(assignments: seq<Assignment>, now: int): (kept: seq<Assignment>)
    ensures |kept| <= |assignments|
    ensures forall a :: a in kept <==> a in assignments && IsRelevant(a, now)
  {
    var locked := Where(assignments, LocksAfter(now));
    var unlocked := Where(locked, UnlockedBefore(now));
    var pointed := Where(unlocked, HasPoints);
    WhereMembers(assignments, LocksAfter(now));
    WhereMembers(locked, UnlockedBefore(now));
    WhereMembers(unlocked, HasPoints);
    WhereMembers(pointed, StillOpenForMarks);
    Where(pointed, StillOpenForMarks)
  }

  /** The four chained filters are one filter by `IsRelevant`. */
  lemma FilterIsWhereRelevant(assignments: seq<Assignment>, now: int)
    ensures FilterToRelevantAssignments(assignments, now) == Where(assignments, RelevantAt(now))
  {
    var l, u := LocksAfter(now), UnlockedBefore(now);
    WhereFuse(assignments, l, u);
    WhereFuse(assignments, And(l, u), HasPoints);
    WhereFuse(assignments, And(And(l, u), HasPoints), StillOpenForMarks);
    WhereExtensional(assignments, And(And(And(l, u), HasPoints), StillOpenForMarks), RelevantAt(now));
  }

  /**
   * The filter keeps exactly the relevant assignments, in their original order: the
   * result lists the input at the increasing positions whose assignment is relevant.
   */
  lemma FilterExact(assignments: seq<Assignment>, now: int)
    ensures var kept, idx := FilterToRelevantAssignments(assignments, now), KeptIndices(assignments, RelevantAt(now));
      && |kept| == |idx|
      && (forall k :: 0 <= k < |kept| ==> kept[k] == assignments[idx[k]])
      && (forall k, l :: 0 <= k < l < |idx| ==> idx[k] < idx[l])
      && (forall i :: 0 <= i < |assignments| ==> (i in idx <==> IsRelevant(assignments[i], now)))
  {
    FilterIsWhereRelevant(assignments, now);
    WhereAtKeptIndices(assignments, RelevantAt(now));
    KeptIndicesComplete(assignments, RelevantAt(now));
  }

  /** Filtering twice with the same clock value is filtering once. */
  lemma FilterIdempotent(assignments: seq<Assignment>, now: int)
    ensures FilterToRelevantAssignments(FilterToRelevantAssignments(assignments, now), now)
         == FilterToRelevantAssignments(assignments, now)
  {
    var once := FilterToRelevantAssignments(assignments, now);
    FilterIsWhereRelevant(assignments, now);
    FilterIsWhereRelevant(once, now);
    WhereIdempotent(assignments, RelevantAt(now));
  }
}
