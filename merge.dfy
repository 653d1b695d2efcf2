/**
 * Copying each assignment's latest submission into it: the merge part of
 * GetAssignmentsForUserAndCourse. Submissions arrive page by page, and each page is
 * merged into every assignment on its own.
 */
module SubmissionMerge {
  import opened Outcomes
  import opened Linq
  import opened Entities

  /** The `Where` predicate: the submission belongs to assignment `id`. */
  function ForAssignment(id: int): Submission -> bool
  {
    (s: Submission) => s.assignmentId == id
  }

  /** The `OrderBy` key. */
  function Attempt(s: Submission): int
  {
    s.attempt
  }

  /** A page's submissions for assignment `id`, ordered by attempt (stable). */
  function MatchingByAttempt(page: seq<Submission>, id: int): seq<Submission>
  {
    OrderBy(Where(page, ForAssignment(id)), Attempt)
  }

  /** `Last()` of the ordered matches, or None when the page has none (the `continue`). */
  function Latest(page: seq<Submission>, id: int): (latest: Option<Submission>)
    ensures latest.Some? ==> latest.value in page && latest.value.assignmentId == id
  {
    var ordered := MatchingByAttempt(page, id);
    if |ordered| <= 0 then None
    else
      var matching := Where(page, ForAssignment(id));
      WhereMembers(page, ForAssignment(id));
      assert ordered[|ordered| - 1] in multiset(matching);
      Some(ordered[|ordered| - 1])
  }

  /** `r` is `a` up to the grading fields: position, identity, dates and points agree. */
  ghost predicate SameIdentity(r: Assignment, a: Assignment)
  {
    && r.id == a.id && r.name == a.name && r.hasSubmittedSubmissions == a.hasSubmittedSubmissions
    && r.dueAt == a.dueAt && r.lockAt == a.lockAt && r.unlockAt == a.unlockAt
    && r.pointsPossible == a.pointsPossible
  }

  /** Overwrites the three grading fields of `a` with those of `s`. */
  function TakeGrade(a: Assignment, s: Submission): (r: Assignment)
    ensures SameIdentity(r, a)
    ensures r.score == s.score && r.graderId == s.graderId && r.workflowState == s.workflowState
  {
    a.(score := s.score, graderId := s.graderId, workflowState := s.workflowState)
  }

  /**
   * What one page of submissions does to one assignment: it keeps its identity, and
   * either stays as it was or takes the grade of one of its submissions on the page.
   */
  function MergePage(a: Assignment, page: seq<Submission>): (r: Assignment)
    ensures SameIdentity(r, a)
    ensures r == a || exists s :: s in page && s.assignmentId == a.id && r == TakeGrade(a, s)
  {
    match Latest(page, a.id)
    case None => a
    case Some(s) => TakeGrade(a, s)
  }

  /** What the pages, merged one after another, do to one assignment: only grading fields change. */
  function MergePages(a: Assignment, pages: seq<seq<Submission>>): (r: Assignment)
    ensures SameIdentity(r, a)
  {
    if pages == [] then a
    else MergePage(MergePages(a, pages[..|pages| - 1]), pages[|pages| - 1])
  }

  /** `page` holds no submission for assignment `id`. */
  ghost predicate NoneFor(page: seq<Submission>, id: int)
  {
    forall j :: 0 <= j < |page| ==> page[j].assignmentId != id
  }

  /**
   * Position `k` of `page` is a submission for assignment `id` with the highest attempt
   * of the page, and no later submission for `id` on the page reaches that attempt.
   */
  ghost predicate IsLatestAt(page: seq<Submission>, id: int, k: int)
  {
    && 0 <= k < |page|
    && page[k].assignmentId == id
    && (forall j :: 0 <= j < |page| && page[j].assignmentId == id ==> page[j].attempt <= page[k].attempt)
    && (forall j :: k < j < |page| && page[j].assignmentId == id ==> page[j].attempt < page[k].attempt)
  }

  /** At most one position of a page is the latest submission for an assignment. */
  lemma IsLatestAtUnique(page: seq<Submission>, id: int, k: int, k': int)
    requires IsLatestAt(page, id, k) && IsLatestAt(page, id, k')
    ensures k == k'
  {
    assert page[k].attempt <= page[k'].attempt && page[k'].attempt <= page[k].attempt;
  }

  /** `Latest` is None exactly when the page has no submission for the assignment. */
  lemma LatestNoneIff(page: seq<Submission>, id: int)
    ensures Latest(page, id).None? <==> NoneFor(page, id)
  {
    var p := ForAssignment(id);
    assert MatchingByAttempt(page, id) == OrderBy(Where(page, p), Attempt);
    WhereEmpty(page, p);
    assert NoneFor(page, id) <==> forall j :: 0 <= j < |page| ==> !p(page[j]);
  }

  /**
   * When a page has submissions for the assignment, `Latest` is the one of maximal
   * attempt that comes last on the page among equal attempts.
   */
  lemma LatestIsLastMaxAttempt(page: seq<Submission>, id: int)
    requires !NoneFor(page, id)
    ensures Latest(page, id).Some?
    ensures exists k :: IsLatestAt(page, id, k) && Latest(page, id) == Some(page[k])
  {
    LatestNoneIff(page, id);
    var p := ForAssignment(id);
    var matching := Where(page, p);
    assert MatchingByAttempt(page, id) == OrderBy(matching, Attempt);
    WhereEmpty(page, p);
    LastOfOrderByWhere(page, p, Attempt);
    var k := KeptIndices(page, p)[LastMaxIndex(matching, Attempt)];
    LastMaxWhereIsLatest(page, id, k);
  }

  /** The generic last-maximum position, read for submissions and attempts. */
  lemma LastMaxWhereIsLatest(page: seq<Submission>, id: int, k: int)
    requires IsLastMaxWhere(page, ForAssignment(id), Attempt, k)
    ensures IsLatestAt(page, id, k)
  {
    var p := ForAssignment(id);
    forall j | 0 <= j < |page| && page[j].assignmentId == id
      ensures page[j].attempt <= page[k].attempt
      ensures k < j ==> page[j].attempt < page[k].attempt
    {
      assert p(page[j]);
    }
  }

  /** Within a page, an assignment takes the grade of its latest submission. */
  lemma MergePageTakesLatest(a: Assignment, page: seq<Submission>, k: int)
    requires IsLatestAt(page, a.id, k)
    ensures MergePage(a, page) == TakeGrade(a, page[k])
  {
    LatestIsLastMaxAttempt(page, a.id);
    var k' :| IsLatestAt(page, a.id, k') && Latest(page, a.id) == Some(page[k']);
    IsLatestAtUnique(page, a.id, k, k');
  }

  /** A page without submissions for an assignment leaves it as it was. */
  lemma MergePageNoMatch(a: Assignment, page: seq<Submission>)
    requires NoneFor(page, a.id)
    ensures MergePage(a, page) == a
  {
    LatestNoneIff(page, a.id);
  }

  /** When the attempts for an assignment are distinct, the order within a page is irrelevant. */
  lemma LatestIgnoresOrder(page: seq<Submission>, shuffled: seq<Submission>, id: int)
    requires multiset(shuffled) == multiset(page)
    requires forall i, j :: 0 <= i < j < |page| && page[i].assignmentId == id && page[j].assignmentId == id
               ==> page[i].attempt != page[j].attempt
    ensures Latest(shuffled, id) == Latest(page, id)
  {
    LatestNoneIff(page, id);
    LatestNoneIff(shuffled, id);
    forall j | 0 <= j < |shuffled| && shuffled[j].assignmentId == id
      ensures !NoneFor(page, id)
    {
      assert shuffled[j] in multiset(page);
      var n :| 0 <= n < |page| && page[n] == shuffled[j];
    }
    forall j | 0 <= j < |page| && page[j].assignmentId == id
      ensures !NoneFor(shuffled, id)
    {
      assert page[j] in multiset(shuffled);
      var n :| 0 <= n < |shuffled| && shuffled[n] == page[j];
    }
    if !NoneFor(page, id) {
      LatestIsLastMaxAttempt(page, id);
      LatestIsLastMaxAttempt(shuffled, id);
      var k :| IsLatestAt(page, id, k) && Latest(page, id) == Some(page[k]);
      var k' :| IsLatestAt(shuffled, id, k') && Latest(shuffled, id) == Some(shuffled[k']);
      assert page[k] in multiset(shuffled);
      var m :| 0 <= m < |shuffled| && shuffled[m] == page[k];
      assert shuffled[k'] in multiset(page);
      var n :| 0 <= n < |page| && page[n] == shuffled[k'];
      assert page[n].attempt == page[k].attempt;
      assert n == k;
    }
  }

  /** Pages without submissions for an assignment leave it as it was. */
  lemma {:induction false} MergeNoMatch(a: Assignment, pages: seq<seq<Submission>>)
    requires forall q :: 0 <= q < |pages| ==> NoneFor(pages[q], a.id)
    ensures MergePages(a, pages) == a
  {
    if pages != [] {
      MergeNoMatch(a, pages[..|pages| - 1]);
      MergePageNoMatch(a, pages[|pages| - 1]);
    }
  }

  /**
   * The last page holding a submission for an assignment decides its grade: that page's
   * latest submission, whatever attempts the earlier pages held.
   */
  lemma {:induction false} LastMatchingPageWins(a: Assignment, pages: seq<seq<Submission>>, p: int, k: int)
    requires 0 <= p < |pages|
    requires IsLatestAt(pages[p], a.id, k)
    requires forall q :: p < q < |pages| ==> NoneFor(pages[q], a.id)
    ensures MergePages(a, pages) == TakeGrade(a, pages[p][k])
  {
    if p == |pages| - 1 {
      LastPageTakesLatest(a, pages, k);
    } else {
      var init := pages[..|pages| - 1];
      assert init[p] == pages[p];
      assert forall q :: p < q < |init| ==> init[q] == pages[q];
      LastMatchingPageWins(a, init, p, k);
      LastPageWithoutMatch(a, pages);
    }
  }

  /** When the last page holds submissions for an assignment, its latest one decides. */
  lemma LastPageTakesLatest(a: Assignment, pages: seq<seq<Submission>>, k: int)
    requires |pages| > 0 && IsLatestAt(pages[|pages| - 1], a.id, k)
    ensures MergePages(a, pages) == TakeGrade(a, pages[|pages| - 1][k])
  {
    var init, last := pages[..|pages| - 1], pages[|pages| - 1];
    var before := MergePages(a, init);
    MergePageTakesLatest(before, last, k);
    TakeGradeOverwrites(before, a, last[k]);
  }

  /** A last page without submissions for an assignment does not change it. */
  lemma LastPageWithoutMatch(a: Assignment, pages: seq<seq<Submission>>)
    requires |pages| > 0 && NoneFor(pages[|pages| - 1], a.id)
    ensures MergePages(a, pages) == MergePages(a, pages[..|pages| - 1])
  {
    var before := MergePages(a, pages[..|pages| - 1]);
    MergePageNoMatch(before, pages[|pages| - 1]);
  }

  /** Taking a grade forgets the grading fields it overwrites. */
  lemma TakeGradeOverwrites(b: Assignment, a: Assignment, s: Submission)
    requires SameIdentity(b, a)
    ensures TakeGrade(b, s) == TakeGrade(a, s)
  {
  }

  /** A later page's attempt 1 overrides an earlier page's attempt 3. */
  lemma LaterPageBeatsHigherAttempt(a: Assignment)
    ensures var first, second := Submission(a.id, 7, 10, 3, "graded"), Submission(a.id, 0, 4, 1, "submitted");
      MergePages(a, [[first], [second]]) == TakeGrade(a, second)
  {
    var first, second := Submission(a.id, 7, 10, 3, "graded"), Submission(a.id, 0, 4, 1, "submitted");
    assert IsLatestAt([second], a.id, 0);
    LastMatchingPageWins(a, [[first], [second]], 1, 0);
  }

  /** Merging one more page is merging that page into the result so far. */
  lemma MergePagesStep(a: Assignment, pages: seq<seq<Submission>>, p: int)
    requires 0 <= p < |pages|
    ensures MergePages(a, pages[..p + 1]) == MergePage(MergePages(a, pages[..p]), pages[p])
  {
    assert pages[..p + 1][..p] == pages[..p];
  }

  /**
   * The inner loop, over the assignments for one page of submissions: every assignment
   * that has a submission on the page takes the three grading fields of that page's
   * latest one, in place; the others are skipped.
   */
  method MergePageInto(assignments: array<Assignment>, page: seq<Submission>)
    modifies assignments
    ensures forall i :: 0 <= i < assignments.Length ==>
              assignments[i] == MergePage(old(assignments[i]), page)
  {
    var i := 0;
    while i < assignments.Length
      invariant 0 <= i <= assignments.Length
      invariant MergedPrefix(assignments[..], old(assignments[..]), page, i)
    {
      ghost var before := assignments[..];
      var assignment := assignments[i];
      // The page's submissions for this assignment ordered by attempt, and the last of
      // them unless there are none.
      var latest := Latest(page, assignment.id);
      if latest.Some? {
        var lastSubmission := latest.value;
        assignments[i] := assignment.(score := lastSubmission.score,
                                      graderId := lastSubmission.graderId,
                                      workflowState := lastSubmission.workflowState);
      }
      MergedPrefixStep(before, old(assignments[..]), page, i);
      assert assignments[..] == before[i := MergePage(assignment, page)];
      i := i + 1;
    }
    MergedPrefixAll(assignments[..], old(assignments[..]), page);
  }

  /**
   * The first `n` slots of `slots` hold the merged slots of `before` and the rest are
   * untouched: the state of the inner loop after `n` assignments.
   */
  ghost predicate MergedPrefix(slots: seq<Assignment>, before: seq<Assignment>, page: seq<Submission>, n: int)
  {
    && |slots| == |before| && 0 <= n <= |slots|
    && (forall j :: 0 <= j < n ==> slots[j] == MergePage(before[j], page))
    && (forall j :: n <= j < |slots| ==> slots[j] == before[j])
  }

  /** Merging slot `n` extends the merged prefix by one. */
  lemma MergedPrefixStep(slots: seq<Assignment>, before: seq<Assignment>, page: seq<Submission>, n: int)
    requires MergedPrefix(slots, before, page, n) && n < |slots|
    ensures MergedPrefix(slots[n := MergePage(slots[n], page)], before, page, n + 1)
  {
  }

  /** A prefix covering every slot is the whole merge. */
  lemma MergedPrefixAll(slots: seq<Assignment>, before: seq<Assignment>, page: seq<Submission>)
    requires MergedPrefix(slots, before, page, |slots|)
    ensures forall j :: 0 <= j < |slots| ==> slots[j] == MergePage(before[j], page)
  {
  }

  /**
   * The outer loop, over the pages of submissions: each page is merged into every
   * assignment as it arrives.
   */
  method MergeSubmissions(assignments: array<Assignment>, pages: seq<seq<Submission>>)
    modifies assignments
    ensures forall i :: 0 <= i < assignments.Length ==>
              assignments[i] == MergePages(old(assignments[i]), pages)
  {
    ghost var fetched := assignments[..];
    var p := 0;
    while p < |pages|
      invariant 0 <= p <= |pages|
      invariant forall i :: 0 <= i < assignments.Length ==>
                  assignments[i] == MergePages(fetched[i], pages[..p])
    {
      MergePageInto(assignments, pages[p]);
      forall i | 0 <= i < assignments.Length
        ensures assignments[i] == MergePages(fetched[i], pages[..p + 1])
      {
        MergePagesStep(fetched[i], pages, p);
      }
      p := p + 1;
    }
    assert pages[..|pages|] == pages;
  }

  /**
   * GetAssignmentsForUserAndCourse without the requests: the assignment pages appended
   * in order, then every submission page merged in.
   */
  method GetAssignmentsForUserAndCourse(assignmentPages: seq<seq<Assignment>>, submissionPages: seq<seq<Submission>>)
    returns (assignments: array<Assignment>)
    ensures fresh(assignments)
    ensures assignments.Length == |Flatten(assignmentPages)|
    ensures forall i :: 0 <= i < assignments.Length ==>
              assignments[i] == MergePages(Flatten(assignmentPages)[i], submissionPages)
  {
    var fetched := Flatten(assignmentPages);
    assignments := new Assignment[|fetched|](i requires 0 <= i < |fetched| => fetched[i]);
    MergeSubmissions(assignments, submissionPages);
  }
}
