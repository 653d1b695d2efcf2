# CanvasSucks, modelled in Dafny

CanvasSucks is a small console program for a parent who observes a student on a
Canvas learning-management site. It looks up the observed student by name and fetches
the student's courses. For each course it fetches the assignments and the student's
submissions, following the API's paged responses through the `Link` header. It copies
the latest submission's grade into each assignment, keeps only the assignments still
worth acting on, and prints them in a table.

This project models the decision-making core of `Program.cs` and proves what it does:

- `outcomes.dfy` (`Outcomes`): `Option` and `Result`. These stand for C#'s `null` and
  for the exceptions a lookup throws.
- `linq.dfy` (`Linq`): the LINQ operators the program uses, with their .NET meaning on
  finite sequences: `Where`, a stable `OrderBy` on an integer key, the last element
  after ordering, `FirstOrDefault`, `Single`, and the appending of pages by `AddRange`.
  `Any` appears only inside `Single`, as its test for a second match.
- `text.dfy` (`Text`): `String.Split(char)`, ordinal `String.Contains(string)` and
  `String.Trim(params char[])`.
- `entities.dfy` (`Entities`): the `User` and `Assignment` records, the
  `AssignmentSubmission` record as the datatype `Submission`, and the computed
  `GradedBy` property.
- `relevance.dfy` (`Relevance`): `FilterToRelevantAssignments`.
- `merge.dfy` (`SubmissionMerge`): the submission merge loop of
  `GetAssignmentsForUserAndCourse`. It is imperative Dafny over an
  `array<Assignment>`, proved against the functions `MergePage` and `MergePages`.
- `pagination.dfy` (`Pagination`): `GetNextLink` on the value of a `Link` header.
- `identity.dfy` (`Identity`): `GetObserveeByName` on a fetched list of observees.

How the model reads the source:

- Timestamps are integer ticks. The clock `DateTime.UtcNow` is a parameter `now`.
- A missing next link and the failures of `Single` are `Option`/`Result` values
  rather than `null` or exceptions.
- The program is described as giving each assignment the grade of its latest
  submission. The code picks the latest submission separately within each page of
  submissions, and the model follows the code. So a later page overrides an earlier
  one even when the earlier page held a higher attempt
  (`LaterPageBeatsHigherAttempt`). Within a page, equal attempts are resolved by the
  stable sort in favour of the one that comes last.

## Model

| member | source | states |
|---|---|---|
| Linq.Where | Program.cs:52-56 | the filtered sequence is no longer than its input and each of its elements satisfies the predicate |
| Linq.WhereMembers | Program.cs:52-56 | an element is kept exactly when it occurs in the input and satisfies the predicate |
| Linq.KeptIndices | Program.cs:52-56 | the kept positions are as many as the kept elements, strictly increasing, in range, and each satisfies the predicate |
| Linq.KeptIndicesComplete | Program.cs:52-56 | every position whose element satisfies the predicate is a kept position |
| Linq.WhereAtKeptIndices | Program.cs:52-56 | the filtered sequence lists the input at the kept positions, in order |
| Linq.WhereConcat | Program.cs:52-56 | filtering distributes over concatenation |
| Linq.WhereAll | Program.cs:52-56 | a sequence whose elements all satisfy the predicate is left unchanged |
| Linq.WhereIdempotent | Program.cs:52-56 | filtering twice by one predicate is filtering once |
| Linq.WhereExtensional | Program.cs:52-56 | two predicates that agree on every element filter alike |
| Linq.WhereFuse | Program.cs:52-56 | two chained filters are one filter by the conjunction |
| Linq.InsertBy | Program.cs:79 | insertion adds one element, keeps the multiset, and puts the new element last unless the previous last has a larger key |
| Linq.InsertBySorted | Program.cs:79 | insertion into a key-sorted sequence keeps it sorted |
| Linq.OrderBy | Program.cs:79 | ordering by attempt is a permutation of its input and sorted by key |
| Linq.LastMaxIndex | Program.cs:79-84 | the index found holds a maximal key, and every later element has a strictly smaller key |
| Linq.LastOfOrderBy | Program.cs:79-84 | the last element after the stable sort is the last element of maximal key in input order |
| Linq.WhereEmpty | Program.cs:79-83 | the filter keeps nothing exactly when no element satisfies the predicate |
| Linq.LastOfOrderByWhere | Program.cs:79-84 | filtering, ordering and taking the last element picks the last input position of maximal key among the matching ones |
| Linq.FirstOrDefault | Program.cs:96 | missing exactly when nothing matches; otherwise the element at the first matching position |
| Linq.Any | Program.cs:108 | the test `Single` makes for a later match: true exactly when some element matches |
| Linq.Single | Program.cs:108 | succeeds exactly when one element matches, returning it; fails with NoMatch exactly when none match and with MoreThanOneMatch exactly when two do |
| Linq.FlattenAppend | Program.cs:62-70 | appending one more page of assignments puts its elements behind all those of the earlier pages, in order |
| Text.Split | Program.cs:96 | there is at least one piece, and no piece contains the separator |
| Text.JoinSplit | Program.cs:96 | joining the pieces with the separator gives back the string |
| Text.SplitJoin | Program.cs:96 | splitting a join of separator-free pieces gives back the pieces |
| Text.SplitFreePrefix | Program.cs:96 | a separator-free prefix ends up at the front of the first piece |
| Text.SplitFirst | Program.cs:96 | the first piece is the prefix up to the first separator, or the whole string |
| Text.Contains | Program.cs:96 | true exactly when the substring occurs at some position |
| Text.OccursWithin | Program.cs:96 | an occurrence inside an occurrence is an occurrence in the outer string |
| Text.PieceOccursInJoin | Program.cs:96 | every piece of a join occurs in the joined string |
| Text.SplitPieceContained | Program.cs:96 | whatever a piece of a split contains, the whole string contains |
| Text.LeadingCount | Program.cs:96 | counts the leading run of trimmable characters, and the character after the run is not trimmable |
| Text.TrailingCount | Program.cs:96 | counts the trailing run of trimmable characters, and the character before the run is not trimmable |
| Text.TrimStart | Program.cs:96 | the result is a suffix, everything dropped is trimmable, and the result does not start with a trimmable character |
| Text.TrimEnd | Program.cs:96 | the result is a prefix, everything dropped is trimmable, and the result does not end with a trimmable character |
| Text.Trim | Program.cs:96 | the result is a middle part of the input with only trimmable characters cut off either side, and it neither starts nor ends with one |
| Entities.GradedBy | Program.cs:179 | "not graded" exactly for grader 0, "teacher" exactly for a positive grader, "automatic" exactly for a negative one |
| Relevance.IsRelevant | Program.cs:53-56 | relevant exactly when it locks after now, unlocked before now, has points, and is not graded at full marks or above |
| Relevance.FilterToRelevantAssignments | Program.cs:50-58 | the result is no longer than the input, and an assignment is in it exactly when it is in the input and relevant |
| Relevance.FilterIsWhereRelevant | Program.cs:50-58 | the four chained filters equal one filter by IsRelevant |
| Relevance.FilterExact | Program.cs:50-58 | the result lists the input at strictly increasing positions, which are exactly those of the relevant assignments |
| Relevance.FilterIdempotent | Program.cs:50-58 | filtering a filtered list again at the same clock value changes nothing |
| SubmissionMerge.Latest | Program.cs:79-84 | a latest submission is one of the page's submissions and belongs to the assignment; its choice is stated by LatestNoneIff and LatestIsLastMaxAttempt |
| SubmissionMerge.TakeGrade | Program.cs:85-87 | score, grader and workflow state come from the submission; identity, dates and points stay |
| SubmissionMerge.MergePage | Program.cs:79-87 | one page keeps an assignment's identity, and either leaves it as it was or gives it the grade of one of its own submissions on the page |
| SubmissionMerge.MergePages | Program.cs:72-88 | merging any number of pages changes only score, grader and workflow state |
| SubmissionMerge.IsLatestAtUnique | Program.cs:79-84 | a page has at most one latest submission for an assignment |
| SubmissionMerge.LatestNoneIff | Program.cs:79-83 | no latest submission exactly when the page has no submission for the assignment, the skip case |
| SubmissionMerge.LatestIsLastMaxAttempt | Program.cs:79-84 | when the page has submissions for the assignment, the latest is the one of highest attempt, the last of them on ties |
| SubmissionMerge.MergePageTakesLatest | Program.cs:79-87 | within a page, an assignment takes score, grader and state of its latest submission |
| SubmissionMerge.MergePageNoMatch | Program.cs:79-83 | a page without submissions for an assignment leaves it unchanged |
| SubmissionMerge.LatestIgnoresOrder | Program.cs:79-84 | when attempts are distinct, reordering a page does not change its latest submission |
| SubmissionMerge.MergeNoMatch | Program.cs:72-88 | pages without submissions for an assignment leave it unchanged |
| SubmissionMerge.LastMatchingPageWins | Program.cs:72-88 | the last page holding submissions for an assignment decides its grade, through that page's latest submission |
| SubmissionMerge.LaterPageBeatsHigherAttempt | Program.cs:72-88 | attempt 1 on a later page overrides attempt 3 on an earlier one |
| SubmissionMerge.MergePageInto | Program.cs:77-88 | the inner loop leaves every array slot merged with the page, in place |
| SubmissionMerge.MergeSubmissions | Program.cs:72-89 | after the outer loop, every slot is its fetched assignment merged with all pages in order |
| SubmissionMerge.GetAssignmentsForUserAndCourse | Program.cs:60-91 | a fresh array of the concatenated assignment pages, each merged with all submission pages |
| Pagination.GetNextLink | Program.cs:93-97 | a next link contains no `;` and neither starts nor ends with an angle bracket; when it is missing and where it comes from are stated by NextLinkNoneIff and NextLinkFromFirstNextEntry |
| Pagination.PickedEntryIsFirstNext | Program.cs:96 | the picked entry is the first one containing rel="next", and nothing is picked when none contains it |
| Pagination.NextLinkNoneIff | Program.cs:93-97 | no next link exactly when no comma-separated entry contains rel="next" |
| Pagination.NextLinkFromFirstNextEntry | Program.cs:96 | a next link is the text before the first `;` of the first rel="next" entry, with angle brackets trimmed |
| Pagination.SecondEntryNext | Program.cs:96 | for two entries where only the second names the next page, the link is that entry's text before `;`, trimmed |
| Pagination.BracketedNextUrl | Program.cs:96 | a header whose second entry is `<url>; rel="next"` yields exactly url |
| Pagination.SpaceAfterCommaKeepsBracket | Program.cs:96 | a space after the comma is not trimmed, so the link keeps the space and the opening bracket |
| Pagination.NoNextRelationEndsPaging | Program.cs:93-97 | a header in which rel="next" does not occur yields no next link, ending the paging loop |
| Identity.GetObserveeByName | Program.cs:106-109 | a successful lookup returns an observee that carries the name |
| Identity.ObserveeLookupCases | Program.cs:108 | success exactly when one observee has the name, returning it; NoMatch exactly when none has it; MoreThanOneMatch exactly when two do |
| Identity.LookupExample | Program.cs:106-109 | among "A" and "B", looking up "B" finds user 2, and looking up "C" fails with NoMatch |

## Left out

- HTTP requests, RestSharp deserialisation and the two `while` paging loops over URLs (Program.cs:64-70 and 72-76). These are I/O. The model takes the fetched assignment pages and submission pages as sequences.
- `GetCurrentUser`, `GetObservees` and `GetCoursesForUser` (Program.cs:99-123). Each is a single request that returns the deserialised data. `GetObserveeByName` is therefore modelled on the fetched observee list.
- `AddAuthorization` and `Settings` (Program.cs:126-151). These are the access token and user secrets: configuration and I/O.
- `Main`, the console rendering and the table's sort by `LockAt` (Program.cs:13-47). These are output only.
- The `ToString` overrides and the `Course` record. They only format text.
- Relevance.FilterToRelevantAssignments: the source reads `DateTime.UtcNow` afresh for every element and every filter, and the model takes one clock value `now`. `DateTime` is integer ticks, compared only.
- Pagination.GetNextLink: reading the header value is left out. With no `Link` header, `linkHeaderValue` is `null` and the source throws. Two `Link` headers make `SingleOrDefault` throw. The model takes the header value as a present string.
- Null strings and null list elements are not modelled. Strings are `seq<char>`, compared ordinally, with no culture rules.
- Integers are unbounded. The source only compares its `int` fields and never does arithmetic on them, so 32-bit range does not matter.
- SubmissionMerge.MergePageInto: assignments are values held in array slots. The source mutates the `Assignment` objects of its `List`. The objects were freshly deserialised and are not shared, so no aliasing is lost.
- Linq.OrderBy: the stable sort is specified by sortedness, the multiset, and its last element (`LastOfOrderBy`). Stability is stated only through that last element, which is all the program reads.
