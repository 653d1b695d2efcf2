/**
 * The LINQ operators (System.Linq.Enumerable) that the program applies to its lists,
 * given their .NET meaning on finite sequences.
 */
module Linq {
  import opened Outcomes

  /** The conjunction of two predicates, as a chain of two `Where` calls applies them. */
  function And<T>(p: T -> bool, q: T -> bool): T -> bool
  {
    x => p(x) && q(x)
  }

  /** Enumerable.Where: the elements satisfying `p`, in their original order. */
  function Where<T>(xs: seq<T>, p: T -> bool): (r: seq<T>)
    ensures |r| <= |xs|
    ensures forall i :: 0 <= i < |r| ==> p(r[i])
  {
    if xs == [] then []
    else
      var init, last := xs[..|xs| - 1], xs[|xs| - 1];
      Where(init, p) + (if p(last) then [last] else [])
  }

  /** `Where` keeps an element exactly when it occurs in the input and satisfies `p`. */
  lemma {:induction false} WhereMembers<T>(xs: seq<T>, p: T -> bool)
    ensures forall y :: y in Where(xs, p) <==> y in xs && p(y)
  {
    if xs != [] {
      var init, last := xs[..|xs| - 1], xs[|xs| - 1];
      WhereMembers(init, p);
      assert xs == init + [last];
    }
  }

  /** The positions of `xs` whose elements satisfy `p`, in increasing order. */
  function KeptIndices<T>(xs: seq<T>, p: T -> bool): (idx: seq<nat>)
    ensures |idx| == |Where(xs, p)|
    ensures forall k :: 0 <= k < |idx| ==> idx[k] < |xs| && p(xs[idx[k]])
    ensures forall k, l :: 0 <= k < l < |idx| ==> idx[k] < idx[l]
  {
    if xs == [] then []
    else
      KeptIndices(xs[..|xs| - 1], p) + (if p(xs[|xs| - 1]) then [|xs| - 1] else [])
  }

  /** Every position whose element satisfies `p` is a kept position. */
  lemma {:induction false} KeptIndicesComplete<T>(xs: seq<T>, p: T -> bool)
    ensures forall i :: 0 <= i < |xs| && p(xs[i]) ==> i in KeptIndices(xs, p)
  {
    if xs != [] {
      var init := xs[..|xs| - 1];
      KeptIndicesComplete(init, p);
      forall i | 0 <= i < |xs| - 1 && p(xs[i]) ensures i in KeptIndices(xs, p) {
        assert init[i] == xs[i];
      }
    }
  }

  /** `Where` keeps exactly the elements at the kept positions, in order. */
  lemma {:induction false} WhereAtKeptIndices<T>(xs: seq<T>, p: T -> bool)
    ensures |Where(xs, p)| == |KeptIndices(xs, p)|
    ensures forall k :: 0 <= k < |Where(xs, p)| ==> Where(xs, p)[k] == xs[KeptIndices(xs, p)[k]]
  {
    if xs != [] {
      var init, last := xs[..|xs| - 1], xs[|xs| - 1];
      WhereAtKeptIndices(init, p);
      var kept, idx := Where(init, p), KeptIndices(init, p);
      var tail := if p(last) then [last] else [];
      var tailIdx := if p(last) then [|xs| - 1] else [];
      assert Where(xs, p) == kept + tail;
      assert KeptIndices(xs, p) == idx + tailIdx;
      forall k | 0 <= k < |Where(xs, p)|
        ensures Where(xs, p)[k] == xs[KeptIndices(xs, p)[k]]
      {
        if k < |kept| {
          assert Where(xs, p)[k] == kept[k] == init[idx[k]];
          assert KeptIndices(xs, p)[k] == idx[k];
        } else {
          assert Where(xs, p)[k] == last;
          assert KeptIndices(xs, p)[k] == |xs| - 1;
        }
      }
    }
  }

  /** `Where` distributes over concatenation. */
  lemma {:induction false} WhereConcat<T>(a: seq<T>, b: seq<T>, p: T -> bool)
    ensures Where(a + b, p) == Where(a, p) + Where(b, p)
  {
    if b != [] {
      var init, last := b[..|b| - 1], b[|b| - 1];
      assert (a + b)[..|a + b| - 1] == a + init;
      WhereConcat(a, init, p);
    } else {
      assert a + b == a;
    }
  }

  /** Filtering a sequence whose elements all satisfy `p` changes nothing. */
  lemma {:induction false} WhereAll<T>(xs: seq<T>, p: T -> bool)
    requires forall i :: 0 <= i < |xs| ==> p(xs[i])
    ensures Where(xs, p) == xs
  {
    if xs != [] {
      var init := xs[..|xs| - 1];
      assert forall i :: 0 <= i < |init| ==> init[i] == xs[i];
      WhereAll(init, p);
    }
  }

  /** `Where` is idempotent. */
  lemma WhereIdempotent<T>(xs: seq<T>, p: T -> bool)
    ensures Where(Where(xs, p), p) == Where(xs, p)
  {
    WhereAll(Where(xs, p), p);
  }

  /** `Where` sees a predicate only through its values. */
  lemma {:induction false} WhereExtensional<T>(xs: seq<T>, p: T -> bool, q: T -> bool)
    requires forall i :: 0 <= i < |xs| ==> p(xs[i]) == q(xs[i])
    ensures Where(xs, p) == Where(xs, q)
  {
    if xs != [] {
      var init := xs[..|xs| - 1];
      assert forall i :: 0 <= i < |init| ==> init[i] == xs[i];
      WhereExtensional(init, p, q);
    }
  }

  /** Two chained `Where` calls filter by the conjunction of their predicates. */
  lemma {:induction false} WhereFuse<T>(xs: seq<T>, p: T -> bool, q: T -> bool)
    ensures Where(Where(xs, p), q) == Where(xs, And(p, q))
  {
    if xs != [] {
      var init, last := xs[..|xs| - 1], xs[|xs| - 1];
      WhereFuse(init, p, q);
      WhereConcat(Where(init, p), if p(last) then [last] else [], q);
    }
  }

  /** Keys never decrease from left to right. */
  ghost predicate SortedBy<T>(xs: seq<T>, key: T -> int)
  {
    forall i, j :: 0 <= i < j < |xs| ==> key(xs[i]) <= key(xs[j])
  }

  /**
   * Inserts `x`, an element that comes after every element of `t` in the input, into
   * `t`: it goes behind every element whose key is at most its own, which keeps equal
   * keys in input order.
   */
  function InsertBy<T>(t: seq<T>, x: T, key: T -> int): (r: seq<T>)
    ensures |r| == |t| + 1
    ensures multiset(r) == multiset(t) + multiset{x}
    ensures r[|r| - 1] == if t != [] && key(x) < key(t[|t| - 1]) then t[|t| - 1] else x
  {
    if t == [] || key(t[|t| - 1]) <= key(x) then t + [x]
    else
      var init, last := t[..|t| - 1], t[|t| - 1];
      assert t == init + [last];
      InsertBy(init, x, key) + [last]
  }

  lemma {:induction false} InsertBySorted<T>(t: seq<T>, x: T, key: T -> int)
    requires SortedBy(t, key)
    ensures SortedBy(InsertBy(t, x, key), key)
  {
    var r := InsertBy(t, x, key);
    if t == [] || key(t[|t| - 1]) <= key(x) {
      assert r == t + [x];
      forall i, j | 0 <= i < j < |r| ensures key(r[i]) <= key(r[j]) {
        if j < |t| {
          assert r[i] == t[i] && r[j] == t[j];
        } else {
          assert r[i] == t[i] && key(t[i]) <= key(t[|t| - 1]);
        }
      }
    } else {
      var init, last := t[..|t| - 1], t[|t| - 1];
      assert forall i, j :: 0 <= i < j < |init| ==> init[i] == t[i] && init[j] == t[j];
      InsertBySorted(init, x, key);
      assert forall i :: 0 <= i < |init| ==> key(init[i]) <= key(last) by {
        forall i | 0 <= i < |init| ensures key(init[i]) <= key(last) {
          assert init[i] == t[i];
        }
      }
      InsertByBounded(init, x, key, key(last));
      var r' := InsertBy(init, x, key);
      assert r == r' + [last];
      forall i, j | 0 <= i < j < |r| ensures key(r[i]) <= key(r[j]) {
        if j < |r'| {
          assert r[i] == r'[i] && r[j] == r'[j];
        } else {
          assert r[i] == r'[i] && r[j] == last;
        }
      }
    }
  }

  /** Inserting keeps every key at most `b` when all keys were. */
  lemma {:induction false} InsertByBounded<T>(t: seq<T>, x: T, key: T -> int, b: int)
    requires forall i :: 0 <= i < |t| ==> key(t[i]) <= b
    requires key(x) <= b
    ensures forall i :: 0 <= i < |InsertBy(t, x, key)| ==> key(InsertBy(t, x, key)[i]) <= b
  {
    var r := InsertBy(t, x, key);
    if t == [] || key(t[|t| - 1]) <= key(x) {
      assert r == t + [x];
      forall i | 0 <= i < |r| ensures key(r[i]) <= b {
        if i < |t| {
          assert r[i] == t[i];
        }
      }
    } else {
      var init := t[..|t| - 1];
      assert forall i :: 0 <= i < |init| ==> init[i] == t[i];
      InsertByBounded(init, x, key, b);
      var r' := InsertBy(init, x, key);
      assert r == r' + [t[|t| - 1]];
      forall i | 0 <= i < |r| ensures key(r[i]) <= b {
        if i < |r'| {
          assert r[i] == r'[i];
        }
      }
    }
  }

  /**
   * Enumerable.OrderBy on an integer key: a stable sort, written as an insertion sort
   * that adds the input's elements one at a time from the front.
   */
  function OrderBy<T>(xs: seq<T>, key: T -> int): (r: seq<T>)
    ensures |r| == |xs|
    ensures multiset(r) == multiset(xs)
    ensures SortedBy(r, key)
  {
    if xs == [] then []
    else
      var init, last := xs[..|xs| - 1], xs[|xs| - 1];
      assert xs == init + [last];
      var sorted := OrderBy(init, key);
      InsertBySorted(sorted, last, key);
      InsertBy(sorted, last, key)
  }

  /** Index `w` holds a maximal key and every later element has a strictly smaller key. */
  ghost predicate IsLastMaxIndex<T>(xs: seq<T>, key: T -> int, w: int)
  {
    && 0 <= w < |xs|
    && (forall j :: 0 <= j < |xs| ==> key(xs[j]) <= key(xs[w]))
    && (forall j :: w < j < |xs| ==> key(xs[j]) < key(xs[w]))
  }

  /** The last position holding a maximal key, found by a scan from the front. */
  function LastMaxIndex<T>(xs: seq<T>, key: T -> int): (w: nat)
    requires |xs| > 0
    ensures IsLastMaxIndex(xs, key, w)
  {
    if |xs| == 1 then 0
    else
      var init := xs[..|xs| - 1];
      var v := LastMaxIndex(init, key);
      assert forall j :: 0 <= j < |init| ==> xs[j] == init[j];
      if key(xs[|xs| - 1]) < key(init[v]) then v else |xs| - 1
  }

  /**
   * The last element of a stable sort is the input's last element of maximal key:
   * among equal maximal keys the one latest in the input wins.
   */
  lemma {:induction false} LastOfOrderBy<T>(xs: seq<T>, key: T -> int)
    requires |xs| > 0
    ensures OrderBy(xs, key)[|xs| - 1] == xs[LastMaxIndex(xs, key)]
  {
    var init, last := xs[..|xs| - 1], xs[|xs| - 1];
    assert xs == init + [last];
    var sorted := OrderBy(init, key);
    assert OrderBy(xs, key) == InsertBy(sorted, last, key);
    if init != [] {
      LastOfOrderBy(init, key);
    }
  }

  /**
   * Position `k` holds an element satisfying `p` with maximal key among those that
   * satisfy `p`, and every later one that satisfies `p` has a strictly smaller key.
   */
  ghost predicate IsLastMaxWhere<T>(xs: seq<T>, p: T -> bool, key: T -> int, k: int)
  {
    && 0 <= k < |xs|
    && p(xs[k])
    && (forall j :: 0 <= j < |xs| && p(xs[j]) ==> key(xs[j]) <= key(xs[k]))
    && (forall j :: k < j < |xs| && p(xs[j]) ==> key(xs[j]) < key(xs[k]))
  }

  /** `Where` keeps nothing exactly when no element satisfies `p`. */
  lemma WhereEmpty<T>(xs: seq<T>, p: T -> bool)
    ensures Where(xs, p) == [] <==> forall j :: 0 <= j < |xs| ==> !p(xs[j])
  {
    KeptIndicesComplete(xs, p);
    if Where(xs, p) != [] {
      assert p(xs[KeptIndices(xs, p)[0]]);
    }
  }

  /**
   * Ordering the kept elements stably by `key` and taking the last one picks, in the
   * original sequence, the last element of maximal key among those satisfying `p`.
   */
  lemma LastOfOrderByWhere<T>(xs: seq<T>, p: T -> bool, key: T -> int)
    requires Where(xs, p) != []
    ensures var m := Where(xs, p);
      var k := KeptIndices(xs, p)[LastMaxIndex(m, key)];
      |KeptIndices(xs, p)| == |m| && IsLastMaxWhere(xs, p, key, k) && OrderBy(m, key)[|m| - 1] == xs[k]
  {
    var m, idx := Where(xs, p), KeptIndices(xs, p);
    WhereAtKeptIndices(xs, p);
    LastOfOrderBy(m, key);
    var w := LastMaxIndex(m, key);
    forall j | 0 <= j < |xs| && p(xs[j])
      ensures key(xs[j]) <= key(xs[idx[w]])
      ensures idx[w] < j ==> key(xs[j]) < key(xs[idx[w]])
    {
      KeptPositionBound(xs, p, key, w, j);
    }
    assert m[w] == xs[idx[w]] && p(xs[idx[w]]);
    assert IsLastMaxWhere(xs, p, key, idx[w]);
  }

  /** One kept position `j` compared with the kept position of the last maximum. */
  lemma KeptPositionBound<T>(xs: seq<T>, p: T -> bool, key: T -> int, w: int, j: int)
    requires IsLastMaxIndex(Where(xs, p), key, w)
    requires 0 <= j < |xs| && p(xs[j])
    requires forall k :: 0 <= k < |Where(xs, p)| ==> Where(xs, p)[k] == xs[KeptIndices(xs, p)[k]]
    ensures key(xs[j]) <= key(xs[KeptIndices(xs, p)[w]])
    ensures KeptIndices(xs, p)[w] < j ==> key(xs[j]) < key(xs[KeptIndices(xs, p)[w]])
  {
    var m, idx := Where(xs, p), KeptIndices(xs, p);
    KeptIndicesComplete(xs, p);
    assert j in idx;
    var n :| 0 <= n < |idx| && idx[n] == j;
    assert m[n] == xs[j];
    assert m[w] == xs[idx[w]];
    if idx[w] < j {
      IncreasingOrder(idx, w, n);
    }
  }

  /** In a strictly increasing sequence, the smaller element comes first. */
  lemma IncreasingOrder(idx: seq<nat>, a: int, b: int)
    requires forall k, l :: 0 <= k < l < |idx| ==> idx[k] < idx[l]
    requires 0 <= a < |idx| && 0 <= b < |idx| && idx[a] < idx[b]
    ensures a < b
  {
  }

  /** Enumerable.FirstOrDefault with a predicate, on reference elements: null becomes None. */
  function FirstOrDefault<T>(xs: seq<T>, p: T -> bool): (r: Option<T>)
    ensures r.None? <==> forall i :: 0 <= i < |xs| ==> !p(xs[i])
    ensures r.Some? ==> exists i :: 0 <= i < |xs| && xs[i] == r.value && p(xs[i]) &&
                                    forall j :: 0 <= j < i ==> !p(xs[j])
  {
    if xs == [] then None
    else if p(xs[0]) then Some(xs[0])
    else
      var r := FirstOrDefault(xs[1..], p);
      assert forall i :: 1 <= i < |xs| ==> xs[i] == xs[1..][i - 1];
      r
  }

  /** Enumerable.Any with a predicate. */
  function Any<T>(xs: seq<T>, p: T -> bool): (r: bool)
    ensures r <==> exists i :: 0 <= i < |xs| && p(xs[i])
  {
    if xs == [] then false
    else
      assert forall i :: 1 <= i < |xs| ==> xs[i] == xs[1..][i - 1];
      p(xs[0]) || Any(xs[1..], p)
  }

  /** The two ways Enumerable.Single with a predicate throws. */
  datatype SingleError = NoMatch | MoreThanOneMatch

  /** Position `i` holds the only element of `xs` that satisfies `p`. */
  ghost predicate IsOnlyMatch<T>(xs: seq<T>, p: T -> bool, i: int)
  {
    0 <= i < |xs| && p(xs[i]) && forall j :: 0 <= j < |xs| && j != i ==> !p(xs[j])
  }

  /**
   * Enumerable.Single with a predicate: scans to the first match, then fails if any
   * later element matches as well.
   */
  function Single<T>(xs: seq<T>, p: T -> bool): (r: Result<T, SingleError>)
    ensures r.Success? <==> exists i :: IsOnlyMatch(xs, p, i)
    ensures r.Success? ==> exists i :: IsOnlyMatch(xs, p, i) && r.value == xs[i]
    ensures r == Failure(NoMatch) <==> forall i :: 0 <= i < |xs| ==> !p(xs[i])
    ensures r == Failure(MoreThanOneMatch) <==>
              exists i, j :: 0 <= i < j < |xs| && p(xs[i]) && p(xs[j])
  {
    if xs == [] then Failure(NoMatch)
    else
      assert forall i :: 1 <= i < |xs| ==> xs[i] == xs[1..][i - 1];
      if p(xs[0]) then
        if Any(xs[1..], p) then Failure(MoreThanOneMatch)
        else
          assert IsOnlyMatch(xs, p, 0);
          Success(xs[0])
      else
        var r := Single(xs[1..], p);
        assert forall i :: 1 <= i < |xs| ==> (IsOnlyMatch(xs, p, i) <==> IsOnlyMatch(xs[1..], p, i - 1));
        assert !IsOnlyMatch(xs, p, 0);
        assert (exists i :: IsOnlyMatch(xs[1..], p, i)) ==> exists i :: IsOnlyMatch(xs, p, i) by {
          if i :| IsOnlyMatch(xs[1..], p, i) {
            assert IsOnlyMatch(xs, p, i + 1);
          }
        }
        r
  }

  /** Appending the pages of a paged listing one after another (List.AddRange per page). */
  function Flatten<T>(pages: seq<seq<T>>): (r: seq<T>)
  {
    if pages == [] then [] else pages[0] + Flatten(pages[1..])
  }

  /** Fetching one more page appends its elements behind all earlier ones. */
  lemma {:induction false} FlattenAppend<T>(pages: seq<seq<T>>, page: seq<T>)
    ensures Flatten(pages + [page]) == Flatten(pages) + page
  {
    if pages == [] {
      assert [page][1..] == [];
      assert page + [] == page;
    } else {
      assert (pages + [page])[1..] == pages[1..] + [page];
      FlattenAppend(pages[1..], page);
    }
  }
}
