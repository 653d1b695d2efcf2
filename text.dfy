/** The System.String operations the program applies to the Link header, with ordinal comparison. */
module Text {

  /**
   * String.Split(char): the pieces between occurrences of `sep`. Every occurrence
   * separates two pieces, so empty pieces are kept and there is always at least one.
   */
  function Split(s: string, sep: char): (parts: seq<string>)
    ensures |parts| >= 1
    ensures forall k :: 0 <= k < |parts| ==> sep !in parts[k]
  {
    if s == [] then [""]
    else
      var rest := Split(s[1..], sep);
      if s[0] == sep then [""] + rest
      else [[s[0]] + rest[0]] + rest[1..]
  }

  /** String.Join(char, pieces): the pieces with `sep` between neighbours. */
  function Join(parts: seq<string>, sep: char): string
    requires |parts| >= 1
  {
    if |parts| == 1 then parts[0] else parts[0] + [sep] + Join(parts[1..], sep)
  }

  /** Joining the pieces of a split gives back the original string. */
  lemma {:induction false} JoinSplit(s: string, sep: char)
    ensures Join(Split(s, sep), sep) == s
  {
    if s != [] {
      JoinSplit(s[1..], sep);
      var rest := Split(s[1..], sep);
      if s[0] != sep && |rest| > 1 {
        assert ([[s[0]] + rest[0]] + rest[1..])[1..] == rest[1..];
      }
    }
  }

  /** Splitting a string that starts with a piece free of `sep` yields that piece first. */
  lemma {:induction false} SplitFreePrefix(a: string, b: string, sep: char)
    requires sep !in a
    ensures Split(a + b, sep) == [a + Split(b, sep)[0]] + Split(b, sep)[1..]
  {
    if a != [] {
      assert (a + b)[1..] == a[1..] + b;
      SplitFreePrefix(a[1..], b, sep);
      assert [a[0]] + (a[1..] + Split(b, sep)[0]) == a + Split(b, sep)[0];
    } else {
      assert a + b == b;
      assert a + Split(b, sep)[0] == Split(b, sep)[0];
      assert Split(b, sep) == [Split(b, sep)[0]] + Split(b, sep)[1..];
    }
  }

  /** Splitting a join of pieces free of `sep` gives back the pieces: Split is a bijection. */
  lemma {:induction false} SplitJoin(parts: seq<string>, sep: char)
    requires |parts| >= 1
    requires forall k :: 0 <= k < |parts| ==> sep !in parts[k]
    ensures Split(Join(parts, sep), sep) == parts
  {
    if |parts| == 1 {
      SplitFreePrefix(parts[0], [], sep);
      assert parts[0] + [] == parts[0];
    } else {
      var tail := Join(parts[1..], sep);
      SplitJoin(parts[1..], sep);
      assert parts[0] + [sep] + tail == parts[0] + ([sep] + tail);
      SplitFreePrefix(parts[0], [sep] + tail, sep);
      assert ([sep] + tail)[1..] == tail;
      assert parts[0] + "" == parts[0];
    }
  }

  /** The first piece of a split is the text before the first `sep`, or all of it. */
  lemma {:induction false} SplitFirst(s: string, sep: char)
    ensures var first := Split(s, sep)[0];
      && |first| <= |s|
      && first == s[..|first|]
      && sep !in first
      && (|first| < |s| ==> s[|first|] == sep)
  {
    if s != [] {
      SplitFirst(s[1..], sep);
    }
  }

  /** `sub` occurs in `s` starting at position `i`. */
  ghost predicate OccursAt(s: string, sub: string, i: int)
  {
    0 <= i <= |s| - |sub| && s[i..i + |sub|] == sub
  }

  /** String.Contains(string), ordinal: `sub` occurs somewhere in `s`. */
  function Contains(s: string, sub: string): (r: bool)
    ensures r <==> exists i :: OccursAt(s, sub, i)
  {
    if |s| < |sub| then false
    else if s[..|sub|] == sub then
      assert OccursAt(s, sub, 0);
      true
    else
      var r := Contains(s[1..], sub);
      assert !OccursAt(s, sub, 0);
      forall i | 1 <= i ensures OccursAt(s, sub, i) <==> OccursAt(s[1..], sub, i - 1) {
        OccursShift(s, sub, i);
      }
      assert (exists i :: OccursAt(s[1..], sub, i)) ==> exists i :: OccursAt(s, sub, i) by {
        if j :| OccursAt(s[1..], sub, j) {
          assert OccursAt(s, sub, j + 1);
        }
      }
      r
  }

  /** An occurrence past the first character is an occurrence in the rest. */
  lemma OccursShift(s: string, sub: string, i: int)
    requires 1 <= i && s != []
    ensures OccursAt(s, sub, i) <==> OccursAt(s[1..], sub, i - 1)
  {
    if 0 <= i - 1 <= |s[1..]| - |sub| {
      var here, there := s[i..i + |sub|], s[1..][i - 1..i - 1 + |sub|];
      forall m | 0 <= m < |sub|
        ensures here[m] == there[m]
      {
        assert s[i + m] == s[1..][i - 1 + m];
      }
      assert here == there;
    }
  }

  /** An occurrence inside an occurrence is an occurrence. */
  lemma OccursWithin(s: string, part: string, sub: string, i: int, j: int)
    requires OccursAt(s, part, i) && OccursAt(part, sub, j)
    ensures OccursAt(s, sub, i + j)
  {
    forall m | 0 <= m < |sub|
      ensures s[i + j..i + j + |sub|][m] == sub[m]
    {
      assert sub[m] == part[j + m] == s[i + j + m];
    }
  }

  /** Each piece of a join occurs in the joined string. */
  lemma {:induction false} PieceOccursInJoin(parts: seq<string>, sep: char, k: int)
    requires |parts| >= 1 && 0 <= k < |parts|
    ensures exists i :: OccursAt(Join(parts, sep), parts[k], i)
  {
    var joined := Join(parts, sep);
    if |parts| == 1 {
      assert OccursAt(joined, parts[k], 0);
    } else if k == 0 {
      assert joined[..|parts[0]|] == parts[0];
      assert OccursAt(joined, parts[k], 0);
    } else {
      PieceOccursInJoin(parts[1..], sep, k - 1);
      var i :| OccursAt(Join(parts[1..], sep), parts[1..][k - 1], i);
      var offset := |parts[0]| + 1;
      assert joined[offset..] == Join(parts[1..], sep);
      assert joined[offset + i..offset + i + |parts[k]|] == Join(parts[1..], sep)[i..i + |parts[k]|];
      assert OccursAt(joined, parts[k], offset + i);
    }
  }

  /** Whatever a piece of a split contains, the whole string contains. */
  lemma SplitPieceContained(s: string, sep: char, k: int, sub: string)
    requires 0 <= k < |Split(s, sep)| && Contains(Split(s, sep)[k], sub)
    ensures Contains(s, sub)
  {
    JoinSplit(s, sep);
    PieceOccursInJoin(Split(s, sep), sep, k);
    var i :| OccursAt(s, Split(s, sep)[k], i);
    var j :| OccursAt(Split(s, sep)[k], sub, j);
    OccursWithin(s, Split(s, sep)[k], sub, i, j);
  }

  /** How many characters at the front of `s` are in `chars`. */
  function LeadingCount(s: string, chars: set<char>): (n: nat)
    ensures n <= |s|
    ensures forall k :: 0 <= k < n ==> s[k] in chars
    ensures n < |s| ==> s[n] !in chars
  {
    if s != [] && s[0] in chars then
      var n := LeadingCount(s[1..], chars);
      assert forall k :: 1 <= k < n + 1 ==> s[k] == s[1..][k - 1];
      n + 1
    else 0
  }

  /** How many characters at the back of `s` are in `chars`. */
  function TrailingCount(s: string, chars: set<char>): (n: nat)
    ensures n <= |s|
    ensures forall k :: |s| - n <= k < |s| ==> s[k] in chars
    ensures n < |s| ==> s[|s| - n - 1] !in chars
  {
    if s != [] && s[|s| - 1] in chars then
      var init := s[..|s| - 1];
      var n := TrailingCount(init, chars);
      assert forall k :: 0 <= k < |init| ==> s[k] == init[k];
      n + 1
    else 0
  }

  /** String.TrimStart(chars): drops the leading characters that are in `chars`. */
  function TrimStart(s: string, chars: set<char>): (r: string)
    ensures |r| <= |s| && r == s[|s| - |r|..]
    ensures forall k :: 0 <= k < |s| - |r| ==> s[k] in chars
    ensures |r| > 0 ==> r[0] !in chars
  {
    s[LeadingCount(s, chars)..]
  }

  /** String.TrimEnd(chars): drops the trailing characters that are in `chars`. */
  function TrimEnd(s: string, chars: set<char>): (r: string)
    ensures |r| <= |s| && r == s[..|r|]
    ensures forall k :: |r| <= k < |s| ==> s[k] in chars
    ensures |r| > 0 ==> r[|r| - 1] !in chars
  {
    s[..|s| - TrailingCount(s, chars)]
  }

  /**
   * `r` is the part of `s` from position `i` on that is left once characters of
   * `chars` are cut off both ends.
   */
  ghost predicate TrimmedAt(s: string, chars: set<char>, r: string, i: int)
  {
    && 0 <= i <= |s| - |r|
    && r == s[i..i + |r|]
    && (forall k :: 0 <= k < i ==> s[k] in chars)
    && (forall k :: i + |r| <= k < |s| ==> s[k] in chars)
  }

  /**
   * String.Trim(chars): the maximal middle part of `s` that neither starts nor ends with
   * a character of `chars`; nothing inside it is touched.
   */
  function Trim(s: string, chars: set<char>): (r: string)
    ensures exists i :: TrimmedAt(s, chars, r, i)
    ensures |r| > 0 ==> r[0] !in chars && r[|r| - 1] !in chars
  {
    var front := TrimStart(s, chars);
    var r := TrimEnd(front, chars);
    TrimmedMiddle(s, chars, front, r);
    TrimmedEnds(front, r, chars);
    r
  }

  /** A front part of `front`, which does not start with `chars`, does not start with them either. */
  lemma TrimmedEnds(front: string, r: string, chars: set<char>)
    requires |r| <= |front| && r == front[..|r|]
    requires |front| > 0 ==> front[0] !in chars
    requires |r| > 0 ==> r[|r| - 1] !in chars
    ensures |r| > 0 ==> r[0] !in chars && r[|r| - 1] !in chars
  {
    if |r| > 0 {
      assert r[0] == front[0];
    }
  }

  /** A suffix of `s` cut at the back, both cuts dropping only `chars`, is a trimmed middle. */
  lemma TrimmedMiddle(s: string, chars: set<char>, front: string, r: string)
    requires |front| <= |s| && front == s[|s| - |front|..]
    requires forall k :: 0 <= k < |s| - |front| ==> s[k] in chars
    requires |r| <= |front| && r == front[..|r|]
    requires forall k :: |r| <= k < |front| ==> front[k] in chars
    ensures TrimmedAt(s, chars, r, |s| - |front|)
  {
    var i := |s| - |front|;
    assert r == s[i..i + |r|];
    forall k | i + |r| <= k < |s| ensures s[k] in chars {
      assert s[k] == front[k - i];
    }
  }
}
