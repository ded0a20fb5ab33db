/** The feedback judge of the Mastermind game (`Judge.check` in judge.py).

    Given a colour bound `k`, a hidden sequence and a query sequence, the judge
    rejects sequences of different lengths and colours outside `[1, k]`, and
    otherwise answers with the number of exact matches and the number of
    partial matches. A partial match is counted once per DISTINCT colour that
    occurs both among the hidden colours and among the query colours at the
    mismatched positions: the remainders are turned into sets before they are
    compared, so a repeated colour contributes at most 1. */
module Judge {

  import opened Wrappers

  /** The two `ValueError`s that `check` raises. */
  datatype CheckError = LengthMismatch | ColorOutOfRange

  /** The pair `(correct_position_and_color, correct_color)`. */
  datatype Feedback = Feedback(exact: nat, partial: nat)

  predicate InRange(k: int, x: int) {
    1 <= x <= k
  }

  /** Every colour of `s` lies in `[1, k]`. */
  predicate AllInRange(k: int, s: seq<int>) {
    forall i :: 0 <= i < |s| ==> InRange(k, s[i])
  }

  /** The positions where the two sequences agree. */
  ghost function MatchPositions(a: seq<int>, b: seq<int>): set<nat>
    requires |a| == |b|
  {
    set i: nat | i < |a| && a[i] == b[i]
  }

  /** `sum(h == q for h, q in zip(hidden, query))`. */
  function ExactCount(a: seq<int>, b: seq<int>): (r: nat)
    requires |a| == |b|
    ensures r <= |a|
  {
    if |a| == 0 then 0
    else
      var n := |a| - 1;
      ExactCount(a[..n], b[..n]) + (if a[n] == b[n] then 1 else 0)
  }

  /** The colours of `a` at the positions where `a` and `b` differ, in order:
      `[h for h, q in zip(hidden, query) if h != q]` for `a, b := hidden, query`
      and `[q for h, q in zip(hidden, query) if h != q]` for `a, b := query, hidden`. */
  function Unmatched(a: seq<int>, b: seq<int>): (r: seq<int>)
    requires |a| == |b|
    ensures |r| <= |a|
  {
    if |a| == 0 then []
    else
      var n := |a| - 1;
      var rest := Unmatched(a[..n], b[..n]);
      if a[n] != b[n] then rest + [a[n]] else rest
  }

  /** A colour occurs in the remainder exactly when it sits at a position where the sequences differ. */
  lemma {:induction false} UnmatchedColors(a: seq<int>, b: seq<int>)
    requires |a| == |b|
    ensures forall x :: x in Unmatched(a, b) <==> exists i :: 0 <= i < |a| && a[i] != b[i] && a[i] == x
  {
    if |a| > 0 {
      var n := |a| - 1;
      UnmatchedColors(a[..n], b[..n]);
      assert forall i :: 0 <= i < n ==> a[..n][i] == a[i] && b[..n][i] == b[i];
    }
  }

  /** Python's `set(list)`: exactly the elements of the list, never more of them than the list is long. */
  function Values(s: seq<int>): (r: set<int>)
    ensures forall x :: x in r <==> x in s
    ensures |r| <= |s|
  {
    ElementsBound(s);
    set x | x in s
  }

  lemma {:induction false} ElementsBound(s: seq<int>)
    ensures |set x | x in s| <= |s|
  {
    if |s| > 0 {
      var n := |s| - 1;
      ElementsBound(s[..n]);
      assert (set x | x in s) == (set x | x in s[..n]) + {s[n]} by {
        assert s == s[..n] + [s[n]];
      }
    }
  }

  /** The specification of `Judge.check`: the validation in the order the source
      performs it, then the exact count and the set-intersection partial count. */
  function Score(k: int, hidden: seq<int>, query: seq<int>): (r: Result<Feedback, CheckError>)
    ensures r == Err(LengthMismatch) <==> |hidden| != |query|
    ensures r == Err(ColorOutOfRange) <==>
      |hidden| == |query| && exists i :: 0 <= i < |hidden| && !(InRange(k, hidden[i]) && InRange(k, query[i]))
    ensures r.Ok? <==> |hidden| == |query| && AllInRange(k, hidden) && AllInRange(k, query)
  {
    if |hidden| != |query| then Err(LengthMismatch)
    else if !AllInRange(k, hidden + query) then
      assert exists i :: 0 <= i < |hidden + query| && !InRange(k, (hidden + query)[i]);
      Err(ColorOutOfRange)
    else
      assert AllInRange(k, hidden) && AllInRange(k, query) by {
        forall i | 0 <= i < |hidden| ensures InRange(k, hidden[i]) && InRange(k, query[i]) {
          assert (hidden + query)[i] == hidden[i];
          assert (hidden + query)[|hidden| + i] == query[i];
        }
      }
      var hiddenRemaining := Values(Unmatched(hidden, query));
      var queryRemaining := Values(Unmatched(query, hidden));
      Ok(Feedback(ExactCount(hidden, query), |queryRemaining * hiddenRemaining|))
  }

  /** The `for color in query_remaining` loop: counts the query colours that
      also occur among the hidden ones. */
  method CountColorMatches(hiddenRemaining: set<int>, queryRemaining: set<int>) returns (count: nat)
    ensures count == |queryRemaining * hiddenRemaining|
  {
    count := 0;
    var rest := queryRemaining;
    while rest != {}
      invariant rest <= queryRemaining
      invariant count == |(queryRemaining - rest) * hiddenRemaining|
      decreases |rest|
    {
      SomeColor(rest);
      var color :| color in rest;
      CountStep(hiddenRemaining, queryRemaining, rest, color);
      if color in hiddenRemaining {
        count := count + 1;
      }
      rest := rest - {color};
    }
    assert queryRemaining - rest == queryRemaining;
  }

  /** A non-empty set of colours has a member to visit next. */
  lemma SomeColor(colors: set<int>)
    requires colors != {}
    ensures exists c :: c in colors
  {
    if forall c :: c !in colors {
      assert false;
    }
  }

  /** Moving one colour from the unvisited part of the query colours to the
      visited part adds one to the count exactly when the colour is hidden. */
  lemma CountStep(hiddenRemaining: set<int>, queryRemaining: set<int>, rest: set<int>, color: int)
    requires rest <= queryRemaining && color in rest
    ensures |(queryRemaining - (rest - {color})) * hiddenRemaining|
         == |(queryRemaining - rest) * hiddenRemaining| + (if color in hiddenRemaining then 1 else 0)
  {
    var done := (queryRemaining - rest) * hiddenRemaining;
    if color in hiddenRemaining {
      assert (queryRemaining - (rest - {color})) * hiddenRemaining == done + {color};
    } else {
      assert (queryRemaining - (rest - {color})) * hiddenRemaining == done;
    }
  }

  /** `Judge.check`: raises (returns an error) on invalid input, otherwise
      returns the exact and partial counts. */
  method Check(k: int, hidden: seq<int>, query: seq<int>) returns (r: Result<Feedback, CheckError>)
    ensures r == Score(k, hidden, query)
  {
    if |hidden| != |query| {
      return Err(LengthMismatch);
    }
    if !AllInRange(k, hidden + query) {
      return Err(ColorOutOfRange);
    }
    var correctPositionAndColor := ExactCount(hidden, query);
    var hiddenRemaining := Values(Unmatched(hidden, query));
    var queryRemaining := Values(Unmatched(query, hidden));
    var correctColor := CountColorMatches(hiddenRemaining, queryRemaining);
    return Ok(Feedback(correctPositionAndColor, correctColor));
  }

  // ---------------------------------------------------------------------
  // Properties of the judge

  /** The exact count is the number of positions where the sequences agree. */
  lemma {:induction false} ExactCountIsMatchPositions(a: seq<int>, b: seq<int>)
    requires |a| == |b|
    ensures ExactCount(a, b) == |MatchPositions(a, b)|
  {
    if |a| > 0 {
      var n := |a| - 1;
      ExactCountIsMatchPositions(a[..n], b[..n]);
      assert MatchPositions(a, b)
          == MatchPositions(a[..n], b[..n]) + (if a[n] == b[n] then {n} else {});
    }
  }

  /** Every position is either an exact match or leaves its colour in the remainder. */
  lemma {:induction false} ExactPlusUnmatched(a: seq<int>, b: seq<int>)
    requires |a| == |b|
    ensures ExactCount(a, b) + |Unmatched(a, b)| == |a|
  {
    if |a| > 0 {
      var n := |a| - 1;
      ExactPlusUnmatched(a[..n], b[..n]);
    }
  }

  /** Positions are judged independently: the exact count of a concatenation
      is the sum of the exact counts of its parts ... */
  lemma {:induction false} ExactPositionwise(a1: seq<int>, a2: seq<int>, b1: seq<int>, b2: seq<int>)
    requires |a1| == |b1| && |a2| == |b2|
    ensures ExactCount(a1 + a2, b1 + b2) == ExactCount(a1, b1) + ExactCount(a2, b2)
  {
    if |a2| == 0 {
      assert a1 + a2 == a1 && b1 + b2 == b1;
    } else {
      var m := |a2| - 1;
      var a, b := a1 + a2, b1 + b2;
      var n := |a| - 1;
      ExactPositionwise(a1, a2[..m], b1, b2[..m]);
      assert a[..n] == a1 + a2[..m] && a[n] == a2[m];
      assert b[..n] == b1 + b2[..m] && b[n] == b2[m];
    }
  }

  /** ... and its remainder is the remainders of its parts, in order. */
  lemma {:induction false} UnmatchedPositionwise(a1: seq<int>, a2: seq<int>, b1: seq<int>, b2: seq<int>)
    requires |a1| == |b1| && |a2| == |b2|
    ensures Unmatched(a1 + a2, b1 + b2) == Unmatched(a1, b1) + Unmatched(a2, b2)
  {
    if |a2| == 0 {
      assert a1 + a2 == a1 && b1 + b2 == b1;
    } else {
      var m := |a2| - 1;
      var x, y := a2[m], b2[m];
      UnmatchedPositionwise(a1, a2[..m], b1, b2[..m]);
      assert a2 == a2[..m] + [x] && b2 == b2[..m] + [y];
      assert a1 + a2 == (a1 + a2[..m]) + [x] && b1 + b2 == (b1 + b2[..m]) + [y];
      UnmatchedSnoc(a1 + a2[..m], b1 + b2[..m], x, y);
      UnmatchedSnoc(a2[..m], b2[..m], x, y);
      var front, back := Unmatched(a1, b1), Unmatched(a2[..m], b2[..m]);
      var last := if x != y then [x] else [];
      assert (front + back) + last == front + (back + last);
    }
  }

  lemma UnmatchedSnoc(a: seq<int>, b: seq<int>, x: int, y: int)
    requires |a| == |b|
    ensures Unmatched(a + [x], b + [y]) == Unmatched(a, b) + (if x != y then [x] else [])
  {
    assert (a + [x])[..|a|] == a && (b + [y])[..|b|] == b;
  }

  /** A list without repetitions loses nothing when turned into a set. */
  lemma {:induction false} DistinctValues(s: seq<int>)
    requires forall i, j :: 0 <= i < j < |s| ==> s[i] != s[j]
    ensures |Values(s)| == |s|
  {
    if |s| > 0 {
      var n := |s| - 1;
      DistinctValues(s[..n]);
      assert s[n] !in Values(s[..n]);
      assert Values(s) == Values(s[..n]) + {s[n]};
    }
  }

  /** Exact count is symmetric: pointwise equality does not care which side is hidden. */
  lemma {:induction false} ExactCountSymmetric(a: seq<int>, b: seq<int>)
    requires |a| == |b|
    ensures ExactCount(a, b) == ExactCount(b, a)
  {
    if |a| > 0 {
      var n := |a| - 1;
      ExactCountSymmetric(a[..n], b[..n]);
    }
  }

  /** The feedback never exceeds the length: `0 <= exact`, `exact + partial <= |hidden|`,
      and the partial count is at most the number of distinct mismatched query colours. */
  lemma ScoreBounds(k: int, hidden: seq<int>, query: seq<int>)
    requires Score(k, hidden, query).Ok?
    ensures Score(k, hidden, query).value.exact <= |hidden|
    ensures Score(k, hidden, query).value.partial <= |Values(Unmatched(query, hidden))|
    ensures Score(k, hidden, query).value.exact + Score(k, hidden, query).value.partial <= |hidden|
  {
    var hiddenRemaining := Values(Unmatched(hidden, query));
    var queryRemaining := Values(Unmatched(query, hidden));
    assert queryRemaining * hiddenRemaining <= queryRemaining;
    SubsetCardinality(queryRemaining * hiddenRemaining, queryRemaining);
    ExactPlusUnmatched(query, hidden);
    ExactCountSymmetric(hidden, query);
  }

  /** The partial count is the number of distinct colours that occur both among the
      query colours and among the hidden colours at positions where the two differ. */
  lemma ScorePartialColors(k: int, hidden: seq<int>, query: seq<int>)
    requires Score(k, hidden, query).Ok?
    ensures Score(k, hidden, query).value.partial ==
      |(set i | 0 <= i < |query| && query[i] != hidden[i] :: query[i]) *
       (set i | 0 <= i < |hidden| && hidden[i] != query[i] :: hidden[i])|
  {
    RemainderSet(hidden, query);
    RemainderSet(query, hidden);
  }

  /** The set of a remainder is the set of colours at the mismatched positions. */
  lemma RemainderSet(a: seq<int>, b: seq<int>)
    requires |a| == |b|
    ensures Values(Unmatched(a, b)) == set i | 0 <= i < |a| && a[i] != b[i] :: a[i]
  {
    UnmatchedColors(a, b);
    var mismatched := set i | 0 <= i < |a| && a[i] != b[i] :: a[i];
    forall x ensures x in Values(Unmatched(a, b)) <==> x in mismatched {
      if x in mismatched {
        var i :| 0 <= i < |a| && a[i] != b[i] && a[i] == x;
      }
    }
  }

  lemma SubsetCardinality(small: set<int>, large: set<int>)
    requires small <= large
    ensures |small| <= |large|
  {
    assert large == small + (large - small);
  }

  /** Judging a sequence against itself finds every position exact and nothing partial. */
  lemma {:induction false} SameSequenceExact(s: seq<int>)
    ensures ExactCount(s, s) == |s| && Unmatched(s, s) == []
  {
    if |s| > 0 {
      SameSequenceExact(s[..|s| - 1]);
    }
  }

  lemma ScoreSameSequence(k: int, s: seq<int>)
    requires AllInRange(k, s)
    ensures Score(k, s, s) == Ok(Feedback(|s|, 0))
  {
    SameSequenceExact(s);
  }

  /** Swapping the hidden and the query sequence gives the same answer, errors included. */
  lemma ScoreSymmetric(k: int, hidden: seq<int>, query: seq<int>)
    ensures Score(k, hidden, query) == Score(k, query, hidden)
  {
    if Score(k, hidden, query).Ok? {
      ExactCountSymmetric(hidden, query);
      var hiddenRemaining := Values(Unmatched(hidden, query));
      var queryRemaining := Values(Unmatched(query, hidden));
      assert queryRemaining * hiddenRemaining == hiddenRemaining * queryRemaining;
    }
  }

  /** A query sharing no colour with the hidden sequence scores `(0, 0)`. */
  lemma ScoreDisjoint(k: int, hidden: seq<int>, query: seq<int>)
    requires |hidden| == |query| && AllInRange(k, hidden) && AllInRange(k, query)
    requires forall i, j :: 0 <= i < |query| && 0 <= j < |hidden| ==> query[i] != hidden[j]
    ensures Score(k, hidden, query) == Ok(Feedback(0, 0))
  {
    ExactCountIsMatchPositions(hidden, query);
    assert MatchPositions(hidden, query) == {};
    UnmatchedColors(hidden, query);
    UnmatchedColors(query, hidden);
    var hiddenRemaining := Values(Unmatched(hidden, query));
    var queryRemaining := Values(Unmatched(query, hidden));
    assert queryRemaining * hiddenRemaining == {};
  }

  /** The caller's win condition: every position exact exactly when the query is the hidden sequence. */
  lemma {:induction false} AllExactIffEqual(a: seq<int>, b: seq<int>)
    requires |a| == |b|
    ensures ExactCount(a, b) == |a| <==> a == b
  {
    if |a| > 0 {
      var n := |a| - 1;
      AllExactIffEqual(a[..n], b[..n]);
      if a == b {
        assert a[..n] == b[..n];
      } else if a[..n] == b[..n] {
        assert a[n] != b[n] by {
          assert a == a[..n] + [a[n]] && b == b[..n] + [b[n]];
        }
      }
    }
  }

  lemma ScoreWin(k: int, hidden: seq<int>, query: seq<int>)
    requires Score(k, hidden, query).Ok?
    ensures Score(k, hidden, query).value.exact == |hidden| <==> hidden == query
  {
    AllExactIffEqual(hidden, query);
  }

  /** On valid input the answer is the exact count and the size of the
      intersection of the two remainder sets. */
  lemma ScoreOfValid(k: int, hidden: seq<int>, query: seq<int>)
    requires |hidden| == |query| && AllInRange(k, hidden) && AllInRange(k, query)
    ensures Score(k, hidden, query)
         == Ok(Feedback(ExactCount(hidden, query), |Values(Unmatched(query, hidden)) * Values(Unmatched(hidden, query))|))
  {
  }

  /** Agreeing positions followed by positions whose colours the other side never
      shows: only the agreeing prefix scores, and nothing is partial. */
  lemma AgreedThenDisjoint(k: int, s: seq<int>, t: seq<int>, u: seq<int>)
    requires |t| == |u| && AllInRange(k, s + t) && AllInRange(k, s + u)
    requires forall i, j :: 0 <= i < |t| && 0 <= j < |u| ==> t[i] != u[j]
    ensures Score(k, s + t, s + u) == Ok(Feedback(|s|, 0))
  {
    ScoreOfValid(k, s + t, s + u);
    SameSequenceExact(s);
    NoMatchLeavesAll(t, u);
    NoMatchLeavesAll(u, t);
    ExactPositionwise(s, t, s, u);
    assert ExactCount(s + t, s + u) == |s|;
    UnmatchedPositionwise(s, t, s, u);
    UnmatchedPositionwise(s, u, s, t);
    assert Unmatched(s + t, s + u) == t by { assert [] + t == t; }
    assert Unmatched(s + u, s + t) == u by { assert [] + u == u; }
    DisjointValues(t, u);
  }

  lemma DisjointValues(t: seq<int>, u: seq<int>)
    requires forall i, j :: 0 <= i < |t| && 0 <= j < |u| ==> t[i] != u[j]
    ensures |Values(u) * Values(t)| == 0
  {
    assert forall x :: x in u ==> x !in t;
    assert Values(u) * Values(t) == {};
  }

  /** The worked example under the class: `check(4, [2,3,1,2], [2,3,1,1]) == (3, 0)`. */
  lemma ScoreDocExample(h: seq<int>, q: seq<int>)
    requires h == [2, 3, 1, 2] && q == [2, 3, 1, 1]
    ensures Score(4, h, q) == Ok(Feedback(3, 0))
  {
    var agreed := [2, 3, 1];
    assert h == agreed + [2] && q == agreed + [1];
    AgreedThenDisjoint(4, agreed, [2], [1]);
  }

  /** A repeated colour is counted once: with every colour displaced the classical
      per-occurrence rule would answer `(0, 4)`, the judge answers `(0, 2)`. */
  lemma ScoreRepeatedColor(h: seq<int>, q: seq<int>)
    requires h == [1, 1, 2, 2] && q == [2, 2, 1, 1]
    ensures Score(2, h, q) == Ok(Feedback(0, 2))
  {
    ScoreOfValid(2, h, q);
    NoMatchLeavesAll(h, q);
    NoMatchLeavesAll(q, h);
    RepeatedColours();
  }

  lemma RepeatedColours()
    ensures |Values([2, 2, 1, 1]) * Values([1, 1, 2, 2])| == 2
  {
    SameValues([2, 2, 1, 1], [1, 2]);
    SameValues([1, 1, 2, 2], [1, 2]);
    DistinctValues([1, 2]);
    assert Values([1, 2]) * Values([1, 2]) == Values([1, 2]);
  }

  /** Lists with the same elements give the same set, whatever the order and repetitions. */
  lemma SameValues(a: seq<int>, b: seq<int>)
    requires forall x :: x in a <==> x in b
    ensures Values(a) == Values(b)
  {
    assert forall x :: x in Values(a) <==> x in Values(b);
  }

  /** When no position agrees, nothing is exact and the whole sequence is left over. */
  lemma {:induction false} NoMatchLeavesAll(a: seq<int>, b: seq<int>)
    requires |a| == |b| && forall i :: 0 <= i < |a| ==> a[i] != b[i]
    ensures ExactCount(a, b) == 0 && Unmatched(a, b) == a
  {
    if |a| > 0 {
      var n := |a| - 1;
      NoMatchLeavesAll(a[..n], b[..n]);
      assert a == a[..n] + [a[n]];
    }
  }

  lemma ReversedColours()
    ensures Values([4, 3, 2, 1]) * Values([1, 2, 3, 4]) == Values([1, 2, 3, 4])
    ensures |Values([1, 2, 3, 4])| == 4
  {
    SameValues([4, 3, 2, 1], [1, 2, 3, 4]);
    DistinctValues([1, 2, 3, 4]);
    assert Values([1, 2, 3, 4]) * Values([1, 2, 3, 4]) == Values([1, 2, 3, 4]);
  }

  /** A reversed query with four distinct colours: no exact match, every colour partial. */
  lemma ScoreReversed(h: seq<int>, q: seq<int>)
    requires h == [1, 2, 3, 4] && q == [4, 3, 2, 1]
    ensures Score(4, h, q) == Ok(Feedback(0, 4))
  {
    ScoreOfValid(4, h, q);
    NoMatchLeavesAll(h, q);
    NoMatchLeavesAll(q, h);
    ReversedColours();
  }

  /** Exact matches consume their positions: the leftover hidden 2s find no 2 in the query. */
  lemma ScoreConsumedPositions(h: seq<int>, q: seq<int>)
    requires h == [1, 1, 2, 2] && q == [1, 1, 1, 1]
    ensures Score(2, h, q) == Ok(Feedback(2, 0))
  {
    var ones, twos := [1, 1], [2, 2];
    assert h == ones + twos && q == ones + ones;
    AgreedThenDisjoint(2, ones, twos, ones);
  }

  /** The two rejections. */
  lemma ScoreErrorExamples()
    ensures Score(4, [1, 2, 3, 4], [1, 2, 3]) == Err(LengthMismatch)
    ensures Score(4, [1, 2, 3, 5], [1, 2, 3, 4]) == Err(ColorOutOfRange)
  {
    assert !InRange(4, [1, 2, 3, 5][3]);
  }
}
