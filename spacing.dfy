/**
 * How evenly Bjorklund's algorithm spreads the onsets of a Euclidean
 * rhythm. The positions of the onsets are listed by `Onsets`; the block
 * recursion keeps every block "spread" (first onset at step `c`, every gap
 * between consecutive onsets `c + 1` or `c + 2`, at most one rest after the
 * last onset), and concatenating spread blocks gives a spread block. For
 * `k` pulses in `n` steps, `c + 1` is `n / k`, so every gap, the one that
 * wraps around the end of the bar included, is `n / k` or `n / k + 1`.
 */
module Spacing {
  import opened Euclid

  /** The positions of the onsets (1s) of `s`, in increasing order. */
  function Onsets(s: seq<int>): seq<int>
  {
    if s == [] then []
    else Onsets(s[..|s| - 1]) + (if s[|s| - 1] == 1 then [|s| - 1] else [])
  }

  /** Every position of `o` moved `d` steps later. */
  function Shift(o: seq<int>, d: int): (t: seq<int>)
    ensures |t| == |o|
    ensures forall j :: 0 <= j < |o| ==> t[j] == o[j] + d
  {
    seq(|o|, j requires 0 <= j < |o| => o[j] + d)
  }

  /** The onsets of `s` are spread with spacing `c`. */
  predicate Spread(s: seq<int>, c: int)
  {
    SpreadPositions(Onsets(s), |s|, c)
  }

  /** Onset positions `o` in a block of length `len` are spread with
      spacing `c`: there is at least one, the first is at step `c`,
      consecutive onsets are `c + 1` or `c + 2` steps apart, and the last is
      followed by at most one rest. */
  predicate SpreadPositions(o: seq<int>, len: int, c: int)
  {
    |o| >= 1 && o[0] == c && len - 2 <= o[|o| - 1] <= len - 1
    && forall j :: 0 < j < |o| ==> o[j - 1] + c + 1 <= o[j] <= o[j - 1] + c + 2
  }

  predicate EndsWithOnset(s: seq<int>)
  {
    |s| >= 1 && s[|s| - 1] == 1
  }

  // ---------------------------------------------------------------------
  // Onsets of concatenations and repetitions
  // ---------------------------------------------------------------------

  /** The onsets of `a + b` are those of `a` followed by those of `b`,
      moved past `a`. */
  lemma {:induction false} OnsetsConcat(a: seq<int>, b: seq<int>)
    ensures Onsets(a + b) == Onsets(a) + Shift(Onsets(b), |a|)
    decreases |b|
  {
    if b == [] {
      assert a + b == a;
    } else {
      var b' := b[..|b| - 1];
      var x := b[|b| - 1];
      var tail := if x == 1 then [|a| + |b| - 1] else [];
      assert (a + b)[..|a + b| - 1] == a + b';
      OnsetsConcat(a, b');
      assert Onsets(a + b) == Onsets(a) + Shift(Onsets(b'), |a|) + tail;
      assert Shift(Onsets(b), |a|) == Shift(Onsets(b'), |a|) + tail;
    }
  }

  /** `Onsets` lists exactly the positions that hold a 1. */
  lemma {:induction false} OnsetsExact(s: seq<int>)
    ensures forall j :: 0 <= j < |Onsets(s)| ==> 0 <= Onsets(s)[j] < |s| && s[Onsets(s)[j]] == 1
    ensures forall i :: 0 <= i < |s| ==> (s[i] == 1 <==> i in Onsets(s))
  {
    if s != [] {
      var init := s[..|s| - 1];
      OnsetsExact(init);
      assert forall i :: 0 <= i < |init| ==> init[i] == s[i];
    }
  }

  /** `s` has one onset per 1 it holds. */
  lemma {:induction false} OnsetsCount(s: seq<int>)
    ensures |Onsets(s)| == multiset(s)[1]
  {
    if s != [] {
      var init := s[..|s| - 1];
      OnsetsCount(init);
      assert s == init + [s[|s| - 1]];
    }
  }

  /** A run of rests has no onsets. */
  lemma {:induction false} RestsHaveNoOnsets(c: nat)
    ensures Onsets(Repeat([0], c)) == []
  {
    if c > 0 {
      RestsHaveNoOnsets(c - 1);
      var s := Repeat([0], c);
      assert s[..|s| - 1] == Repeat([0], c - 1);
    }
  }

  /** Appending a rest does not change the onsets. */
  lemma OnsetsRest(s: seq<int>)
    ensures Onsets(s + [0]) == Onsets(s)
  {
    assert (s + [0])[..|s|] == s;
  }

  // ---------------------------------------------------------------------
  // Spread blocks stay spread under the block recursion
  // ---------------------------------------------------------------------

  /** One block of `c` rests and an onset is spread with spacing `c`. */
  lemma UnitSpread(c: nat)
    ensures Spread(Repeat([0], c) + [1], c)
    ensures EndsWithOnset(Repeat([0], c) + [1])
  {
    var rests := Repeat([0], c);
    var s := rests + [1];
    RepeatSingletonLength(0, c);
    RestsHaveNoOnsets(c);
    assert s[..|s| - 1] == rests;
    assert Onsets(s) == [c];
  }

  /** Two spread blocks in a row make a spread block: the gap across the
      join is the rest after the first block's last onset plus the `c`
      rests before the second block's first onset. */
  lemma SpreadConcat(a: seq<int>, b: seq<int>, c: int)
    requires Spread(a, c) && Spread(b, c)
    ensures Spread(a + b, c)
    ensures EndsWithOnset(b) ==> EndsWithOnset(a + b)
  {
    OnsetsConcat(a, b);
    PositionsConcat(Onsets(a), Onsets(b), |a|, |b|, c);
  }

  /** The position-level argument of `SpreadConcat`: the second block's
      positions, moved past the first block, continue the first block's. */
  lemma PositionsConcat(oa: seq<int>, ob: seq<int>, la: int, lb: int, c: int)
    requires SpreadPositions(oa, la, c) && SpreadPositions(ob, lb, c)
    ensures SpreadPositions(oa + Shift(ob, la), la + lb, c)
  {
    var o := oa + Shift(ob, la);
    forall j | 0 < j < |o|
      ensures o[j - 1] + c + 1 <= o[j] <= o[j - 1] + c + 2
    {
      if j > |oa| {
        assert o[j - 1] == ob[j - 1 - |oa|] + la && o[j] == ob[j - |oa|] + la;
      } else if j == |oa| {
        assert o[j - 1] == oa[|oa| - 1] && o[j] == ob[0] + la;
      } else {
        assert o[j - 1] == oa[j - 1] && o[j] == oa[j];
      }
    }
    assert o[|o| - 1] == ob[|ob| - 1] + la;
  }

  /** A spread block that ends with its onset stays spread when one rest
      follows it. */
  lemma SpreadRest(s: seq<int>, c: int)
    requires Spread(s, c) && EndsWithOnset(s)
    ensures Spread(s + [0], c)
  {
    OnsetsRest(s);
    assert s[..|s| - 1] + [1] == s;
    assert Onsets(s)[|Onsets(s)| - 1] == |s| - 1;
  }

  /** `m >= 1` copies of a spread block are spread, and end with an onset
      when the block does. */
  lemma {:induction false} SpreadRepeat(p: seq<int>, m: nat, c: int)
    requires Spread(p, c) && m >= 1
    ensures Spread(Repeat(p, m), c)
    ensures EndsWithOnset(p) ==> EndsWithOnset(Repeat(p, m))
  {
    if m == 1 {
      assert Repeat(p, 1) == [] + p == p;
    } else {
      SpreadRepeat(p, m - 1, c);
      SpreadConcat(Repeat(p, m - 1), p, c);
    }
  }

  /** A spread block followed by either another spread block, or by a
      single rest when it ends with an onset, is spread. */
  lemma SpreadAppend(x: seq<int>, q: seq<int>, c: int)
    requires Spread(x, c)
    requires (q == [0] && EndsWithOnset(x)) || Spread(q, c)
    ensures Spread(x + q, c)
  {
    if Spread(q, c) {
      SpreadConcat(x, q, c);
    } else {
      SpreadRest(x, c);
    }
  }

  /** The block recursion keeps its blocks spread. `p` is spread; `q` is
      either spread or, while `p` still ends with its onset, a single rest.
      Each level builds `p' = p^(d/r) + q`, spread because `d >= r`, and
      hands `p` down as the new minority block. */
  lemma {:induction false} BjorklundSpread(p: seq<int>, q: seq<int>, d: nat, r: nat, c: int)
    requires Spread(p, c) && 1 <= d && r <= d
    requires (q == [0] && EndsWithOnset(p)) || Spread(q, c)
    ensures Spread(Bjorklund(p, q, d, r), c)
    decreases r
  {
    if r <= 1 {
      SpreadRepeat(p, d, c);
      if r == 0 {
        assert Bjorklund(p, q, d, r) == Repeat(p, d) + [] == Repeat(p, d);
      } else {
        SpreadAppend(Repeat(p, d), q, c);
      }
    } else {
      MulAtLeast(1, r);
      DivModParts(d, r);
      assert d / r >= 1;
      SpreadRepeat(p, d / r, c);
      var p' := Repeat(p, d / r) + q;
      SpreadAppend(Repeat(p, d / r), q, c);
      BjorklundSpread(p', p, r, d % r, c);
    }
  }

  // ---------------------------------------------------------------------
  // The unrotated Euclidean rhythm
  // ---------------------------------------------------------------------

  /** `k` whole groups of `(n - k) / k` rests and an onset fit into `n`. */
  lemma GroupWidth(k: nat, n: nat)
    requires 1 <= k <= n
    ensures (n - k) / k + 1 == n / k
    ensures n == ((n - k) / k + 1) * k + (n - k) % k
  {
    var c, m := (n - k) / k, (n - k) % k;
    DivModParts(n - k, k);
    assert n == (c + 1) * k + m;
    DivModUnique(n, k, c + 1, m);
  }

  /** The first level of the block recursion: each of the `k` onsets
      absorbs `(n - k) / k` rests in front of it, and `(n - k) % k` single
      rests remain to be distributed. */
  lemma RhythmFirstLevel(k: nat, n: nat)
    requires 1 <= k <= n
    ensures k == 1 ==> Rhythm(k, n) == Repeat([0], (n - k) / k) + [1]
    ensures k >= 2 ==> Rhythm(k, n) == Bjorklund(Repeat([0], (n - k) / k) + [1], [0], k, (n - k) % k)
  {
    if k == 1 {
      assert (n - k) / k == n - 1;
    }
  }

  /** For `1 <= k <= n` the unrotated pattern is spread with spacing
      `(n - k) / k`. */
  lemma RhythmSpread(k: nat, n: nat)
    requires 1 <= k <= n
    ensures Spread(Rhythm(k, n), (n - k) / k)
  {
    var c := (n - k) / k;
    var unit := Repeat([0], c) + [1];
    UnitSpread(c);
    RhythmFirstLevel(k, n);
    if k >= 2 {
      BjorklundSpread(unit, [0], k, (n - k) % k, c);
    }
  }

  /** Bjorklund's promise for `1 <= k <= n`: the `k` onsets are distributed
      as evenly as possible. Listing their positions `o` in order, the
      first is at step `n / k - 1`, the pattern ends with its last onset or
      with a single rest after it, and every gap between consecutive onsets,
      including the one that wraps from the last onset round to the first,
      is `n / k` or `n / k + 1` steps. */
  lemma RhythmEvenlySpread(k: nat, n: nat)
    requires 1 <= k <= n
    ensures |Rhythm(k, n)| == n && |Onsets(Rhythm(k, n))| == k
    ensures forall i :: 0 <= i < n ==> (Rhythm(k, n)[i] == 1 <==> i in Onsets(Rhythm(k, n)))
    ensures Onsets(Rhythm(k, n))[0] == n / k - 1
    ensures n - 2 <= Onsets(Rhythm(k, n))[k - 1] <= n - 1
    ensures forall j :: 0 < j < k ==>
              n / k <= Onsets(Rhythm(k, n))[j] - Onsets(Rhythm(k, n))[j - 1] <= n / k + 1
    ensures n / k <= n - Onsets(Rhythm(k, n))[k - 1] + Onsets(Rhythm(k, n))[0] <= n / k + 1
  {
    var s := Rhythm(k, n);
    RhythmCounts(k, n);
    OnsetsCount(s);
    OnsetsExact(s);
    RhythmSpread(k, n);
    GroupWidth(k, n);
  }

  // ---------------------------------------------------------------------
  // Where the pattern ends
  // ---------------------------------------------------------------------

  /** When `k` divides `n - k` the pattern is `k` identical groups of
      `(n - k) / k` rests (that is, `n / k - 1`) and an onset. */
  lemma RhythmDivisible(k: nat, n: nat)
    requires 1 <= k <= n && (n - k) % k == 0
    ensures Rhythm(k, n) == Repeat(Repeat([0], (n - k) / k) + [1], k)
  {
    var unit := Repeat([0], (n - k) / k) + [1];
    RhythmFirstLevel(k, n);
    if k == 1 {
      assert Repeat(unit, 1) == [] + unit;
    } else {
      assert Bjorklund(unit, [0], k, 0) == Repeat(unit, k) + [];
    }
  }

  /** ... so when `k` divides `n - k` the pattern ends with an onset. */
  lemma RhythmDivisibleEndsWithOnset(k: nat, n: nat)
    requires 1 <= k <= n && (n - k) % k == 0
    ensures |Rhythm(k, n)| == n && Rhythm(k, n)[n - 1] == 1
  {
    var unit := Repeat([0], (n - k) / k) + [1];
    RhythmDivisible(k, n);
    RhythmCounts(k, n);
    RepeatEndsWithOnset(unit, k);
  }

  /** Copies of a block that ends with an onset end with an onset. */
  lemma RepeatEndsWithOnset(p: seq<int>, m: nat)
    requires EndsWithOnset(p) && m >= 1
    ensures EndsWithOnset(Repeat(p, m))
  {
    assert Repeat(p, m) == Repeat(p, m - 1) + p;
  }

  /** When `k` does not divide `n - k` the pattern may end with a rest.
      Two pulses in five steps: */
  lemma TwoOfFiveEndsWithRest()
    ensures EuclideanRhythm(2, 5, 0) == [0, 1, 0, 1, 0]
  {
    EuclideanRhythmRotationZero(2, 5);
    assert Repeat([0], 1) + [1] == [0, 1];
    assert Rhythm(2, 5) == Bjorklund([0, 1], [0], 2, 1);
    assert Repeat([0, 1], 2) == [0, 1, 0, 1];
  }

  /** Five pulses in eight steps start with an onset and end with a rest. */
  lemma FiveOfEightEndsWithRest()
    ensures EuclideanRhythm(5, 8, 0) == [1, 0, 1, 1, 0, 1, 1, 0]
  {
    EuclideanRhythmRotationZero(5, 8);
    assert Repeat([0], 0) + [1] == [1];
    assert Rhythm(5, 8) == Bjorklund([1], [0], 5, 3);
    assert Repeat([1], 1) + [0] == [1, 0];
    assert Bjorklund([1], [0], 5, 3) == Bjorklund([1, 0], [1], 3, 2);
    assert Repeat([1, 0], 1) + [1] == [1, 0, 1];
    assert Bjorklund([1, 0], [1], 3, 2) == Bjorklund([1, 0, 1], [1, 0], 2, 1);
    assert Repeat([1, 0, 1], 2) == [1, 0, 1, 1, 0, 1];
  }

  /** Three pulses in sixteen steps: three groups of four rests and an
      onset, then one rest. */
  lemma ThreeOfSixteenEndsWithRest()
    ensures EuclideanRhythm(3, 16, 0) == Repeat([0, 0, 0, 0, 1], 3) + [0]
  {
    EuclideanRhythmRotationZero(3, 16);
    assert Repeat([0], 4) + [1] == [0, 0, 0, 0, 1];
    assert Rhythm(3, 16) == Bjorklund([0, 0, 0, 0, 1], [0], 3, 1);
  }
}
