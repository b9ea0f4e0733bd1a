/**
 * The Euclidean rhythm generator of fm-synth.js: Bjorklund's algorithm
 * followed by a cyclic rotation.
 *
 * The JavaScript function works in three stages, each modelled here in the
 * same shape: a `while` loop that fills the `counts` and `remainders` tables
 * by repeated Euclidean division, a recursive `build(level)` that pushes 0s
 * and 1s onto a shared pattern, and a slice/concat that rotates the result.
 * Its meaning is given by the pure function `EuclideanRhythm`, built on the
 * block recursion `Bjorklund`.
 */
module Euclid {

  /** `s` concatenated with itself `c` times. */
  function Repeat<T>(s: seq<T>, c: nat): (t: seq<T>)
  {
    if c == 0 then [] else Repeat(s, c - 1) + s
  }

  /** The pulse count after the two guards at the top of the generator:
      first capped at `n`, then raised to 0. For `n >= 0` this is `k`
      clamped to `[0, n]`. */
  function ClampPulses(k: int, n: int): (p: int)
    ensures p >= 0
    ensures n >= 0 ==> p == (if k < 0 then 0 else if k > n then n else k)
  {
    var capped := if k > n then n else k;
    if capped < 0 then 0 else capped
  }

  // ---------------------------------------------------------------------
  // Specification: Bjorklund's algorithm as a recursion on blocks
  // ---------------------------------------------------------------------

  /** `d` copies of block `p` and `r` copies of block `q` remain to be
      distributed. While more than one `q` block is left, each `q` absorbs
      `d / r` copies of `p` in front of it, and the `d % r` leftover `p`
      blocks become the new minority. */
  function Bjorklund(p: seq<int>, q: seq<int>, d: nat, r: nat): (s: seq<int>)
    decreases r
  {
    if r <= 1 then Repeat(p, d) + (if r != 0 then q else [])
    else Bjorklund(Repeat(p, d / r) + q, p, r, d % r)
  }

  /** The unrotated pattern: `n - k` rests (0) and `k` onsets (1). */
  function Rhythm(k: nat, n: nat): (s: seq<int>)
    requires k <= n
  {
    Bjorklund([0], [1], n - k, k)
  }

  // ---------------------------------------------------------------------
  // Rotation, with JavaScript's `%` and `Array.prototype.slice`
  // ---------------------------------------------------------------------

  /** JavaScript's `%` on integers: the remainder takes the dividend's sign
      and differs from `a` by a multiple of `b`. */
  function JsRemainder(a: int, b: int): (r: int)
    requires b > 0
    ensures a >= 0 ==> 0 <= r < b
    ensures a < 0 ==> -b < r <= 0
    ensures (a - r) % b == 0
  {
    if a >= 0 then
      DivModUnique(a - a % b, b, a / b, 0);
      a % b
    else
      DivModUnique(a + (-a) % b, b, -((-a) / b), 0);
      -((-a) % b)
  }

  /** `rotation % n`, plus `n` when that is negative: an index in `[0, n)`. */
  function NormalizeRotation(rotation: int, n: int): (r: int)
    requires n > 0
    ensures 0 <= r < n
  {
    var t := JsRemainder(rotation, n);
    if t < 0 then t + n else t
  }

  /** How `slice` turns an index argument into a position: negative indices
      count from the end; the result is clipped to `[0, len]`. */
  function SliceIndex(x: int, len: nat): (i: nat)
    ensures i <= len
    ensures 0 <= x <= len ==> i == x
    ensures -(len as int) <= x < 0 ==> i == len + x
  {
    if x < 0 then (if len + x < 0 then 0 else len + x)
    else if x > len then len else x
  }

  /** `s.slice(start, end)` for integer arguments: in-range indices select
      `s[start..end]`, and a negative index counts back from the end. */
  function JsSlice<T>(s: seq<T>, start: int, end: int): (t: seq<T>)
    ensures |t| <= |s|
    ensures 0 <= start <= end <= |s| ==> t == s[start..end]
    ensures -|s| <= start < 0 && end == |s| ==> t == s[|s| + start..]
    ensures start == 0 && -|s| <= end < 0 ==> t == s[..|s| + end]
  {
    var from := SliceIndex(start, |s|);
    var to := SliceIndex(end, |s|);
    if from < to then s[from..to] else []
  }

  /** Cyclic right shift by `r` positions, taken modulo the length: the
      last `r % |s|` elements move to the front. */
  function RotateRight<T>(s: seq<T>, r: int): (t: seq<T>)
  {
    if |s| == 0 then s
    else
      var m := r % |s|;
      s[|s| - m..] + s[..|s| - m]
  }

  /** What `generateEuclideanRhythm(k, n, rotation)` returns: Bjorklund's
      pattern for the clamped pulse count, rotated right by `rotation`. */
  function EuclideanRhythm(k: int, n: int, rotation: int): (pattern: seq<int>)
    requires n >= 0
  {
    RotateRight(Rhythm(ClampPulses(k, n), n), rotation)
  }

  // ---------------------------------------------------------------------
  // The tables of the division loop, and the level-indexed build
  // ---------------------------------------------------------------------

  /** The divisor in force at `level`: `n - k` at level 0, afterwards the
      previous level's remainder. */
  function Divisor(remainders: seq<nat>, d0: nat, level: nat): nat
    requires level < |remainders|
  {
    if level == 0 then d0 else remainders[level - 1]
  }

  /** Row `level` is what one iteration of the division loop writes. */
  predicate DivisionRow(counts: seq<nat>, remainders: seq<nat>, d0: nat, level: nat)
    requires level < |counts| && level + 1 < |remainders|
  {
    var div := Divisor(remainders, d0, level);
    && remainders[level] > 1
    && counts[level] == div / remainders[level]
    && remainders[level + 1] == div % remainders[level]
  }

  /** The rows written by the first `|counts|` iterations of the loop
      started with divisor `d0` and first remainder `r0`. */
  predicate LoopPrefix(counts: seq<nat>, remainders: seq<nat>, d0: nat, r0: nat)
  {
    && |remainders| == |counts| + 1
    && remainders[0] == r0
    && forall level :: 0 <= level < |counts| ==> DivisionRow(counts, remainders, d0, level)
  }

  /** Complete tables: the loop stopped at the last level, whose remainder
      is at most 1, and the final divisor was stored as its count. */
  predicate Tables(counts: seq<nat>, remainders: seq<nat>, d0: nat, r0: nat)
  {
    && |counts| == |remainders| >= 1
    && LoopPrefix(counts[..|counts| - 1], remainders, d0, r0)
    && remainders[|remainders| - 1] <= 1
    && counts[|counts| - 1] == Divisor(remainders, d0, |remainders| - 1)
  }

  /** What `build(level)` pushes: level -1 is a single 0, level -2 a single
      1, any other level `counts[level]` copies of level `level - 1`
      followed, when `remainders[level]` is not 0, by level `level - 2`. */
  function Expand(counts: seq<nat>, remainders: seq<nat>, level: int): (s: seq<int>)
    requires -2 <= level < |counts| && |counts| == |remainders|
    decreases level + 2
  {
    if level == -1 then [0]
    else if level == -2 then [1]
    else
      Repeat(Expand(counts, remainders, level - 1), counts[level])
      + (if remainders[level] != 0 then Expand(counts, remainders, level - 2) else [])
  }

  // ---------------------------------------------------------------------
  // The generator itself
  // ---------------------------------------------------------------------

  /** `build(level)`: appends the level's sub-pattern to `pattern`. */
  method Build(counts: seq<nat>, remainders: seq<nat>, level: int, pattern: seq<int>)
    returns (out: seq<int>)
    requires -2 <= level < |counts| && |counts| == |remainders|
    ensures out == pattern + Expand(counts, remainders, level)
    decreases level + 2
  {
    if level == -1 {
      out := pattern + [0];
    } else if level == -2 {
      out := pattern + [1];
    } else {
      ghost var previous := Expand(counts, remainders, level - 1);
      out := pattern;
      var i := 0;
      while i < counts[level]
        invariant 0 <= i <= counts[level]
        invariant out == pattern + Repeat(previous, i)
      {
        ConcatAssoc(pattern, Repeat(previous, i), previous);
        out := Build(counts, remainders, level - 1, out);
        i := i + 1;
      }
      ghost var tail := if remainders[level] != 0 then Expand(counts, remainders, level - 2) else [];
      assert Expand(counts, remainders, level) == Repeat(previous, counts[level]) + tail;
      ConcatAssoc(pattern, Repeat(previous, counts[level]), tail);
      if remainders[level] != 0 {
        out := Build(counts, remainders, level - 2, out);
      } else {
        assert out + tail == out;
      }
    }
  }

  /** `generateEuclideanRhythm(k, n, rotation)`. A negative `n` makes
      `new Array(n)` throw, so callers pass `n >= 0`. */
  method GenerateEuclideanRhythm(k: int, n: int, rotation: int) returns (pattern: seq<int>)
    requires n >= 0
    ensures pattern == EuclideanRhythm(k, n, rotation)
    ensures |pattern| == n
  {
    var pulses := k;
    if pulses > n { pulses := n; }
    if pulses < 0 { pulses := 0; }
    assert pulses == ClampPulses(k, n);

    var counts: seq<nat> := [];
    var remainders: seq<nat> := [pulses];
    var level := 0;
    var divisor: nat := n - pulses;
    while remainders[level] > 1
      invariant level == |counts|
      invariant LoopPrefix(counts, remainders, n - pulses, pulses)
      invariant divisor == Divisor(remainders, n - pulses, level)
      decreases remainders[level]
    {
      LoopPrefixExtends(counts, remainders, n - pulses, pulses, divisor);
      counts := counts + [divisor / remainders[level]];
      remainders := remainders + [divisor % remainders[level]];
      divisor := remainders[level];
      level := level + 1;
    }
    counts := counts + [divisor];
    LoopExitTables(counts[..level], remainders, n - pulses, pulses);
    assert counts == counts[..level] + [divisor];

    var base := Build(counts, remainders, level, []);
    assert base == Rhythm(pulses, n);

    // For n = 0, `rotation % n` is NaN in JavaScript and both slices read it as 0.
    var r := if n == 0 then 0 else NormalizeRotation(rotation, n);
    pattern := JsSlice(base, -r, |base|) + JsSlice(base, 0, -r);
    SlicesRotate(k, n, rotation, base, r);
  }

  /** One iteration of the division loop keeps the tables a loop prefix. */
  lemma LoopPrefixExtends(counts: seq<nat>, remainders: seq<nat>, d0: nat, r0: nat, divisor: nat)
    requires LoopPrefix(counts, remainders, d0, r0)
    requires divisor == Divisor(remainders, d0, |counts|) && remainders[|counts|] > 1
    ensures LoopPrefix(counts + [divisor / remainders[|counts|]],
                       remainders + [divisor % remainders[|counts|]], d0, r0)
  {
    var level := |counts|;
    var counts', remainders' := counts + [divisor / remainders[level]], remainders + [divisor % remainders[level]];
    forall l | 0 <= l <= level
      ensures DivisionRow(counts', remainders', d0, l)
    {
      if l < level {
        assert DivisionRow(counts, remainders, d0, l);
      }
    }
  }

  /** When the loop stops, storing the final divisor completes the tables,
      and `build` of the last level is Bjorklund's algorithm on `d0` rests
      and `r0` onsets. */
  lemma LoopExitTables(counts: seq<nat>, remainders: seq<nat>, d0: nat, r0: nat)
    requires LoopPrefix(counts, remainders, d0, r0) && remainders[|counts|] <= 1
    ensures var tables := counts + [Divisor(remainders, d0, |counts|)];
            && Tables(tables, remainders, d0, r0)
            && Expand(tables, remainders, |counts|) == Bjorklund([0], [1], d0, r0)
  {
    var tables := counts + [Divisor(remainders, d0, |counts|)];
    assert tables[..|counts|] == counts;
    ExpandIsBjorklund(tables, remainders, d0, r0, 0);
  }

  /** The closing slice/concat turns Bjorklund's pattern into `EuclideanRhythm`. */
  lemma SlicesRotate(k: int, n: int, rotation: int, base: seq<int>, r: int)
    requires n >= 0 && base == Rhythm(ClampPulses(k, n), n)
    requires r == if n == 0 then 0 else NormalizeRotation(rotation, n)
    ensures JsSlice(base, -r, |base|) + JsSlice(base, 0, -r) == EuclideanRhythm(k, n, rotation)
    ensures |EuclideanRhythm(k, n, rotation)| == n
  {
    RhythmCounts(ClampPulses(k, n), n);
    if n > 0 {
      NormalizeIsEuclideanMod(rotation, n);
      SlicesRotateRight(base, r);
      DivModUnique(r, n, 0, r);
    }
  }

  // ---------------------------------------------------------------------
  // Lemmas about Repeat
  // ---------------------------------------------------------------------

  lemma {:induction false} RepeatAdd<T>(s: seq<T>, a: nat, b: nat)
    ensures Repeat(s, a + b) == Repeat(s, a) + Repeat(s, b)
    decreases b
  {
    if b > 0 {
      RepeatAdd(s, a, b - 1);
    }
  }

  lemma {:induction false} RepeatMul<T>(s: seq<T>, a: nat, b: nat)
    ensures Repeat(Repeat(s, a), b) == Repeat(s, a * b)
    decreases b
  {
    if b > 0 {
      RepeatMul(s, a, b - 1);
      assert a * (b - 1) + a == a * b;
      RepeatAdd(s, a * (b - 1), a);
    }
  }

  lemma {:induction false} RepeatConcatMultiset<T>(p: seq<T>, q: seq<T>, c: nat)
    ensures multiset(Repeat(p + q, c)) == multiset(Repeat(p, c)) + multiset(Repeat(q, c))
  {
    if c > 0 {
      RepeatConcatMultiset(p, q, c - 1);
    }
  }

  lemma {:induction false} RepeatSingletonMultiset<T>(x: T, c: nat, y: T)
    ensures multiset(Repeat([x], c))[y] == if y == x then c else 0
  {
    if c > 0 {
      RepeatSingletonMultiset(x, c - 1, y);
    }
  }

  lemma {:induction false} RepeatSingletonLength<T>(x: T, c: nat)
    ensures |Repeat([x], c)| == c
  {
    if c > 0 {
      RepeatSingletonLength(x, c - 1);
    }
  }

  lemma {:induction false} RepeatSingletonAt<T>(x: T, c: nat, i: nat)
    requires i < c
    ensures |Repeat([x], c)| == c && Repeat([x], c)[i] == x
  {
    RepeatSingletonLength(x, c);
    if i < c - 1 {
      RepeatSingletonAt(x, c - 1, i);
    }
  }

  // ---------------------------------------------------------------------
  // Bjorklund's algorithm distributes exactly the rests and onsets it is given
  // ---------------------------------------------------------------------

  /** The block recursion neither loses nor invents material: its result is
      a rearrangement of `d` copies of `p` and `r` copies of `q`. */
  lemma {:induction false} BjorklundMultiset(p: seq<int>, q: seq<int>, d: nat, r: nat)
    ensures multiset(Bjorklund(p, q, d, r)) == multiset(Repeat(p, d) + Repeat(q, r))
    decreases r
  {
    if r <= 1 {
      assert Repeat(q, r) == (if r != 0 then q else []);
    } else {
      var c, m := d / r, d % r;
      DivModParts(d, r);
      var p' := Repeat(p, c) + q;
      assert Bjorklund(p, q, d, r) == Bjorklund(p', p, r, m);
      BjorklundMultiset(p', p, r, m);
      DivisionRegroups(p, q, c, r, m, d);
    }
  }

  lemma DivModParts(d: nat, r: nat)
    requires r > 0
    ensures (d / r) * r + d % r == d
  {
  }

  /** One division step regroups the blocks without changing the material:
      `r` blocks of `c` copies of `p` followed by `q`, plus `m` more `p`s,
      hold the same elements as `c * r + m` copies of `p` and `r` of `q`. */
  lemma DivisionRegroups(p: seq<int>, q: seq<int>, c: nat, r: nat, m: nat, d: nat)
    requires c * r + m == d
    ensures multiset(Repeat(Repeat(p, c) + q, r) + Repeat(p, m)) == multiset(Repeat(p, d) + Repeat(q, r))
  {
    var cr := c * r;
    var ps, qs, rest := multiset(Repeat(p, cr)), multiset(Repeat(q, r)), multiset(Repeat(p, m));
    calc {
      multiset(Repeat(Repeat(p, c) + q, r) + Repeat(p, m));
      multiset(Repeat(Repeat(p, c) + q, r)) + rest;
      { RepeatConcatMultiset(Repeat(p, c), q, r); RepeatMul(p, c, r); }
      ps + qs + rest;
      { MultisetSwap(ps, qs, rest); }
      ps + rest + qs;
      multiset(Repeat(p, cr) + Repeat(p, m)) + qs;
      { RepeatAdd(p, cr, m); }
      multiset(Repeat(p, d)) + qs;
      multiset(Repeat(p, d) + Repeat(q, r));
    }
  }

  lemma ConcatAssoc<T>(a: seq<T>, b: seq<T>, c: seq<T>)
    ensures a + b + c == a + (b + c)
  {
  }

  lemma MultisetSwap(a: multiset<int>, b: multiset<int>, c: multiset<int>)
    ensures a + b + c == a + c + b
  {
  }

  /** Bjorklund's promise: `n` steps, of which exactly `k` are onsets and
      the other `n - k` rests, and nothing but 0s and 1s. */
  lemma RhythmCounts(k: nat, n: nat)
    requires k <= n
    ensures |Rhythm(k, n)| == n
    ensures multiset(Rhythm(k, n))[1] == k
    ensures multiset(Rhythm(k, n))[0] == n - k
    ensures forall i :: 0 <= i < n ==> Rhythm(k, n)[i] == 0 || Rhythm(k, n)[i] == 1
  {
    var s := Rhythm(k, n);
    BjorklundMultiset([0], [1], n - k, k);
    var zeros, ones := Repeat([0], n - k), Repeat([1], k);
    RepeatSingletonLength(0, n - k);
    RepeatSingletonLength(1, k);
    assert multiset(s) == multiset(zeros) + multiset(ones);
    assert |s| == |multiset(s)| == |zeros| + |ones|;
    RepeatSingletonMultiset(0, n - k, 1);
    RepeatSingletonMultiset(1, k, 1);
    RepeatSingletonMultiset(0, n - k, 0);
    RepeatSingletonMultiset(1, k, 0);
    RhythmIsBinary(k, n);
  }

  /** Every element of the unrotated pattern is a 0 or a 1. */
  lemma RhythmIsBinary(k: nat, n: nat)
    requires k <= n
    ensures forall i :: 0 <= i < |Rhythm(k, n)| ==> Rhythm(k, n)[i] == 0 || Rhythm(k, n)[i] == 1
  {
    var s := Rhythm(k, n);
    BjorklundMultiset([0], [1], n - k, k);
    forall i | 0 <= i < |s|
      ensures s[i] == 0 || s[i] == 1
    {
      var v := s[i];
      assert v in multiset(s);
      RepeatSingletonMultiset(0, n - k, v);
      RepeatSingletonMultiset(1, k, v);
    }
  }

  /** The level-indexed tables of the JavaScript loop describe the same
      pattern as the block recursion: from any level on, `build` of the last
      level is Bjorklund's algorithm continued with that level's blocks. */
  lemma {:induction false} ExpandIsBjorklund(counts: seq<nat>, remainders: seq<nat>, d0: nat, r0: nat, level: nat)
    requires Tables(counts, remainders, d0, r0) && level < |counts|
    ensures Expand(counts, remainders, |counts| - 1)
         == Bjorklund(Expand(counts, remainders, level - 1), Expand(counts, remainders, level - 2),
                      Divisor(remainders, d0, level), remainders[level])
    decreases |counts| - level
  {
    var last := |counts| - 1;
    if level < last {
      assert DivisionRow(counts[..last], remainders, d0, level);
      ExpandIsBjorklund(counts, remainders, d0, r0, level + 1);
    }
  }

  // ---------------------------------------------------------------------
  // Rotation lemmas
  // ---------------------------------------------------------------------

  /** `s.slice(-r).concat(s.slice(0, -r))` is a right rotation by `r`,
      including `r = 0`, where `slice(-0)` is the whole sequence and
      `slice(0, -0)` is empty. */
  lemma SlicesRotateRight<T>(s: seq<T>, r: int)
    requires 0 <= r < |s|
    ensures JsSlice(s, -r, |s|) + JsSlice(s, 0, -r) == RotateRight(s, r)
  {
    DivModUnique(r, |s|, 0, r);
    if r == 0 {
      assert JsSlice(s, 0, |s|) == s;
    }
  }

  /** Rotation only reorders: same length, same elements. */
  lemma RotateRightMultiset<T>(s: seq<T>, r: int)
    ensures |RotateRight(s, r)| == |s|
    ensures multiset(RotateRight(s, r)) == multiset(s)
  {
    if |s| > 0 {
      var m := r % |s|;
      assert s == s[..|s| - m] + s[|s| - m..];
    }
  }

  /** Element `i` of a right rotation by `r` is element `(i - r) mod n` of
      the original, for any integer `r`. */
  lemma RotateRightAt<T>(s: seq<T>, r: int, i: int)
    requires 0 <= i < |s|
    ensures |RotateRight(s, r)| == |s|
    ensures RotateRight(s, r)[i] == s[(i - r) % |s|]
  {
    var n := |s|;
    var m, q := r % n, r / n;
    RotateRightMultiset(s, r);
    if i < m {
      assert RotateRight(s, r)[i] == s[n - m + i];
      DivModUnique(i - m, n, -1, i - m + n);
    } else {
      assert RotateRight(s, r)[i] == s[i - m];
      DivModUnique(i - m, n, 0, i - m);
    }
    DivModIdentity(r, n);
    ModSubMultiple(i - m, q, n);
    assert i - m - q * n == i - r;
  }

  lemma DivModIdentity(x: int, n: int)
    requires n > 0
    ensures x == (x / n) * n + x % n
  {
  }

  /** Euclidean division is unique: `a * n + b` with `0 <= b < n` has
      quotient `a` and remainder `b`. */
  lemma DivModUnique(x: int, n: int, a: int, b: int)
    requires n > 0 && 0 <= b < n && x == a * n + b
    ensures x / n == a && x % n == b
  {
    var a', b' := x / n, x % n;
    assert x == a' * n + b';
    var d := a - a';
    assert d * n == b' - b;
    if d > 0 {
      MulAtLeast(d, n);
    } else if d < 0 {
      MulAtLeast(-d, n);
    }
  }

  lemma MulAtLeast(d: int, n: int)
    requires d >= 1 && n > 0
    ensures d * n >= n
  {
  }

  /** Subtracting a multiple of `n` does not change the remainder. */
  lemma ModSubMultiple(x: int, q: int, n: int)
    requires n > 0
    ensures (x - q * n) % n == x % n
  {
    MulSubDistributes(x / n, q, n);
    DivModUnique(x - q * n, n, x / n - q, x % n);
  }

  lemma MulSubDistributes(a: int, q: int, n: int)
    ensures (a - q) * n == a * n - q * n
  {
  }

  lemma ModStep(x: int, n: int)
    requires n > 0
    ensures (x + n) % n == x % n
  {
    DivModUnique(x + n, n, x / n + 1, x % n);
  }

  /** The JavaScript normalisation `r % n`, then `+ n` if negative, is the
      Euclidean remainder, also for negative rotations. */
  lemma NormalizeIsEuclideanMod(rotation: int, n: int)
    requires n > 0
    ensures NormalizeRotation(rotation, n) == rotation % n
  {
    if rotation < 0 {
      var q, m := (-rotation) / n, (-rotation) % n;
      if m == 0 {
        DivModUnique(rotation, n, -q, 0);
      } else {
        DivModUnique(rotation, n, -q - 1, n - m);
      }
    }
  }

  // ---------------------------------------------------------------------
  // Properties of the generator
  // ---------------------------------------------------------------------

  /** For any `k` and rotation: `n` steps with exactly `clamp(k, 0, n)`
      onsets, all other steps rests. */
  lemma EuclideanRhythmCounts(k: int, n: int, rotation: int)
    requires n >= 0
    ensures |EuclideanRhythm(k, n, rotation)| == n
    ensures multiset(EuclideanRhythm(k, n, rotation))[1] == ClampPulses(k, n)
    ensures multiset(EuclideanRhythm(k, n, rotation))[0] == n - ClampPulses(k, n)
    ensures forall i :: 0 <= i < n ==>
              EuclideanRhythm(k, n, rotation)[i] == 0 || EuclideanRhythm(k, n, rotation)[i] == 1
  {
    var base := Rhythm(ClampPulses(k, n), n);
    RhythmCounts(ClampPulses(k, n), n);
    RotateRightMultiset(base, rotation);
    forall i | 0 <= i < n
      ensures EuclideanRhythm(k, n, rotation)[i] == 0 || EuclideanRhythm(k, n, rotation)[i] == 1
    {
      RotateRightAt(base, rotation, i);
    }
  }

  /** Out-of-range pulse counts behave like the nearest bound: `k <= 0`
      gives only rests and `k >= n` only onsets, whatever the rotation. */
  lemma EuclideanRhythmEdges(k: int, n: int, rotation: int)
    requires n >= 0
    ensures k <= 0 ==> EuclideanRhythm(k, n, rotation) == Repeat([0], n)
    ensures k >= n ==> EuclideanRhythm(k, n, rotation) == Repeat([1], n)
  {
    if k <= 0 {
      assert Rhythm(ClampPulses(k, n), n) == Repeat([0], n);
      RotateConstant(0, n, rotation);
    } else if k >= n {
      var base := Rhythm(n, n);
      if n > 1 {
        assert 0 / n == 0 && 0 % n == 0;
        assert Repeat([0], 0) + [1] == [1];
        assert base == Bjorklund([1], [0], n, 0);
      } else if n == 1 {
        assert base == [1];
      }
      assert base == Repeat([1], n);
      RotateConstant(1, n, rotation);
    }
  }

  /** Rotating a constant sequence gives it back. */
  lemma RotateConstant(x: int, n: nat, r: int)
    ensures RotateRight(Repeat([x], n), r) == Repeat([x], n)
  {
    var s := Repeat([x], n);
    RepeatSingletonLength(x, n);
    RotateRightMultiset(s, r);
    forall i | 0 <= i < n
      ensures RotateRight(s, r)[i] == s[i]
    {
      RotateRightAt(s, r, i);
      RepeatSingletonAt(x, n, i);
      RepeatSingletonAt(x, n, (i - r) % n);
    }
  }

  /** Rotation is a right cyclic shift of the rotation-0 pattern: step `i`
      shows step `(i - rotation) mod n`, for negative rotations too. */
  lemma EuclideanRhythmRotation(k: int, n: int, rotation: int, i: int)
    requires 0 <= i < n
    ensures |EuclideanRhythm(k, n, rotation)| == |EuclideanRhythm(k, n, 0)| == n
    ensures EuclideanRhythm(k, n, rotation)[i] == EuclideanRhythm(k, n, 0)[(i - rotation) % n]
  {
    var base := Rhythm(ClampPulses(k, n), n);
    RhythmCounts(ClampPulses(k, n), n);
    EuclideanRhythmRotationZero(k, n);
    RotateRightAt(base, rotation, i);
  }

  /** Rotation 0 leaves Bjorklund's pattern as it is. */
  lemma EuclideanRhythmRotationZero(k: int, n: int)
    requires n >= 0
    ensures EuclideanRhythm(k, n, 0) == Rhythm(ClampPulses(k, n), n)
  {
    var base := Rhythm(ClampPulses(k, n), n);
    if |base| > 0 {
      assert base[|base|..] + base[..|base|] == base;
    }
  }

  /** Rotations `r` and `r + n` give the same pattern. */
  lemma EuclideanRhythmPeriodic(k: int, n: int, rotation: int)
    requires n > 0
    ensures EuclideanRhythm(k, n, rotation + n) == EuclideanRhythm(k, n, rotation)
  {
    RhythmCounts(ClampPulses(k, n), n);
    ModStep(rotation, n);
  }

  /** A single pulse lands on the last step: `n - 1` rests, then the onset. */
  lemma EuclideanRhythmSinglePulse(n: int)
    requires n >= 1
    ensures EuclideanRhythm(1, n, 0) == Repeat([0], n - 1) + [1]
  {
    EuclideanRhythmRotationZero(1, n);
  }

  /** Three pulses in eight steps, as the JavaScript computes them. */
  lemma EuclideanRhythmThreeOfEight()
    ensures EuclideanRhythm(3, 8, 0) == [0, 1, 0, 0, 1, 0, 0, 1]
  {
    EuclideanRhythmRotationZero(3, 8);
    assert Repeat([0], 1) + [1] == [0, 1];
    assert Repeat([0, 1], 1) + [0] == [0, 1, 0];
    assert Repeat([0, 1, 0], 2) + [0, 1] == [0, 1, 0, 0, 1, 0, 0, 1];
    assert Rhythm(3, 8) == Bjorklund([0, 1], [0], 3, 2);
    assert Bjorklund([0, 1], [0], 3, 2) == Bjorklund([0, 1, 0], [0, 1], 2, 1);
  }

  /** Four pulses in sixteen steps: onsets exactly at steps 3, 7, 11, 15. */
  lemma EuclideanRhythmFourOfSixteen()
    ensures EuclideanRhythm(4, 16, 0) == Repeat([0, 0, 0, 1], 4)
    ensures forall i :: 0 <= i < 16 ==> (EuclideanRhythm(4, 16, 0)[i] == 1 <==> i % 4 == 3)
  {
    EuclideanRhythmRotationZero(4, 16);
    FourOfSixteenUnrotated();
    FourBlocksOnsets();
  }

  lemma FourBlocksOnsets()
    ensures |Repeat([0, 0, 0, 1], 4)| == 16
    ensures forall i :: 0 <= i < 16 ==> (Repeat([0, 0, 0, 1], 4)[i] == 1 <==> i % 4 == 3)
  {
    RepeatBlockAt(4, 0);
    forall i | 0 <= i < 16
      ensures Repeat([0, 0, 0, 1], 4)[i] == 1 <==> i % 4 == 3
    {
      RepeatBlockAt(4, i);
    }
  }

  /** Element `i` of `c` copies of `[0, 0, 0, 1]` is element `i % 4` of the block. */
  lemma {:induction false} RepeatBlockAt(c: nat, i: nat)
    requires i < 4 * c
    ensures |Repeat([0, 0, 0, 1], c)| == 4 * c
    ensures Repeat([0, 0, 0, 1], c)[i] == [0, 0, 0, 1][i % 4]
  {
    if i < 4 * (c - 1) {
      RepeatBlockAt(c - 1, i);
    } else {
      if c > 1 {
        RepeatBlockAt(c - 1, 0);
      }
      DivModUnique(i, 4, c - 1, i - 4 * (c - 1));
    }
  }

  lemma FourOfSixteenUnrotated()
    ensures Rhythm(4, 16) == Repeat([0, 0, 0, 1], 4)
  {
    assert Repeat([0], 3) + [1] == [0, 0, 0, 1];
    assert Rhythm(4, 16) == Bjorklund([0, 0, 0, 1], [0], 4, 0);
  }
}
