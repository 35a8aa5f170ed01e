/** Chunked normalisation of a flat coordinate buffer (`normalizeArray`).
    The buffer is cut into consecutive windows of `chunkSize` values (the last
    window may be shorter); every window is divided by its own largest
    magnitude, so each window lands in [-1, 1] independently of the others.
    Values are modelled as mathematical reals. */
module Normalize {

  import Arith

  /** The default window length of `normalizeArray`. */
  const DefaultChunkSize: nat := 1000

  function Abs(x: real): (r: real)
    ensures r >= 0.0 && (r == x || r == -x)
  {
    if x < 0.0 then -x else x
  }

  function Min(a: int, b: int): int
  {
    if a <= b then a else b
  }

  /** `Math.max(...chunk.map(Math.abs))` for a non-empty chunk: the largest
      magnitude in `s`, attained by some element. */
  function MaxAbs(s: seq<real>): (r: real)
    requires |s| > 0
    ensures r >= 0.0
  {
    if |s| == 1 then Abs(s[0])
    else
      var rest := MaxAbs(s[1..]);
      if Abs(s[0]) >= rest then Abs(s[0]) else rest
  }

  /** No value of `s` is larger in magnitude than `MaxAbs(s)`. */
  lemma {:induction false} MaxAbsBounds(s: seq<real>, i: nat)
    requires i < |s|
    ensures Abs(s[i]) <= MaxAbs(s)
  {
    if i > 0 {
      MaxAbsBounds(s[1..], i - 1);
    }
  }

  /** Some value of `s` has magnitude exactly `MaxAbs(s)`. */
  lemma {:induction false} MaxAbsAttained(s: seq<real>) returns (i: nat)
    requires |s| > 0
    ensures i < |s| && Abs(s[i]) == MaxAbs(s)
  {
    if |s| == 1 || Abs(s[0]) >= MaxAbs(s[1..]) {
      i := 0;
    } else {
      var j := MaxAbsAttained(s[1..]);
      i := j + 1;
    }
  }

  /** The scale factor of a window whose largest magnitude is `m`:
      `1/m`, or 1 when the window is all zero. */
  function ScaleFactor(m: real): (r: real)
    requires m >= 0.0
    ensures r > 0.0
    ensures m == 0.0 ==> r == 1.0
    ensures m > 0.0 ==> m * r == 1.0
  {
    if m != 0.0 then 1.0 / m else 1.0
  }

  /** `value * scaleFactor`. Kept as a function of its own so that the
      product, which is non-linear, only enters a proof where it is needed. */
  function Scaled(value: real, scale: real): real
  {
    value * scale
  }

  /** `s.map((value) => value * scale)`. */
  function ScaleAll(s: seq<real>, scale: real): (r: seq<real>)
    ensures |r| == |s|
  {
    if s == [] then [] else [Scaled(s[0], scale)] + ScaleAll(s[1..], scale)
  }

  /** One window, every value multiplied by the window's scale factor. */
  function NormalizeChunk(chunk: seq<real>): (r: seq<real>)
    requires |chunk| > 0
    ensures |r| == |chunk|
  {
    ScaleAll(chunk, ScaleFactor(MaxAbs(chunk)))
  }

  /** `array.slice(i, j)` for `0 <= i <= |a|` and `i <= j`: the end is clamped
      to the length of the array. */
  function Slice(a: seq<real>, i: nat, j: nat): (r: seq<real>)
    requires i <= |a| && i <= j
    ensures |r| == Min(j, |a|) - i
  {
    a[i..Min(j, |a|)]
  }

  /** The normalised buffer, defined window by window from the front:
      normalise the first window, then the rest. */
  function Normalized(a: seq<real>, chunkSize: nat): seq<real>
    requires chunkSize > 0
    decreases |a|
  {
    if |a| == 0 then []
    else
      var n := Min(chunkSize, |a|);
      NormalizeChunk(a[..n]) + Normalized(a[n..], chunkSize)
  }

  /** `c * chunkSize`, the index at which the `c`-th window starts, written
      as repeated addition so that proofs about windows stay linear;
      `WindowStartIsProduct` shows it is the product. */
  function WindowStart(c: nat, chunkSize: nat): nat
  {
    if c == 0 then 0 else WindowStart(c - 1, chunkSize) + chunkSize
  }

  /** `k div chunkSize`, the number of the window that holds index `k`;
      `WindowIndexIsQuotient` shows it is the quotient. */
  function WindowIndex(k: nat, chunkSize: nat): nat
    requires chunkSize > 0
    decreases k
  {
    if k < chunkSize then 0 else WindowIndex(k - chunkSize, chunkSize) + 1
  }

  /** The `c`-th window of `a`: the values at indices
      `[c * chunkSize, min((c + 1) * chunkSize, |a|))`, which is the slice the
      loop of `normalizeArray` takes on its `c`-th turn. */
  function Window(a: seq<real>, chunkSize: nat, c: nat): (w: seq<real>)
    requires chunkSize > 0 && WindowStart(c, chunkSize) < |a|
    ensures 0 < |w| <= chunkSize
  {
    var lo := WindowStart(c, chunkSize);
    Slice(a, lo, lo + chunkSize)
  }

  /** `normalizeArray(array, chunkSize)`: walk the buffer in steps of
      `chunkSize`, normalise each slice and append it to the output. */
  method NormalizeArray(a: seq<real>, chunkSize: nat) returns (out: seq<real>)
    requires chunkSize > 0
    ensures out == Normalized(a, chunkSize)
    ensures |out| == |a|
  {
    out := [];
    var i := 0;
    while i < |a|
      invariant out + Normalized(a[Min(i, |a|)..], chunkSize) == Normalized(a, chunkSize)
      decreases |a| - i
    {
      var chunk := Slice(a, i, i + chunkSize);
      var normalizedChunk := NormalizeChunk(chunk);
      NormalizedStep(a, chunkSize, i, out);
      out := out + normalizedChunk;
      i := i + chunkSize;
    }
    assert a[|a|..] == [];
    NormalizedLength(a, chunkSize);
  }

  /** One turn of the loop of `NormalizeArray`: the suffix from `i` is the
      normalised slice at `i` followed by the suffix after it. */
  lemma NormalizedStep(a: seq<real>, chunkSize: nat, i: nat, done: seq<real>)
    requires chunkSize > 0 && i < |a|
    ensures done + Normalized(a[Min(i, |a|)..], chunkSize)
         == (done + NormalizeChunk(Slice(a, i, i + chunkSize)))
            + Normalized(a[Min(i + chunkSize, |a|)..], chunkSize)
  {
    var n := Min(chunkSize, |a| - i);
    var head := NormalizeChunk(Slice(a, i, i + chunkSize));
    var rest := Normalized(a[Min(i + chunkSize, |a|)..], chunkSize);
    assert a[i..][..n] == Slice(a, i, i + chunkSize);
    assert a[i..][n..] == a[Min(i + chunkSize, |a|)..];
    assert Normalized(a[i..], chunkSize) == head + rest;
    assert (done + head) + rest == done + (head + rest);
  }

  // ---------------------------------------------------------------------
  // Scaling one value

  /** A value no larger in magnitude than `m` is scaled into [-1, 1]. */
  lemma ScaledBounded(x: real, m: real)
    requires 0.0 <= m && Abs(x) <= m
    ensures Abs(Scaled(x, ScaleFactor(m))) <= 1.0
  {
    var s := ScaleFactor(m);
    if m == 0.0 {
      assert x == 0.0;
    } else if x < 0.0 {
      assert -x <= m;
      assert (-x) * s <= m * s;
      assert x * s == -((-x) * s);
    } else {
      assert x * s <= m * s;
    }
  }

  /** A non-zero value of magnitude exactly `m` is scaled to +1 or -1. */
  lemma ScaledUnit(x: real, m: real)
    requires x != 0.0 && Abs(x) == m
    ensures Scaled(x, ScaleFactor(m)) == 1.0 || Scaled(x, ScaleFactor(m)) == -1.0
  {
    var s := ScaleFactor(m);
    assert m > 0.0 && m * s == 1.0;
    if x < 0.0 {
      assert x == -m;
      assert x * s == -(m * s);
    }
  }

  /** A window holding a value of magnitude at least 1 is scaled down, never
      up. */
  lemma ScaleAtMostOne(m: real)
    requires m >= 1.0
    ensures 0.0 < ScaleFactor(m) <= 1.0
  {
    assert 1.0 / m <= 1.0 / 1.0;
  }

  /** Multiplying by a positive factor keeps order and sign. */
  lemma ScaledMonotone(x: real, y: real, s: real)
    requires s > 0.0
    ensures x <= y <==> Scaled(x, s) <= Scaled(y, s)
    ensures x < 0.0 <==> Scaled(x, s) < 0.0
  {
    if x <= y {
      assert y * s - x * s == (y - x) * s;
    } else {
      assert x * s - y * s == (x - y) * s;
    }
    if x < 0.0 {
      assert 0.0 - x * s == (0.0 - x) * s;
    }
  }

  // ---------------------------------------------------------------------
  // Properties of one window

  /** `map` multiplies the value at every index and moves nothing. */
  lemma {:induction false} ScaleAllAt(s: seq<real>, scale: real, k: nat)
    requires k < |s|
    ensures ScaleAll(s, scale)[k] == Scaled(s[k], scale)
  {
    if k > 0 {
      ScaleAllAt(s[1..], scale, k - 1);
    }
  }

  /** The value at `k` of a normalised window. */
  lemma ChunkAt(chunk: seq<real>, k: nat)
    requires k < |chunk|
    ensures NormalizeChunk(chunk)[k] == Scaled(chunk[k], ScaleFactor(MaxAbs(chunk)))
  {
    ScaleAllAt(chunk, ScaleFactor(MaxAbs(chunk)), k);
  }

  /** Scaling by the window factor never leaves [-1, 1]. */
  lemma ChunkBounded(chunk: seq<real>, k: nat)
    requires |chunk| > 0 && k < |chunk|
    ensures Abs(NormalizeChunk(chunk)[k]) <= 1.0
  {
    ChunkAt(chunk, k);
    MaxAbsBounds(chunk, k);
    ScaledBounded(chunk[k], MaxAbs(chunk));
  }

  /** An element of largest magnitude in a window that is not all zero is
      mapped to exactly +1 or -1. */
  lemma ChunkHitsUnit(chunk: seq<real>, k: nat)
    requires |chunk| > 0 && k < |chunk|
    requires Abs(chunk[k]) == MaxAbs(chunk) && chunk[k] != 0.0
    ensures NormalizeChunk(chunk)[k] == 1.0 || NormalizeChunk(chunk)[k] == -1.0
  {
    ChunkAt(chunk, k);
    ScaledUnit(chunk[k], MaxAbs(chunk));
  }

  /** The largest magnitude of a normalised window is 1, or 0 if the window is
      all zero. */
  lemma ChunkMaxAbs(chunk: seq<real>)
    requires |chunk| > 0
    ensures MaxAbs(NormalizeChunk(chunk)) == if MaxAbs(chunk) == 0.0 then 0.0 else 1.0
  {
    var r := NormalizeChunk(chunk);
    var m := MaxAbs(chunk);
    var k := MaxAbsAttained(chunk);
    var j := MaxAbsAttained(r);
    ChunkBounded(chunk, j);
    if m == 0.0 {
      MaxAbsBounds(chunk, j);
      ChunkAt(chunk, j);
      assert r[j] == Scaled(chunk[j], ScaleFactor(m)) == 0.0;
    } else {
      ChunkHitsUnit(chunk, k);
      MaxAbsBounds(r, k);
    }
  }

  /** Within one window the scale factor is positive, so the order of the
      values and their signs are kept. */
  lemma ChunkMonotone(chunk: seq<real>, j: nat, k: nat)
    requires |chunk| > 0 && j < |chunk| && k < |chunk|
    ensures chunk[j] <= chunk[k] <==> NormalizeChunk(chunk)[j] <= NormalizeChunk(chunk)[k]
    ensures chunk[j] < 0.0 <==> NormalizeChunk(chunk)[j] < 0.0
  {
    ChunkAt(chunk, j);
    ChunkAt(chunk, k);
    ScaledMonotone(chunk[j], chunk[k], ScaleFactor(MaxAbs(chunk)));
  }

  // ---------------------------------------------------------------------
  // Properties of the whole buffer

  lemma {:induction false} NormalizedLength(a: seq<real>, chunkSize: nat)
    requires chunkSize > 0
    ensures |Normalized(a, chunkSize)| == |a|
    decreases |a|
  {
    if |a| > 0 {
      var n := Min(chunkSize, |a|);
      NormalizedLength(a[n..], chunkSize);
    }
  }

  /** Normalising commutes with taking the `c`-th window. */
  lemma {:induction false} NormalizedWindow(a: seq<real>, chunkSize: nat, c: nat)
    requires chunkSize > 0 && WindowStart(c, chunkSize) < |a|
    ensures |Normalized(a, chunkSize)| == |a|
    ensures Window(Normalized(a, chunkSize), chunkSize, c) == NormalizeChunk(Window(a, chunkSize, c))
    decreases c
  {
    NormalizedLength(a, chunkSize);
    var n := Min(chunkSize, |a|);
    var r := Normalized(a, chunkSize);
    var head := NormalizeChunk(a[..n]);
    var tail := Normalized(a[n..], chunkSize);
    assert r == head + tail;
    if c == 0 {
      assert Window(r, chunkSize, c) == r[..n] == head;
      assert Window(a, chunkSize, c) == a[..n];
    } else {
      NormalizedWindow(a[n..], chunkSize, c - 1);
      WindowOfSuffix(a, chunkSize, c);
      WindowOfSuffix(r, chunkSize, c);
      assert r[n..] == tail;
    }
  }

  /** Dropping the first window shifts every later window down by one. */
  lemma WindowOfSuffix(a: seq<real>, chunkSize: nat, c: nat)
    requires chunkSize > 0 && c > 0 && WindowStart(c, chunkSize) < |a|
    ensures chunkSize < |a| && WindowStart(c - 1, chunkSize) < |a| - chunkSize
    ensures Window(a[chunkSize..], chunkSize, c - 1) == Window(a, chunkSize, c)
  {
  }

  /** Index `k` lies in window `WindowIndex(k, chunkSize)`. */
  lemma {:induction false} WindowOf(k: nat, chunkSize: nat)
    requires chunkSize > 0
    ensures WindowStart(WindowIndex(k, chunkSize), chunkSize) <= k
         < WindowStart(WindowIndex(k, chunkSize), chunkSize) + chunkSize
    decreases k
  {
    if k >= chunkSize {
      WindowOf(k - chunkSize, chunkSize);
    }
  }

  /** Every index between the start of window `c` and the start of the next
      one belongs to window `c`. */
  lemma {:induction false} WindowIndexUnique(k: nat, chunkSize: nat, c: nat)
    requires chunkSize > 0
    requires WindowStart(c, chunkSize) <= k < WindowStart(c, chunkSize) + chunkSize
    ensures WindowIndex(k, chunkSize) == c
    decreases c
  {
    if c > 0 {
      WindowIndexUnique(k - chunkSize, chunkSize, c - 1);
    }
  }

  lemma {:induction false} WindowStartIsProduct(c: nat, chunkSize: nat)
    ensures WindowStart(c, chunkSize) == c * chunkSize
  {
    if c > 0 {
      WindowStartIsProduct(c - 1, chunkSize);
      assert c * chunkSize == (c - 1) * chunkSize + chunkSize;
    }
  }

  lemma WindowIndexIsQuotient(k: nat, chunkSize: nat)
    requires chunkSize > 0
    ensures WindowIndex(k, chunkSize) == k / chunkSize
  {
    var c := WindowIndex(k, chunkSize);
    WindowOf(k, chunkSize);
    WindowStartIsProduct(c, chunkSize);
    Arith.DivisionUnique(k, chunkSize, c, k - c * chunkSize);
  }

  /** The value at `k` of a buffer, read through the window of `k`. */
  lemma AtThroughWindow(a: seq<real>, chunkSize: nat, k: nat)
    requires chunkSize > 0 && k < |a|
    ensures WindowStart(WindowIndex(k, chunkSize), chunkSize) <= k
         < WindowStart(WindowIndex(k, chunkSize), chunkSize) + chunkSize
    ensures Window(a, chunkSize, WindowIndex(k, chunkSize))
              [k - WindowStart(WindowIndex(k, chunkSize), chunkSize)] == a[k]
  {
    WindowOf(k, chunkSize);
  }

  /** Every output value is the input value at the same index times the scale
      factor of the window that holds it. */
  lemma NormalizedAt(a: seq<real>, chunkSize: nat, k: nat)
    requires chunkSize > 0 && k < |a|
    ensures WindowStart(WindowIndex(k, chunkSize), chunkSize) <= k
    ensures |Normalized(a, chunkSize)| == |a|
    ensures Normalized(a, chunkSize)[k]
         == Scaled(a[k], ScaleFactor(MaxAbs(Window(a, chunkSize, WindowIndex(k, chunkSize)))))
  {
    var c := WindowIndex(k, chunkSize);
    var lo := WindowStart(c, chunkSize);
    AtThroughWindow(a, chunkSize, k);
    NormalizedWindow(a, chunkSize, c);
    var r := Normalized(a, chunkSize);
    AtThroughWindow(r, chunkSize, k);
    ChunkAt(Window(a, chunkSize, c), k - lo);
  }

  /** Every output value lies in [-1, 1]. */
  lemma NormalizedBounded(a: seq<real>, chunkSize: nat, k: nat)
    requires chunkSize > 0 && k < |a|
    ensures |Normalized(a, chunkSize)| == |a|
    ensures Abs(Normalized(a, chunkSize)[k]) <= 1.0
  {
    var c := WindowIndex(k, chunkSize);
    var lo := WindowStart(c, chunkSize);
    AtThroughWindow(a, chunkSize, k);
    NormalizedWindow(a, chunkSize, c);
    var r := Normalized(a, chunkSize);
    AtThroughWindow(r, chunkSize, k);
    ChunkBounded(Window(a, chunkSize, c), k - lo);
  }

  /** In every window that is not all zero (it holds a non-zero value at `z`)
      some output value `k` is exactly +1 or -1: the input value of largest
      magnitude. */
  lemma NormalizedHitsUnit(a: seq<real>, chunkSize: nat, c: nat, z: nat) returns (k: nat)
    requires chunkSize > 0
    requires WindowStart(c, chunkSize) <= z < WindowStart(c, chunkSize) + chunkSize
    requires z < |a| && a[z] != 0.0
    ensures |Normalized(a, chunkSize)| == |a|
    ensures WindowStart(c, chunkSize) <= k < WindowStart(c, chunkSize) + chunkSize && k < |a|
    ensures Abs(a[k]) == MaxAbs(Window(a, chunkSize, c))
    ensures Abs(Normalized(a, chunkSize)[k]) == 1.0
  {
    var lo := WindowStart(c, chunkSize);
    var w := Window(a, chunkSize, c);
    assert w[z - lo] != 0.0;
    var off := ChunkPeak(w, z - lo);
    NormalizedLength(a, chunkSize);
    var r := Normalized(a, chunkSize);
    k := lo + off;
    assert Abs(r[k]) == 1.0 by {
      NormalizedWindow(a, chunkSize, c);
      assert Window(r, chunkSize, c)[off] == r[k];
    }
  }

  /** A window with a non-zero value has a value that normalises to +1 or -1. */
  lemma ChunkPeak(w: seq<real>, j: nat) returns (off: nat)
    requires j < |w| && w[j] != 0.0
    ensures off < |w| && Abs(w[off]) == MaxAbs(w) && Abs(NormalizeChunk(w)[off]) == 1.0
  {
    off := MaxAbsAttained(w);
    MaxAbsBounds(w, j);
    ChunkHitsUnit(w, off);
  }

  /** A window whose values are all zero has scale factor 1 and is copied
      unchanged. */
  lemma NormalizedZeroWindow(a: seq<real>, chunkSize: nat, c: nat)
    requires chunkSize > 0 && WindowStart(c, chunkSize) < |a|
    requires forall k :: WindowStart(c, chunkSize) <= k < WindowStart(c, chunkSize) + chunkSize && k < |a| ==> a[k] == 0.0
    ensures ScaleFactor(MaxAbs(Window(a, chunkSize, c))) == 1.0
    ensures |Normalized(a, chunkSize)| == |a|
    ensures Window(Normalized(a, chunkSize), chunkSize, c) == Window(a, chunkSize, c)
  {
    var lo := WindowStart(c, chunkSize);
    var w := Window(a, chunkSize, c);
    forall j | 0 <= j < |w| ensures w[j] == 0.0 {
      assert w[j] == a[lo + j];
    }
    var j := MaxAbsAttained(w);
    assert MaxAbs(w) == 0.0;
    NormalizedWindow(a, chunkSize, c);
    var r := NormalizeChunk(w);
    forall j | 0 <= j < |w| ensures r[j] == w[j] {
      ChunkAt(w, j);
    }
  }

  /** Normalising an already normalised buffer changes nothing. */
  lemma NormalizedIdempotent(a: seq<real>, chunkSize: nat)
    requires chunkSize > 0
    ensures Normalized(Normalized(a, chunkSize), chunkSize) == Normalized(a, chunkSize)
  {
    var r := Normalized(a, chunkSize);
    NormalizedLength(a, chunkSize);
    NormalizedLength(r, chunkSize);
    var rr := Normalized(r, chunkSize);
    forall k | 0 <= k < |a| ensures rr[k] == r[k] {
      IdempotentAt(a, chunkSize, k);
    }
  }

  lemma IdempotentAt(a: seq<real>, chunkSize: nat, k: nat)
    requires chunkSize > 0 && k < |a|
    ensures |Normalized(a, chunkSize)| == |a|
    ensures |Normalized(Normalized(a, chunkSize), chunkSize)| == |a|
    ensures Normalized(Normalized(a, chunkSize), chunkSize)[k] == Normalized(a, chunkSize)[k]
  {
    var r := Normalized(a, chunkSize);
    NormalizedLength(a, chunkSize);
    NormalizedLength(r, chunkSize);
    var c := WindowIndex(k, chunkSize);
    NormalizedAt(r, chunkSize, k);
    assert ScaleFactor(MaxAbs(Window(r, chunkSize, c))) == 1.0 by {
      NormalizedWindow(a, chunkSize, c);
      ChunkMaxAbs(Window(a, chunkSize, c));
    }
  }
}
