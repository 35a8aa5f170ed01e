/** The sample buffers of the two meshes (`modelPositions`): a loop draws
    points from each mesh surface and appends each as the 4-tuple
    `(x, y, z, 1.0)`; each buffer is then normalised in windows of 1000
    values. The surface sampler itself is random library code and is not
    part of this model: its successive results are the parameters
    `drawA(0), drawA(1), ...` and `drawB(0), drawB(1), ...`. */
module SampleBuffers {

  import Normalize

  datatype Point3 = Point3(x: real, y: real, z: real)

  /** The number of turns of `for (let i = 0; i < (size * size * 4) / 3; i++)`:
      the ceiling of `4 * size * size / 3`. */
  function SampleCount(size: nat): nat
  {
    (4 * (size * size) + 2) / 3
  }

  /** Component `j` of the 4-tuple pushed for point `p`. */
  function Component(p: Point3, j: nat): real
    requires j < 4
  {
    if j == 0 then p.x else if j == 1 then p.y else if j == 2 then p.z else 1.0
  }

  /** The buffer after the first `n` turns of the loop: the 4-tuples
      `(x, y, z, 1.0)` of draws `0 .. n - 1`, in order. */
  function VertexBuffer(draw: nat -> Point3, n: nat): seq<real>
  {
    if n == 0 then []
    else
      var p := draw(n - 1);
      VertexBuffer(draw, n - 1) + [p.x, p.y, p.z, 1.0]
  }

  /** The loop of `modelPositions`: one draw from each sampler per turn, each
      pushed as four values. */
  method SampleVertices(size: nat, drawA: nat -> Point3, drawB: nat -> Point3)
    returns (verticesA: seq<real>, verticesB: seq<real>)
    ensures verticesA == VertexBuffer(drawA, SampleCount(size))
    ensures verticesB == VertexBuffer(drawB, SampleCount(size))
    ensures |verticesA| == |verticesB| == 4 * SampleCount(size)
  {
    verticesA, verticesB := [], [];
    var i: nat := 0;
    SampleCountIsLoopBound(size);
    while (i as real) < (size * size * 4) as real / 3.0
      invariant i <= SampleCount(size)
      invariant verticesA == VertexBuffer(drawA, i)
      invariant verticesB == VertexBuffer(drawB, i)
      decreases SampleCount(size) - i
    {
      assert i < SampleCount(size);
      var tempPositionA := drawA(i);
      verticesA := verticesA + [tempPositionA.x, tempPositionA.y, tempPositionA.z, 1.0];
      var tempPositionB := drawB(i);
      verticesB := verticesB + [tempPositionB.x, tempPositionB.y, tempPositionB.z, 1.0];
      i := i + 1;
    }
    VertexBufferLength(drawA, i);
    VertexBufferLength(drawB, i);
  }

  /** `modelPositions`: both sample buffers, each normalised by
      `normalizeArray` with its default window of 1000 values. */
  method ModelPositions(size: nat, drawA: nat -> Point3, drawB: nat -> Point3)
    returns (positionA: seq<real>, positionB: seq<real>)
    ensures positionA == Normalize.Normalized(VertexBuffer(drawA, SampleCount(size)), Normalize.DefaultChunkSize)
    ensures positionB == Normalize.Normalized(VertexBuffer(drawB, SampleCount(size)), Normalize.DefaultChunkSize)
    ensures |positionA| == |positionB| == 4 * SampleCount(size)
  {
    var verticesA, verticesB := SampleVertices(size, drawA, drawB);
    positionA := Normalize.NormalizeArray(verticesA, Normalize.DefaultChunkSize);
    positionB := Normalize.NormalizeArray(verticesB, Normalize.DefaultChunkSize);
  }

  // ---------------------------------------------------------------------
  // Properties

  /** `SampleCount(size)` is exactly the number of naturals `i` with
      `i < size * size * 4 / 3`. */
  lemma SampleCountIsLoopBound(size: nat)
    ensures (SampleCount(size) as real) >= (size * size * 4) as real / 3.0
    ensures SampleCount(size) > 0 ==> ((SampleCount(size) - 1) as real) < (size * size * 4) as real / 3.0
  {
    var n := size * size;
    assert size * size * 4 == 4 * n;
    var c := SampleCount(size);
    assert 3 * c >= 4 * n && 3 * (c - 1) < 4 * n;
    assert (3 * c) as real >= (4 * n) as real;
  }

  /** Each turn adds four values. */
  lemma {:induction false} VertexBufferLength(draw: nat -> Point3, n: nat)
    ensures |VertexBuffer(draw, n)| == 4 * n
  {
    if n > 0 {
      VertexBufferLength(draw, n - 1);
    }
  }

  /** The value at `k` is component `k % 4` of draw `k / 4`; in particular
      every value at an index `3 (mod 4)` is 1.0. */
  lemma {:induction false} VertexBufferAt(draw: nat -> Point3, n: nat, k: nat)
    requires k < 4 * n
    ensures |VertexBuffer(draw, n)| == 4 * n
    ensures VertexBuffer(draw, n)[k] == Component(draw(k / 4), k % 4)
    ensures k % 4 == 3 ==> VertexBuffer(draw, n)[k] == 1.0
  {
    VertexBufferLength(draw, n);
    VertexBufferLength(draw, n - 1);
    if k < 4 * (n - 1) {
      VertexBufferAt(draw, n - 1, k);
    }
  }

  /** The two buffers hold at least the `4 * size * size` values that the
      `size` x `size` RGBA position textures read. */
  lemma BuffersFillTexture(size: nat)
    ensures 4 * SampleCount(size) >= 4 * (size * size)
  {
  }

  /** The window that holds the last value of a 4-tuple holds the whole
      4-tuple, when the window length is a multiple of 4. */
  lemma {:induction false} WindowStartIsMultipleOf4(c: nat, chunkSize: nat)
    requires chunkSize % 4 == 0
    ensures Normalize.WindowStart(c, chunkSize) % 4 == 0
  {
    if c > 0 {
      WindowStartIsMultipleOf4(c - 1, chunkSize);
    }
  }

  lemma SameWindow(t: nat, j: nat, chunkSize: nat)
    requires chunkSize > 0 && chunkSize % 4 == 0 && j < 4
    ensures Normalize.WindowIndex(4 * t + j, chunkSize) == Normalize.WindowIndex(4 * t + 3, chunkSize)
  {
    var c := Normalize.WindowIndex(4 * t + 3, chunkSize);
    Normalize.WindowOf(4 * t + 3, chunkSize);
    WindowStartIsMultipleOf4(c, chunkSize);
    Normalize.WindowIndexUnique(4 * t + j, chunkSize, c);
  }

  /** After normalisation with a window length that is a multiple of 4 (as
      the default 1000 is), each sample's 4-tuple is scaled as a whole: its
      fourth value becomes the window's factor `w`, in (0, 1], and its
      coordinates become the sampled coordinates times `w`, so dividing by
      the fourth value gives the sampled point back. */
  lemma NormalizedTuple(draw: nat -> Point3, n: nat, chunkSize: nat, t: nat, j: nat)
    requires chunkSize > 0 && chunkSize % 4 == 0 && t < n && j < 4
    ensures |Normalize.Normalized(VertexBuffer(draw, n), chunkSize)| == 4 * n
    ensures 0.0 < Normalize.Normalized(VertexBuffer(draw, n), chunkSize)[4 * t + 3] <= 1.0
    ensures Normalize.Normalized(VertexBuffer(draw, n), chunkSize)[4 * t + j]
         == Normalize.Scaled(Component(draw(t), j),
                             Normalize.Normalized(VertexBuffer(draw, n), chunkSize)[4 * t + 3])
  {
    var buf := VertexBuffer(draw, n);
    VertexBufferLength(draw, n);
    VertexBufferAt(draw, n, 4 * t + 3);
    VertexBufferAt(draw, n, 4 * t + j);
    assert (4 * t + j) / 4 == t && (4 * t + j) % 4 == j;
    TupleScaled(buf, chunkSize, t, j);
  }

  /** In any buffer whose value at `4t + 3` is 1.0, normalising with a window
      length that is a multiple of 4 scales the whole 4-tuple `t` by the
      factor that lands at `4t + 3`, which lies in (0, 1]. */
  lemma TupleScaled(a: seq<real>, chunkSize: nat, t: nat, j: nat)
    requires chunkSize > 0 && chunkSize % 4 == 0 && 4 * t + 3 < |a| && a[4 * t + 3] == 1.0 && j < 4
    ensures |Normalize.Normalized(a, chunkSize)| == |a|
    ensures 0.0 < Normalize.Normalized(a, chunkSize)[4 * t + 3] <= 1.0
    ensures Normalize.Normalized(a, chunkSize)[4 * t + j]
         == Normalize.Scaled(a[4 * t + j], Normalize.Normalized(a, chunkSize)[4 * t + 3])
  {
    TupleWeight(a, chunkSize, 4 * t + 3);
    SameWindow(t, j, chunkSize);
    Normalize.NormalizedAt(a, chunkSize, 4 * t + j);
  }

  /** A value 1.0 is normalised to the scale factor of its window, which is
      then in (0, 1]. */
  lemma TupleWeight(a: seq<real>, chunkSize: nat, k: nat)
    requires chunkSize > 0 && k < |a| && a[k] == 1.0
    ensures Normalize.WindowStart(Normalize.WindowIndex(k, chunkSize), chunkSize) <= k
    ensures |Normalize.Normalized(a, chunkSize)| == |a|
    ensures Normalize.Normalized(a, chunkSize)[k]
         == Normalize.ScaleFactor(Normalize.MaxAbs(Normalize.Window(a, chunkSize, Normalize.WindowIndex(k, chunkSize))))
    ensures 0.0 < Normalize.Normalized(a, chunkSize)[k] <= 1.0
  {
    var c := Normalize.WindowIndex(k, chunkSize);
    Normalize.AtThroughWindow(a, chunkSize, k);
    var w := Normalize.Window(a, chunkSize, c);
    Normalize.NormalizedAt(a, chunkSize, k);
    Normalize.MaxAbsBounds(w, k - Normalize.WindowStart(c, chunkSize));
    Normalize.ScaleAtMostOne(Normalize.MaxAbs(w));
  }
}
