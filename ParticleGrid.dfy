/** The display particles' grid coordinates (`particlesPosition`): particle
    `i` of a `size` x `size` grid gets a position whose first two components
    are texture coordinates into the `size` x `size` position texture and
    whose third component stays 0. */
module ParticleGrid {

  /** `(i % size) / size`, the first coordinate of particle `i`. */
  function GridU(size: nat, i: nat): real
    requires size > 0
  {
    (i % size) as real / size as real
  }

  /** `i / size / size`, the second coordinate of particle `i`. */
  function GridV(size: nat, i: nat): real
    requires size > 0
  {
    i as real / size as real / size as real
  }

  /** `particlesPosition`: a zero-filled `Float32Array` of `size * size * 3`
      slots, of which the loop writes slots `3i` and `3i + 1` of every
      particle `i`; slot `3i + 2` keeps its initial 0. */
  method ParticlesPosition(size: nat) returns (particles: array<real>)
    ensures fresh(particles)
    ensures particles.Length == size * size * 3
    ensures forall i :: 0 <= i < size * size ==>
              particles[3 * i] == GridU(size, i)
              && particles[3 * i + 1] == GridV(size, i)
              && particles[3 * i + 2] == 0.0
  {
    var length := size * size;
    particles := new real[length * 3](_ => 0.0);
    for i := 0 to length
      invariant forall p :: 0 <= p < i ==>
                  particles[3 * p] == GridU(size, p) && particles[3 * p + 1] == GridV(size, p)
      invariant forall p :: 0 <= p < length ==> particles[3 * p + 2] == 0.0
      invariant forall j :: 3 * i <= j < length * 3 ==> particles[j] == 0.0
    {
      var i3 := i * 3;
      particles[i3] := GridU(size, i);
      particles[i3 + 1] := GridV(size, i);
    }
  }

  /** Both coordinates of every particle lie in [0, 1). */
  lemma GridInUnitSquare(size: nat, i: nat)
    requires i < size * size
    ensures size > 0
    ensures 0.0 <= GridU(size, i) < 1.0
    ensures 0.0 <= GridV(size, i) < 1.0
  {
    assert size > 0;
    var s := size as real;
    assert (i % size) as real < s;
    assert GridU(size, i) * s == (i % size) as real;
    assert GridV(size, i) * (s * s) == i as real;
    assert i as real < s * s;
  }

  /** On a `size` x `size` texture sampled at the nearest texel, the
      coordinates of particle `i` fall in column `i % size` and row
      `i / size`; the column and row together determine `i`, so no two
      particles fall in the same texel. */
  lemma GridTexel(size: nat, i: nat)
    requires size > 0
    ensures (GridU(size, i) * size as real).Floor == i % size
    ensures (GridV(size, i) * size as real).Floor == i / size
    ensures (i / size) * size + i % size == i
  {
    var s := size as real;
    var q, r := i / size, i % size;
    assert i == q * size + r;
    assert GridU(size, i) * s == r as real;
    assert GridV(size, i) * s == i as real / s;
    assert i as real / s == q as real + r as real / s;
    assert 0.0 <= r as real / s < 1.0;
  }
}
