# surface-sampling: the particle-morph component, modelled in Dafny

`surface-sampling/component/FBO/index.js` is a React-three-fiber component that
morphs a cloud of particles between two loaded meshes. This project models its
CPU-side core:

- **`normalizeArray`** (module `Normalize`): the output array is built in
  windows of `chunkSize` values (1000 by default). Each value is scaled by
  `1 / max |v|` over its window, or by 1 when that maximum is 0.
- **the particle grid** (module `ParticleGrid`): the `size * size * 3` array
  filled by `particlesPosition`. Particle `i` gets texture coordinates
  `((i % size) / size, i / size / size, 0)`.
- **the sample buffers** (module `SampleBuffers`): the `modelPositions` loop.
  It draws a point from each mesh surface per turn and pushes it as
  `(x, y, z, 1.0)`, then normalises each buffer.
- **the morph clock** (module `AnimationClock`): the click handler and the
  time step of the frame callback. This is a pure state machine (`Click`,
  `Frame`) and a class `Clock` whose methods update the fields in place.

Module `Arith` holds `DivisionUnique` (quotient and remainder are unique) and
its helper `MulStep`; `Normalize` uses them.

All values are Dafny `real`s, so IEEE float rounding is not modelled.
`normalizeArray` is a method whose loop builds the output exactly as the
source loop does. It is proved equal to the recursive specification
`Normalize.Normalized`, and the properties are proved about that function.

The random surface sampler is library code. It appears as parameters
`drawA, drawB: nat -> Point3`, where `drawA(i)` is the point that call `i`
of `sampler.objectA.sample` returns. The constant `uTime = pi / 2 / 0.35` is
the parameter `peakTime`, an arbitrary positive real.

Where the component's behaviour and its reading as a persistent state machine
differ:

- The click counter starts at 1, and a click adds 1 before the frame step
  compares against `uTime * clicks`. So in the persistent state machine the
  first click drives the time up to `2 * uTime`, not `uTime`. This is
  `FirstClickTarget`.
- In the running page, `simulatedTimeMemo` and `simulatedClickTime` are `let`
  locals of the component body. The re-render that `setIsAnimating(true)`
  triggers resets them to 0 and 1. The first click's increment is then lost,
  so in the page the time runs up to `uTime` only.
- The model follows the code as written and keeps one persistent state. The
  re-render reset is left out (see below).

`Normalize.NormalizedTuple` shows that normalisation also scales each tuple's
fourth value. It stops being 1.0 and becomes the window's scale factor.

## Model

| member | source | states |
|---|---|---|
| Normalize.NormalizeArray | surface-sampling/component/FBO/index.js:14-35 | The chunk loop returns exactly `Normalized(a, chunkSize)`, and its length is the input length. |
| Normalize.NormalizedStep | surface-sampling/component/FBO/index.js:18-31 | One turn of the loop: the normalised slice `[i, i + chunkSize)` followed by the rest from `i + chunkSize` equals the rest from `i`. |
| Normalize.Slice | surface-sampling/component/FBO/index.js:19 | `array.slice(i, i + chunkSize)` clamps at the end of the array, so its length is `min(j, length) - i`. |
| Normalize.MaxAbsBounds | surface-sampling/component/FBO/index.js:22 | `Math.max(...chunk.map(Math.abs))` is at least the magnitude for every value of the chunk. |
| Normalize.MaxAbsAttained | surface-sampling/component/FBO/index.js:22 | The maximum is the absolute value of some element of the chunk. |
| Normalize.ScaleFactor | surface-sampling/component/FBO/index.js:25 | The factor is positive. It is 1 when the maximum is 0, and otherwise it is the multiplicative inverse of the maximum. |
| Normalize.ScaledBounded | surface-sampling/component/FBO/index.js:25-28 | A value bounded by the maximum is scaled into [-1, 1]. |
| Normalize.ScaledUnit | surface-sampling/component/FBO/index.js:25-28 | A non-zero value whose magnitude is the maximum is scaled to +1 or -1. |
| Normalize.ScaleAtMostOne | surface-sampling/component/FBO/index.js:25 | For maxima of at least 1, the factor lies in (0, 1]. |
| Normalize.ScaledMonotone | surface-sampling/component/FBO/index.js:28 | Multiplying by a positive factor keeps the order of values and their sign, in both directions. |
| Normalize.ScaleAllAt | surface-sampling/component/FBO/index.js:28 | `chunk.map(v => v * scaleFactor)` at position `k` is `chunk[k]` times the factor. |
| Normalize.ChunkAt | surface-sampling/component/FBO/index.js:22-28 | A normalised chunk at `k` is `chunk[k]` times the chunk's own scale factor. |
| Normalize.ChunkBounded | surface-sampling/component/FBO/index.js:22-28 | Every value of a normalised chunk lies in [-1, 1]. |
| Normalize.ChunkHitsUnit | surface-sampling/component/FBO/index.js:22-28 | A non-zero value of largest magnitude becomes exactly +1 or -1. |
| Normalize.ChunkMaxAbs | surface-sampling/component/FBO/index.js:22-28 | A normalised chunk has largest magnitude 1, or 0 when the chunk is all zero. |
| Normalize.ChunkMonotone | surface-sampling/component/FBO/index.js:22-28 | Within a chunk, normalisation keeps the order of any two values and the sign of each, in both directions. |
| Normalize.NormalizedLength | surface-sampling/component/FBO/index.js:14-35 | For every positive `chunkSize`, the output has the input's length. |
| Normalize.NormalizedWindow | surface-sampling/component/FBO/index.js:18-31 | Window `c` of the output, meaning indices `[c * chunkSize, (c + 1) * chunkSize)` clamped, is the normalisation of window `c` of the input. |
| Normalize.WindowOfSuffix | surface-sampling/component/FBO/index.js:18-19 | Window `c` of the input is window `c - 1` of the input with its first `chunkSize` values dropped. |
| Normalize.WindowOf | surface-sampling/component/FBO/index.js:18 | Index `k` lies in window `WindowIndex(k)`. |
| Normalize.WindowIndexUnique | surface-sampling/component/FBO/index.js:18 | Index `k` lies in no other window. |
| Normalize.WindowStartIsProduct | surface-sampling/component/FBO/index.js:18 | Window `c` starts at `c * chunkSize`, the value of `i` on the loop's turn `c`. |
| Normalize.WindowIndexIsQuotient | surface-sampling/component/FBO/index.js:18 | The window of index `k` is `k / chunkSize`. |
| Normalize.AtThroughWindow | surface-sampling/component/FBO/index.js:19 | Index `k` of the input is found at offset `k - start` of its window. |
| Normalize.NormalizedAt | surface-sampling/component/FBO/index.js:14-35 | Output index `k` is input index `k` times the scale factor of the window that holds `k`. |
| Normalize.NormalizedBounded | surface-sampling/component/FBO/index.js:14-35 | Every output value lies in [-1, 1]. |
| Normalize.NormalizedHitsUnit | surface-sampling/component/FBO/index.js:22-28 | Every window with a non-zero value has an index of largest magnitude in the input whose output is +1 or -1. |
| Normalize.ChunkPeak | surface-sampling/component/FBO/index.js:22-28 | A chunk with a non-zero value has a position of largest magnitude that normalises to magnitude 1. |
| Normalize.NormalizedZeroWindow | surface-sampling/component/FBO/index.js:25 | An all-zero window gets factor 1 and is left unchanged. |
| Normalize.NormalizedIdempotent | surface-sampling/component/FBO/index.js:14-35 | Normalising an already normalised array changes nothing. |
| Normalize.IdempotentAt | surface-sampling/component/FBO/index.js:14-35 | The same as `NormalizedIdempotent`, index by index. |
| ParticleGrid.ParticlesPosition | surface-sampling/component/FBO/index.js:86-96 | A fresh array of `size * size * 3` slots. For every particle `i`, slot `3i` is `(i % size) / size`, slot `3i + 1` is `i / size / size`, and slot `3i + 2` keeps its initial 0. |
| ParticleGrid.GridInUnitSquare | surface-sampling/component/FBO/index.js:92-93 | Both coordinates of every particle lie in [0, 1). |
| ParticleGrid.GridTexel | surface-sampling/component/FBO/index.js:78-94 | On the `size` x `size` nearest-filtered texture, `floor(u * size)` is `i % size` and `floor(v * size)` is `i / size`. Column and row together determine `i`, so distinct particles fall in distinct texels. Which sample a texel holds is not stated. |
| SampleBuffers.SampleVertices | surface-sampling/component/FBO/index.js:105-119 | Both buffers are the `(x, y, z, 1.0)` tuples of the first `SampleCount(size)` draws, in draw order. They have equal length `4 * SampleCount(size)`. |
| SampleBuffers.SampleCountIsLoopBound | surface-sampling/component/FBO/index.js:111 | `SampleCount(size) = ceil(4 * size * size / 3)` is exactly the number of turns of `i < (size * size * 4) / 3`. |
| SampleBuffers.ModelPositions | surface-sampling/component/FBO/index.js:105-129 | Both position arrays are the normalised sample buffers, with window 1000, and have length `4 * SampleCount(size)`. |
| SampleBuffers.VertexBufferLength | surface-sampling/component/FBO/index.js:113-118 | Every turn adds four values. |
| SampleBuffers.VertexBufferAt | surface-sampling/component/FBO/index.js:113-118 | Buffer index `k` is component `k % 4` of draw `k / 4`. Every index that is 3 mod 4 holds 1.0. |
| SampleBuffers.BuffersFillTexture | surface-sampling/component/FBO/index.js:111 | Each buffer holds at least the `4 * size * size` values of an RGBA `size` x `size` texture. |
| SampleBuffers.WindowStartIsMultipleOf4 | surface-sampling/component/FBO/index.js:122-123 | With a window length that is a multiple of 4, as 1000 is, every window starts at a multiple of 4. |
| SampleBuffers.SameWindow | surface-sampling/component/FBO/index.js:122-123 | With such a window length, all four values of a tuple lie in the same window. |
| SampleBuffers.TupleWeight | surface-sampling/component/FBO/index.js:22-28 | A 1.0 value normalises to its window's factor, which lies in (0, 1]. |
| SampleBuffers.TupleScaled | surface-sampling/component/FBO/index.js:122-123 | In a buffer whose tuple `t` ends in 1.0, each of the four values is scaled by the factor that the fourth value becomes. |
| SampleBuffers.NormalizedTuple | surface-sampling/component/FBO/index.js:111-123 | In a normalised sample buffer, each sample's tuple is scaled as a whole. The fourth value lies in (0, 1], and each coordinate is the sampled coordinate times the fourth value. |
| AnimationClock.InitialInv | surface-sampling/component/FBO/index.js:52-55 | The initial state (time 0, one click, not animating) satisfies the invariant, and its target is `peakTime`. |
| AnimationClock.TargetAfterClick | surface-sampling/component/FBO/index.js:58 | Each click raises the target `peakTime * clicks` by exactly `peakTime`. |
| AnimationClock.ClickEffect | surface-sampling/component/FBO/index.js:57-60 | A click adds exactly 1 to the counter and sets the flag. The time and the published value do not change. |
| AnimationClock.ClickPreservesInv | surface-sampling/component/FBO/index.js:57-60 | A click keeps the invariant. |
| AnimationClock.FrameEffect | surface-sampling/component/FBO/index.js:148-154 | A frame publishes the time it starts from and keeps the counter and the flag. It adds exactly 0.01 when animating and below target, and otherwise leaves the time unchanged. The time never decreases. |
| AnimationClock.FramePreservesInv | surface-sampling/component/FBO/index.js:148-154 | A frame keeps the invariant. |
| AnimationClock.RunInv | surface-sampling/component/FBO/index.js:148-154 | After any sequence of clicks and frames, the invariant holds. In particular the time stays below `peakTime * clicks + 0.01`. |
| AnimationClock.RunMonotone | surface-sampling/component/FBO/index.js:148-154 | No event makes the time go back, and a click leaves it unchanged. |
| AnimationClock.CeilBounds | surface-sampling/component/FBO/index.js:150-152 | The ceiling used to count the remaining frames lies in `[x, x + 1)`. |
| AnimationClock.StepsAfterFrame | surface-sampling/component/FBO/index.js:150-152 | An animated frame below the target brings the time one frame closer to it. |
| AnimationClock.FramesTime | surface-sampling/component/FBO/index.js:148-154 | While animating, after `n` frames the time is the start plus `0.01 * min(n, StepsToReach)`. |
| AnimationClock.FramesSettle | surface-sampling/component/FBO/index.js:148-154 | Once enough frames have passed, the time holds within `[target, target + 0.01)`. |
| AnimationClock.NoClickStaysStill | surface-sampling/component/FBO/index.js:148-154 | Without a click, any number of frames leaves the state at the initial one, so time stays 0. |
| AnimationClock.FirstClickTarget | surface-sampling/component/FBO/index.js:55-60 | After the first click, the time settles within `[2 * peakTime, 2 * peakTime + 0.01)`. |
| AnimationClock.Clock.constructor | surface-sampling/component/FBO/index.js:52-55 | A new clock is in the initial state: time 0, counter 1, not animating, uniform 0. |
| AnimationClock.Clock.HandleClick | surface-sampling/component/FBO/index.js:57-60 | Updates the fields in place to exactly `Click` of the old state, and keeps `Valid()`. |
| AnimationClock.Clock.OnFrame | surface-sampling/component/FBO/index.js:148-154 | Updates the fields in place to exactly `Frame` of the old state, and keeps `Valid()`. |

## Left out

- Normalize.NormalizeArray: assumes `chunkSize > 0`. With `chunkSize = 0`
  and a non-empty array, `i += chunkSize` never advances and the source loop
  does not terminate. Chunks larger than the JavaScript engine's call-argument
  limit (about 10^5 values in V8) make `Math.max(...)` and `push(...)` throw a
  `RangeError`, while the model returns the normalised array. The component
  always passes the default 1000, so it never meets either case.
- ParticleGrid.GridTexel: does not say which sample a texel holds. The
  simulation quad's uvs put v = 1 at its bottom edge, so render-target row
  `r` comes from row `size - 1 - r` of the position textures. The display
  shader that reads the particles is not part of this model.
- IEEE binary64/float32 rounding: every value is a mathematical real. Nothing
  here accounts for the `Float32Array` storage in `particlesPosition` or the
  inexact sums of 0.01.
- The surface sampler, OBJ loading and mesh access (`useLoader`,
  `MeshSurfaceSampler`): their results are the parameters `drawA` and
  `drawB`. Nothing is assumed about the points they return.
- React's hook lifecycle: `useMemo` caching, and the re-render that resets
  `simulatedTimeMemo`/`simulatedClickTime` after `setIsAnimating`. The model
  keeps one persistent clock.
- All GPU work in the frame callback and the JSX: render target,
  orthographic camera, full-screen quad, `setRenderTarget`/`render`, the
  `uPositions` uniform, `Float32BufferAttribute` wrapping. These are calls
  into three.js with no effect on the modelled state.
- The simulation shader's blend and the display shaders:
  `surface-sampling/component/SimulationMaterial/index.js` and the GLSL
  files are not part of this model.
- `Math.max(...)` over an empty chunk: it cannot occur, because the loop only
  slices non-empty windows.
- NaN or infinite sample values: reals have neither.
