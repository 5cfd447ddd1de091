# Particle logo: a Dafny model of `script.js`

`script.js` draws a logo as a cloud of points with WebGL. It samples the
logo's RGBA pixels into particles: one per pixel whose alpha is above 10,
each with a rest position and a tinted colour. On every animation frame,
while an activity countdown lasts, it pushes the particles away from the
pointer, damps their velocity, springs them back towards their rest
positions and softly clamps how far they may stray. A pointer move re-arms
the countdown. A window resize lays the particles out again on a square
grid centred on the canvas.

The model has these modules:

- `Config`: the configuration constants.
- `HexColor`: the `hexToRgb` parser. It exists twice in the source, with a
  white fallback and with a black one.
- `Particles`: the particle record.
- `Sampler`: the row-major sampling loop of `createParticles`.
- `Activity`: the countdown.
- `JsMath`: the host's `Math.sqrt`, `Math.exp`, `Math.atan2`, `Math.cos` and
  `Math.sin`, received as a value, and the facts the proofs assume about them.
- `Physics`: one particle's share of `updatePhysics`.
- `Relocation`: the grid layout of the resize handler.
- `Scene`: a class that holds the module-level state of `script.js`
  (particles, position and colour buffers, pointer, countdown, canvas size)
  and the handlers that update it in place.

Numbers are exact reals. Pixel bytes are integers in [0, 256).

## Model

| member | source | states |
|---|---|---|
| HexColor.ParseHexColor | script.js:86-92 | The match succeeds exactly when the string is an optional `#` followed by six hexadecimal digits of either case and nothing else; a successful parse gives three channels in [0, 1] |
| HexColor.MatchesHexColor | script.js:86 | The regular expression with the `i` flag, as a predicate: an optional `#`, then exactly six hexadecimal digits of either case; ParseHexColor succeeds exactly on it |
| HexColor.DigitValue | script.js:89-91 | `parseInt` of one hexadecimal digit gives a value below 16; HexDigit writes every such value back as a digit with that value |
| HexColor.HexDigit | script.js:89-91 | Every value below 16 has a digit, in either case, that reads back to it |
| HexColor.HexToRgb | script.js:85-94 | A matching string gives exactly the parsed colour, with channels in [0, 1]; any other string gives the fallback colour |
| HexColor.SamplerTint | script.js:85-96 | The tint copy gives the parsed colour of a matching string and white for any other; its result lies in [0, 1] |
| HexColor.BackgroundColor | script.js:224-233 | The render copy gives the parsed colour of a matching string and black for any other; its result lies in [0, 1] |
| HexColor.Channel | script.js:89-91 | A digit pair read as a base-16 byte over 255 lies in [0, 1] |
| HexColor.ParseFormatted | script.js:86-91 | Round trip: six hex digits written from three bytes, in either case and with or without `#`, parse back to the bytes over 255 |
| HexColor.CaseInsensitive | script.js:86 | A string matches exactly when its lower-case form does, and both parse to the same colour |
| HexColor.ConfiguredColours | script.js:6-7 | The configured tint `#404040` is 64/255 per channel and the background `#141414` is 20/255 per channel; `#ffffff` is white; a non-colour falls back to white as a tint and to black as a background |
| Sampler.SamplePixels | script.js:98-129 | The nested row-major loop returns exactly the position list, colour list and particle records of the emissions of all size x size pixels |
| Sampler.Opaque | script.js:101-103 | The emission test on pixel k's alpha byte, defined by its body; SelectedIff and PixelEmittedIff state its consequences |
| Sampler.Selected | script.js:98-103 | The emitted pixel indices number at most n and all lie below n |
| Sampler.SelectedIff | script.js:100-103 | A pixel index is emitted exactly when it is in range and its alpha byte is above 10 |
| Sampler.SelectedIncreasing | script.js:98-100 | Emitted pixel indices strictly increase: emission follows row-major order |
| Sampler.SelectedCount | script.js:98-103 | The number of particles equals the number of pixels whose alpha is above 10 |
| Sampler.PixelEmittedIff | script.js:100-103 | The pixel at row i, column j emits exactly when byte `(i*S + j)*4 + 3` is above 10 |
| Sampler.PixelIndex | script.js:100 | The row-major index of (i, j) is below S*S and divides back into row i and column j |
| Sampler.RowMajorInverse | script.js:98-100 | Every index below S*S is the row-major index of its own row and column |
| Sampler.EmissionsFollowSelected | script.js:98-127 | There is one emission per emitted pixel, and emission p comes from the p-th emitted pixel |
| Sampler.EmissionOfPixel | script.js:104-126 | The particle from pixel (i, j) sits at the centre offset by (j - S/2, i - S/2); its colour is the pixel's channels over 255 times the tint, and its alpha is the alpha byte over 255, above 10/255 |
| Sampler.EmittedColourBounds | script.js:109-119 | With a tint in [0, 1], every emitted colour channel lies between 0 and the tint's channel, and alpha lies in (10/255, 1] |
| Sampler.Positions | script.js:107 | The position list has two entries per particle |
| Sampler.Colors | script.js:114-119 | The colour list has four entries per particle |
| Sampler.Seeds | script.js:121-126 | There is one particle record per emission |
| Sampler.OutputsAligned | script.js:107-126 | Entries 2p and 2p+1 of the positions and entries 4p to 4p+3 of the colours belong to particle p; particle p starts at rest with its origin at that position |
| Sampler.TwoByTwoExample | script.js:98-129 | A 2 x 2 buffer with one opaque pixel, one at alpha exactly 10 and two transparent ones yields exactly one particle, at the top-left grid cell |
| Activity.Tick | script.js:154-156 | One tick never raises the counter, and never takes a non-negative counter below zero |
| Activity.TickEffect | script.js:154-156 | A tick with the counter at or below 0 changes nothing; otherwise it lowers the counter by exactly 1 and never below 0 |
| Activity.Countdown | script.js:154-156 | n ticks from a live counter c leave max(c - n, 0) and do work min(n, c) times; from an idle counter they change nothing and do no work |
| Activity.BudgetRunsOut | script.js:154-156 | After the pointer handler's 300, exactly the first 300 ticks do work, the 301st does not, and the counter ends at 0 |
| Physics.Force | script.js:168-169 | Inside the radius and away from the pointer, the force is repulsive and of magnitude above 1 |
| Physics.ForceGrowsNearer | script.js:169 | The nearer the pointer, the stronger the push |
| Physics.Falloff | script.js:176-179 | The push multiplier is at least 0.1, and at most 1 for a non-negative distance |
| Physics.FalloffShape | script.js:176-179 | The multiplier does not grow with the distance, and it is at its 0.1 floor exactly from 1.8 times the maximum displacement on |
| Physics.Accelerate | script.js:164-185 | The push keeps the rest position; outside the radius, or exactly under the pointer, the particle is unchanged |
| Physics.PushGain | script.js:169-184 | Inside the radius, the velocity change is a negative multiple of the unit vector at angle `atan2(dy, dx)` |
| Physics.PushAway | script.js:164-184 | Inside the radius, the velocity change points away from the pointer: its dot product with the vector to the pointer is negative |
| Physics.Driven | script.js:181-188 | The push followed by the 0.82 damping keeps the rest position; with the pointer out of range the velocity is only multiplied by 0.82 |
| Physics.Spring | script.js:190-200 | The target's offset from the rest position is the old offset shrunk by the return factor plus the damped velocity |
| Physics.SoftClamp | script.js:199-216 | The clamp keeps the rest position and takes a target within the maximum displacement as it is |
| Physics.ClampActive | script.js:203-212 | A target beyond the maximum is pulled back along its own direction by a factor in (0, 1], to a displacement above the maximum and no larger than before; the velocity drops a further 30% |
| Physics.DampedScale | script.js:204-206 | The damped scale `scale + (1 - scale) * exp(-excess * 0.02)`, defined by its body; ClampFactor bounds it |
| Physics.ClampFactor | script.js:204-206 | For a displacement beyond the maximum, the damped scale lies in (0, 1] and keeps the displacement above the maximum |
| Physics.Step | script.js:160-216 | One particle's update keeps its rest position |
| Physics.AtRestStaysPut | script.js:164-216 | A particle at rest at its rest position, with the pointer outside the radius, stays exactly where and as it is |
| Relocation.GridRow | script.js:278 | The row of a particle is a non-negative integer |
| Relocation.GridCol | script.js:279 | `i % dim`, defined by its body as `i - dim * floor(i / dim)`; GridCellBounds puts it in [0, dim) |
| Relocation.GridPoint | script.js:280-281 | The repositioned point of particle i, defined by its body; GridPointInSquare, GridPointsDistinct and ResizeLayout state where it lies |
| Relocation.GridCellBounds | script.js:278-279 | The column lies in [0, dim), and row and column put the index back together as `dim*row + col` |
| Relocation.FloorUnique | script.js:278 | The row is the only integer r with `r*dim <= i < (r+1)*dim` |
| Relocation.GridRowsAscend | script.js:277-278 | A later particle never sits on an earlier row |
| Relocation.GridPointInSquare | script.js:273-281 | When dim*dim == n, every particle i < n lands in the dim x dim square centred on the canvas centre |
| Relocation.GridPointsDistinct | script.js:278-281 | No two particles get the same rest position |
| Relocation.GridOnPerfectSquare | script.js:275-279 | When n is a perfect square d*d, row and column are the integer quotient and remainder of i by d |
| Relocation.ResizeLayout | script.js:272-281 | For n > 0 particles and dim = sqrt(n), all rest positions lie in the square centred on the canvas and are pairwise distinct |
| Scene.PixelRatio | script.js:263 | A reported device pixel ratio of zero becomes 1; any other is kept |
| Scene.ToArray | script.js:131-132 | A fresh array holding exactly the given list |
| Scene.Scene.constructor | script.js:15-19 | The initial state: no particles, the pointer at (0, 0), the countdown at 0 |
| Scene.Scene.CreateParticles | script.js:79-132 | The sampled particles are appended to the list; both buffers become the sampled position and colour lists; on a first call the buffers line up with the particles |
| Scene.Scene.PointerMove | script.js:261-267 | The pointer becomes the client position relative to the canvas times the pixel ratio, and the countdown becomes 300 |
| Scene.Scene.UpdatePhysics | script.js:153-216 | The countdown takes one tick; an idle tick changes nothing; a live tick gives every particle exactly one `Step` from its own old record and old position; colours and buffer alignment are kept |
| Scene.Scene.MoveParticles | script.js:159-216 | Iteration i reads particle i and position entries 2i and 2i+1 before any of them is written, and writes only those |
| Scene.Scene.Resize | script.js:269-287 | The canvas takes its new size; with particles present, particle i gets grid cell i's rest position and is put there, with velocity kept; colours and alignment are kept |
| Scene.Scene.Relocate | script.js:278-286 | One iteration of the resize loop writes particle i's rest position and position entries 2i and 2i+1, and nothing else |

## Left out

- WebGL setup, shader compilation, buffer creation and upload, and drawing are left out: `setupWebGL`, `setupShaders`, `createBuffers`, `render` apart from its `hexToRgb`, and the `bufferSubData` calls. They are calls into a graphics API. shaders.js is not part of this model.
- Image loading and rasterising (`loadLogo`) are left out. The logo's pixel buffer is the parameter of `CreateParticles`.
- `setupCanvas`, the DOM event wiring, `getBoundingClientRect` and `devicePixelRatio` are left out. The new canvas size, the client and rectangle coordinates and the reported pixel ratio are parameters. The canvas size is a natural number, as the canvas attributes are.
- The `requestAnimationFrame` loop (`animate`, `init`) is left out. One frame is one call of `UpdatePhysics`.
- IEEE double arithmetic and `Float32Array` rounding are left out: all arithmetic is exact on reals.
- `Math.sqrt`, `Math.exp`, `Math.atan2`, `Math.cos` and `Math.sin` are not computed. They arrive as a `Math` value. The lemmas assume only these facts:
  - `sqrt` is the non-negative square root;
  - `exp` of a non-positive number lies in (0, 1];
  - `(cos θ, sin θ)` with `θ = atan2(dy, dx)` has dot product `sqrt(dx² + dy²)` with `(dx, dy)`.
- Scene.PixelRatio: `|| 1` also replaces NaN and `undefined`, which reals do not have. Only zero is modelled.
- Scene.Scene.Resize: the layout follows the code. The grid side is the unrounded `Math.sqrt(n)`, so row and column are a real floor and a real remainder. GridOnPerfectSquare shows that this agrees with the integer quotient and remainder when n is a perfect square.
- Scene.Scene.UpdatePhysics: the source updates a particle's velocity in several in-place steps. The model computes the particle's new record once and writes it once. The final state is the same, because no other reference to a particle object exists.
- Scene.Scene.MoveParticles takes the per-particle update as a function value, and `UpdatePhysics` passes it `Step`. This keeps the loop's reasoning apart from the arithmetic of the step.
- Particle objects are modelled as values in an `array<Particle>`. The source never shares a particle object between two places, so there is no aliasing to lose.
- Scene.Scene.CreateParticles: the source calls `createBuffers` and `animate` after sampling. Both are left out, as above. A second call would append to the particle list while replacing the buffers, exactly as the source does, and the buffers would no longer line up with the particles. The contract states this alignment only for a first call.
