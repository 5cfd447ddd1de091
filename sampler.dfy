/** The sampling loop of `createParticles`: every pixel of a square RGBA buffer
    whose alpha exceeds a threshold becomes one particle, with a position taken
    from the pixel's row and column and a colour taken from the pixel and the
    tint. */
module Sampler {
  import opened HexColor
  import opened Particles

  /** One 8-bit channel of the pixel buffer. */
  type byte = x: int | 0 <= x < 256

  /** A pixel is emitted when its alpha is strictly above this value. */
  const AlphaThreshold := 10

  /** Pixel k (in row-major order) has alpha above the threshold. */
  predicate Opaque(pixels: seq<byte>, k: nat)
    requires 4 * k + 3 < |pixels|
  {
    pixels[4 * k + 3] > AlphaThreshold
  }

  /** The indices, in row-major order, of the pixels among the first n that are
      emitted. */
  function Selected(pixels: seq<byte>, n: nat): (sel: seq<nat>)
    requires 4 * n <= |pixels|
    ensures |sel| <= n
    ensures forall p :: 0 <= p < |sel| ==> sel[p] < n
  {
    if n == 0 then []
    else Selected(pixels, n - 1) + (if Opaque(pixels, n - 1) then [n - 1] else [])
  }

  /** What one emitted pixel contributes: its position pair and its colour quad. */
  datatype Emission = Emission(x: real, y: real, r: real, g: real, b: real, a: real)

  /** A channel byte scaled to [0, 1] and multiplied by the tint's channel. */
  function Tinted(v: byte, t: real): real {
    v as real / 255.0 * t
  }

  /** The emission of the pixel at row i, column j of a size x size buffer
      whose grid is centred on (cx, cy). */
  ghost function PixelEmission(pixels: seq<byte>, size: nat, cx: real, cy: real, tint: Rgb, i: nat, j: nat): Emission
    requires |pixels| == 4 * (size * size) && i < size && j < size
  {
    var k := PixelIndex(size, i, j);
    var half := size as real / 2.0;
    Emission(cx + (j as real - half) * 1.0, cy + (i as real - half) * 1.0,
             Tinted(pixels[4 * k], tint.r),
             Tinted(pixels[4 * k + 1], tint.g),
             Tinted(pixels[4 * k + 2], tint.b),
             pixels[4 * k + 3] as real / 255.0)
  }

  /** The emission of pixel k in row-major order. */
  ghost function Emit(pixels: seq<byte>, size: nat, cx: real, cy: real, tint: Rgb, k: nat): Emission
    requires |pixels| == 4 * (size * size) && k < size * size
  {
    DivBelow(k, size);
    PixelEmission(pixels, size, cx, cy, tint, k / size, k % size)
  }

  /** The emissions of the first n pixels, in row-major order. */
  ghost function Emissions(pixels: seq<byte>, size: nat, cx: real, cy: real, tint: Rgb, n: nat): (es: seq<Emission>)
    requires |pixels| == 4 * (size * size) && n <= size * size
  {
    if n == 0 then []
    else
      Emissions(pixels, size, cx, cy, tint, n - 1)
      + (if Opaque(pixels, n - 1) then [Emit(pixels, size, cx, cy, tint, n - 1)] else [])
  }

  /** There is one emission per selected pixel, and emission p comes from
      pixel `Selected(pixels, n)[p]`. */
  lemma {:induction false} EmissionsFollowSelected(pixels: seq<byte>, size: nat, cx: real, cy: real, tint: Rgb, n: nat)
    requires |pixels| == 4 * (size * size) && n <= size * size
    ensures |Emissions(pixels, size, cx, cy, tint, n)| == |Selected(pixels, n)|
    ensures forall p :: 0 <= p < |Selected(pixels, n)| ==>
              Emissions(pixels, size, cx, cy, tint, n)[p] == Emit(pixels, size, cx, cy, tint, Selected(pixels, n)[p])
  {
    if n > 0 {
      EmissionsFollowSelected(pixels, size, cx, cy, tint, n - 1);
    }
  }

  /** The flat position array: two entries per emission. */
  function Positions(es: seq<Emission>): (ps: seq<real>)
    ensures |ps| == 2 * |es|
  {
    if es == [] then []
    else Positions(es[..|es| - 1]) + [es[|es| - 1].x, es[|es| - 1].y]
  }

  /** The flat colour array: four entries per emission. */
  function Colors(es: seq<Emission>): (cs: seq<real>)
    ensures |cs| == 4 * |es|
  {
    if es == [] then []
    else
      var e := es[|es| - 1];
      Colors(es[..|es| - 1]) + [e.r, e.g, e.b, e.a]
  }

  /** The particle records: each at rest at its emitted position. */
  function Seeds(es: seq<Emission>): (ps: seq<Particle>)
    ensures |ps| == |es|
  {
    if es == [] then []
    else
      var e := es[|es| - 1];
      Seeds(es[..|es| - 1]) + [Particle(e.x, e.y, 0.0, 0.0)]
  }

  /** The row-major index of the pixel at row i, column j, which the loop
      multiplies by 4 to reach the pixel's first byte. */
  ghost function PixelIndex(size: nat, i: nat, j: nat): (k: nat)
    requires i < size && j < size
    ensures k < size * size
    ensures k / size == i && k % size == j
  {
    MulBelow(i, size);
    DivModUnique(i * size + j, size, i, j);
    RowsAreaIsProduct(i, size);
    RowsArea(i, size) + j
  }

  lemma MulBelow(i: nat, size: nat)
    requires i < size
    ensures i * size + size <= size * size
  {
    MulAtLeast(size - i, size);
    assert (size - i) * size == size * size - i * size;
  }

  /** A positive multiple of d is at least d. */
  lemma {:induction false} MulAtLeast(a: int, d: nat)
    requires a >= 1
    ensures a * d >= d
  {
    if a > 1 {
      MulAtLeast(a - 1, d);
      assert a * d == (a - 1) * d + d;
    }
  }

  /** Row-major indexing is inverted by division and remainder. */
  lemma RowMajorInverse(k: nat, size: nat)
    requires k < size * size
    ensures size > 0 && k / size < size && PixelIndex(size, k / size, k % size) == k
  {
    DivBelow(k, size);
  }

  /** An index below size * size has its row below size. */
  lemma DivBelow(k: nat, size: nat)
    requires k < size * size
    ensures size > 0 && k / size < size
  {
    if size > 0 && k / size >= size {
      MulMono(k / size, size, size);
    }
  }

  lemma MulMono(a: int, b: int, d: nat)
    requires a >= b
    ensures a * d >= b * d
  {
    if a > b {
      MulAtLeast(a - b, d);
      assert a * d == (a - b) * d + b * d;
    }
  }

  lemma DivModUnique(k: int, d: int, q: int, r: int)
    requires d > 0 && 0 <= r < d && k == q * d + r
    ensures k / d == q && k % d == r
  {
    var q', r' := k / d, k % d;
    assert k == q' * d + r' && 0 <= r' < d;
    assert (q - q') * d == r' - r;
    if q > q' {
      MulAtLeast(q - q', d);
    } else if q < q' {
      MulAtLeast(q' - q, d);
    }
  }

  lemma Append(es: seq<Emission>, e: Emission)
    ensures Positions(es + [e]) == Positions(es) + [e.x, e.y]
    ensures Colors(es + [e]) == Colors(es) + [e.r, e.g, e.b, e.a]
    ensures Seeds(es + [e]) == Seeds(es) + [Particle(e.x, e.y, 0.0, 0.0)]
  {
    assert (es + [e])[..|es|] == es;
  }

  /** The nested row-major loop of `createParticles`: it returns the position
      array, the colour array and the particle records it pushes. */
  method SamplePixels(pixels: seq<byte>, size: nat, cx: real, cy: real, tint: Rgb)
    returns (positions: seq<real>, colors: seq<real>, seeds: seq<Particle>)
    requires |pixels| == 4 * (size * size)
    ensures positions == Positions(Emissions(pixels, size, cx, cy, tint, size * size))
    ensures colors == Colors(Emissions(pixels, size, cx, cy, tint, size * size))
    ensures seeds == Seeds(Emissions(pixels, size, cx, cy, tint, size * size))
  {
    positions, colors, seeds := [], [], [];
    ghost var done: seq<Emission> := [];
    RowsAreaIsProduct(size, size);
    var i := 0;
    while i < size
      invariant 0 <= i <= size
      invariant RowsArea(i, size) <= size * size
      invariant done == Emissions(pixels, size, cx, cy, tint, RowsArea(i, size))
      invariant positions == Positions(done) && colors == Colors(done) && seeds == Seeds(done)
    {
      RowsAreaBelow(i, size, size);
      assert RowsArea(i, size) + size <= size * size;
      var j := 0;
      while j < size
        invariant 0 <= j <= size
        invariant RowsArea(i, size) + j <= size * size
        invariant done == Emissions(pixels, size, cx, cy, tint, RowsArea(i, size) + j)
        invariant positions == Positions(done) && colors == Colors(done) && seeds == Seeds(done)
      {
        RowsAreaIsProduct(i, size);
        var pixelIndex := (i * size + j) * 4;
        SampleStep(pixels, size, cx, cy, tint, i, j, RowsArea(i, size) + j);
        var alpha := pixels[pixelIndex + 3];
        if alpha > AlphaThreshold {
          var particleX := cx + (j as real - size as real / 2.0) * 1.0;
          var particleY := cy + (i as real - size as real / 2.0) * 1.0;
          positions := positions + [particleX, particleY];
          var r, g, b := Tinted(pixels[pixelIndex], tint.r), Tinted(pixels[pixelIndex + 1], tint.g),
                         Tinted(pixels[pixelIndex + 2], tint.b);
          colors := colors + [r, g, b, alpha as real / 255.0];
          seeds := seeds + [Particle(particleX, particleY, 0.0, 0.0)];
          ghost var e := Emission(particleX, particleY, r, g, b, alpha as real / 255.0);
          assert e == PixelEmission(pixels, size, cx, cy, tint, i, j);
          Append(done, e);
          done := done + [e];
        }
        assert done == Emissions(pixels, size, cx, cy, tint, RowsArea(i, size) + j + 1);
        j := j + 1;
      }
      i := i + 1;
    }
  }

  /** The first i rows of a grid `size` wide, counted by repeated addition. */
  ghost function RowsArea(i: nat, size: nat): nat {
    if i == 0 then 0 else RowsArea(i - 1, size) + size
  }

  lemma {:induction false} RowsAreaIsProduct(i: nat, size: nat)
    ensures RowsArea(i, size) == i * size
  {
    if i > 0 {
      RowsAreaIsProduct(i - 1, size);
      assert i * size == (i - 1) * size + size;
    }
  }

  lemma {:induction false} RowsAreaBelow(i: nat, n: nat, size: nat)
    requires i < n
    ensures RowsArea(i, size) + size <= RowsArea(n, size)
  {
    if i + 1 < n {
      RowsAreaBelow(i, n - 1, size);
    }
  }

  /** One step of the inner loop: the pixel at row i, column j, which is pixel
      k in row-major order, adds its emission exactly when its alpha is above
      the threshold. */
  lemma SampleStep(pixels: seq<byte>, size: nat, cx: real, cy: real, tint: Rgb, i: nat, j: nat, k: nat)
    requires |pixels| == 4 * (size * size) && i < size && j < size && k == RowsArea(i, size) + j
    ensures k == PixelIndex(size, i, j)
    ensures Emissions(pixels, size, cx, cy, tint, k + 1)
            == Emissions(pixels, size, cx, cy, tint, k)
               + if Opaque(pixels, k) then [PixelEmission(pixels, size, cx, cy, tint, i, j)] else []
  {
    RowsAreaIsProduct(i, size);
    assert k == PixelIndex(size, i, j);
  }

  /** A pixel index is selected exactly when it is in range and its alpha is
      above the threshold. */
  lemma {:induction false} SelectedIff(pixels: seq<byte>, n: nat, k: nat)
    requires 4 * n <= |pixels|
    ensures k in Selected(pixels, n) <==> k < n && Opaque(pixels, k)
  {
    if n > 0 {
      SelectedIff(pixels, n - 1, k);
    }
  }

  /** Emission follows row-major order: the selected indices strictly increase. */
  lemma {:induction false} SelectedIncreasing(pixels: seq<byte>, n: nat)
    requires 4 * n <= |pixels|
    ensures forall p, q :: 0 <= p < q < |Selected(pixels, n)| ==> Selected(pixels, n)[p] < Selected(pixels, n)[q]
  {
    if n > 0 {
      SelectedIncreasing(pixels, n - 1);
    }
  }

  /** The pixels among the first n whose alpha is above the threshold. */
  function OpaquePixels(pixels: seq<byte>, n: nat): set<nat>
    requires 4 * n <= |pixels|
  {
    set k: nat | k < n && Opaque(pixels, k)
  }

  /** There are as many particles as pixels with alpha above the threshold. */
  lemma {:induction false} SelectedCount(pixels: seq<byte>, n: nat)
    requires 4 * n <= |pixels|
    ensures |Selected(pixels, n)| == |OpaquePixels(pixels, n)|
  {
    if n == 0 {
      assert OpaquePixels(pixels, 0) == {};
    } else {
      SelectedCount(pixels, n - 1);
      var before := OpaquePixels(pixels, n - 1);
      assert n - 1 !in before;
      if Opaque(pixels, n - 1) {
        assert OpaquePixels(pixels, n) == before + {n - 1};
      } else {
        assert OpaquePixels(pixels, n) == before;
      }
    }
  }

  /** The pixel at row i, column j gives a particle exactly when the byte at
      `(i * size + j) * 4 + 3` is above the threshold. */
  lemma PixelEmittedIff(pixels: seq<byte>, size: nat, i: nat, j: nat)
    requires |pixels| == 4 * (size * size) && i < size && j < size
    ensures PixelIndex(size, i, j) in Selected(pixels, size * size)
            <==> pixels[PixelIndex(size, i, j) * 4 + 3] > AlphaThreshold
  {
    SelectedIff(pixels, size * size, PixelIndex(size, i, j));
  }

  /** The particle that comes from the pixel at row i, column j sits at the
      canvas centre offset by `(j - size/2, i - size/2)`, and its colour is the
      pixel's channels over 255 times the tint, with alpha over 255, which is
      always above 10/255. */
  lemma EmissionOfPixel(pixels: seq<byte>, size: nat, cx: real, cy: real, tint: Rgb, i: nat, j: nat, p: nat)
    requires |pixels| == 4 * (size * size) && i < size && j < size
    requires p < |Selected(pixels, size * size)| && Selected(pixels, size * size)[p] == PixelIndex(size, i, j)
    ensures |Emissions(pixels, size, cx, cy, tint, size * size)| == |Selected(pixels, size * size)|
    ensures var e := Emissions(pixels, size, cx, cy, tint, size * size)[p];
            var k := PixelIndex(size, i, j);
            && e.x == cx + (j as real - size as real / 2.0)
            && e.y == cy + (i as real - size as real / 2.0)
            && e.r == pixels[4 * k] as real / 255.0 * tint.r
            && e.g == pixels[4 * k + 1] as real / 255.0 * tint.g
            && e.b == pixels[4 * k + 2] as real / 255.0 * tint.b
            && e.a == pixels[4 * k + 3] as real / 255.0
            && e.a > AlphaThreshold as real / 255.0
  {
    var k := PixelIndex(size, i, j);
    SelectedIff(pixels, size * size, k);
    EmissionsFollowSelected(pixels, size, cx, cy, tint, size * size);
    assert Emissions(pixels, size, cx, cy, tint, size * size)[p] == Emit(pixels, size, cx, cy, tint, k);
    assert Emit(pixels, size, cx, cy, tint, k) == PixelEmission(pixels, size, cx, cy, tint, i, j);
  }

  /** Every emitted colour has alpha above 10/255 and, with a tint whose
      channels lie in [0, 1], colour channels between 0 and the tint's. */
  lemma EmittedColourBounds(pixels: seq<byte>, size: nat, cx: real, cy: real, tint: Rgb, p: nat)
    requires |pixels| == 4 * (size * size) && InUnitRange(tint)
    requires p < |Selected(pixels, size * size)|
    ensures |Emissions(pixels, size, cx, cy, tint, size * size)| == |Selected(pixels, size * size)|
    ensures var e := Emissions(pixels, size, cx, cy, tint, size * size)[p];
            && AlphaThreshold as real / 255.0 < e.a <= 1.0
            && 0.0 <= e.r <= tint.r && 0.0 <= e.g <= tint.g && 0.0 <= e.b <= tint.b
  {
    var k := Selected(pixels, size * size)[p];
    SelectedIff(pixels, size * size, k);
    EmissionsFollowSelected(pixels, size, cx, cy, tint, size * size);
    RowMajorInverse(k, size);
    assert Emissions(pixels, size, cx, cy, tint, size * size)[p] == Emit(pixels, size, cx, cy, tint, k);
    PixelEmissionBounds(pixels, size, cx, cy, tint, k / size, k % size);
  }

  lemma PixelEmissionBounds(pixels: seq<byte>, size: nat, cx: real, cy: real, tint: Rgb, i: nat, j: nat)
    requires |pixels| == 4 * (size * size) && InUnitRange(tint) && i < size && j < size
    requires Opaque(pixels, PixelIndex(size, i, j))
    ensures var e := PixelEmission(pixels, size, cx, cy, tint, i, j);
            && AlphaThreshold as real / 255.0 < e.a <= 1.0
            && 0.0 <= e.r <= tint.r && 0.0 <= e.g <= tint.g && 0.0 <= e.b <= tint.b
  {
    var k := PixelIndex(size, i, j);
    ChannelScale(pixels[4 * k], tint.r);
    ChannelScale(pixels[4 * k + 1], tint.g);
    ChannelScale(pixels[4 * k + 2], tint.b);
  }

  lemma ChannelScale(v: byte, t: real)
    requires 0.0 <= t <= 1.0
    ensures 0.0 <= Tinted(v, t) <= t
  {
    var f := v as real / 255.0;
    assert 0.0 <= f <= 1.0;
    assert f * t <= 1.0 * t;
  }

  /** The three output arrays stay aligned: entries 2p and 2p+1 of the
      positions and entries 4p to 4p+3 of the colours belong to particle p, which
      starts at rest with its origin at that position. */
  lemma {:induction false} OutputsAligned(es: seq<Emission>, p: nat)
    requires p < |es|
    ensures Positions(es)[2 * p] == es[p].x && Positions(es)[2 * p + 1] == es[p].y
    ensures Colors(es)[4 * p .. 4 * p + 4] == [es[p].r, es[p].g, es[p].b, es[p].a]
    ensures Seeds(es)[p] == Particle(Positions(es)[2 * p], Positions(es)[2 * p + 1], 0.0, 0.0)
  {
    var last := |es| - 1;
    if p < last {
      OutputsAligned(es[..last], p);
      assert es[..last][p] == es[p];
      assert Colors(es)[4 * p .. 4 * p + 4] == Colors(es[..last])[4 * p .. 4 * p + 4];
    } else {
      assert Colors(es)[4 * p .. 4 * p + 4] == Colors(es)[4 * last ..];
    }
  }

  /** A 2 x 2 buffer with one opaque black pixel, one at exactly the threshold
      and two transparent ones, under a white tint (what `#ffffff` parses to),
      yields one particle, black and opaque, at the top-left cell of the grid. */
  lemma TwoByTwoExample(cx: real, cy: real)
    ensures Emissions([0, 0, 0, 255, 9, 9, 9, 10, 0, 0, 0, 0, 0, 0, 0, 0], 2, cx, cy, White, 4)
            == [Emission(cx - 1.0, cy - 1.0, 0.0, 0.0, 0.0, 1.0)]
  {
    var pixels: seq<byte> := [0, 0, 0, 255, 9, 9, 9, 10, 0, 0, 0, 0, 0, 0, 0, 0];
    var first := PixelEmission(pixels, 2, cx, cy, White, 0, 0);
    assert first == Emission(cx - 1.0, cy - 1.0, 0.0, 0.0, 0.0, 1.0);
    assert Emit(pixels, 2, cx, cy, White, 0) == first;
    assert Emissions(pixels, 2, cx, cy, White, 1) == [first];
    assert !Opaque(pixels, 1);
    assert Emissions(pixels, 2, cx, cy, White, 2) == [first];
    assert !Opaque(pixels, 2);
    assert Emissions(pixels, 2, cx, cy, White, 3) == [first];
    assert !Opaque(pixels, 3);
  }
}
