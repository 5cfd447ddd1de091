/** The module-level state of script.js and the handlers that change it: the
    particle records, the position and colour buffers handed to the GPU, the
    pointer position and the activity countdown. */
module Scene {
  import opened Config
  import opened HexColor
  import opened Particles
  import opened Sampler
  import opened Activity
  import opened JsMath
  import opened Physics
  import opened Relocation

  /** `window.devicePixelRatio || 1`: a ratio of zero falls back to one. */
  function PixelRatio(reported: real): (ratio: real)
    ensures reported == 0.0 ==> ratio == 1.0
    ensures reported != 0.0 ==> ratio == reported
  {
    if reported == 0.0 then 1.0 else reported
  }

  /** A fresh array holding the given sequence, as `new Float32Array(list)`
      does for a list of numbers. */
  method ToArray<T>(s: seq<T>) returns (a: array<T>)
    ensures fresh(a) && a[..] == s
  {
    a := new T[|s|](k requires 0 <= k < |s| => s[k]);
  }

  class Scene {
    /** The canvas size in device pixels. */
    var width: nat
    var height: nat
    var particles: array<Particle>
    /** Two entries (x, y) per particle: the live positions. */
    var positionArray: array<real>
    /** Four entries (r, g, b, a) per particle. */
    var colorArray: array<real>
    var mouseX: real
    var mouseY: real
    var animationCount: int

    /** The buffers line up with the particle list. */
    ghost predicate Valid()
      reads this
    {
      && positionArray.Length == 2 * particles.Length
      && colorArray.Length == 4 * particles.Length
      && positionArray != colorArray
    }

    /** The state before the logo has loaded: no particles, the pointer at
        the origin, the countdown exhausted. */
    constructor(width: nat, height: nat)
      ensures Valid()
      ensures this.width == width && this.height == height
      ensures particles.Length == 0
      ensures mouseX == 0.0 && mouseY == 0.0 && animationCount == 0
    {
      this.width, this.height := width, height;
      particles := new Particle[0];
      positionArray := new real[0];
      colorArray := new real[0];
      mouseX, mouseY := 0.0, 0.0;
      animationCount := 0;
    }

    /** `createParticles`: samples the logo's RGBA pixels around the canvas
        centre with the configured tint, appends the new particles and
        replaces both buffers by the sampled ones. Only a first call leaves
        the buffers lined up with the particle list. */
    method CreateParticles(pixels: seq<byte>)
      requires |pixels| == 4 * (LogoSize * LogoSize)
      modifies this
      ensures var es := Emissions(pixels, LogoSize, old(width) as real / 2.0, old(height) as real / 2.0,
                                  SamplerTint(LogoColor), LogoSize * LogoSize);
              && particles[..] == old(particles[..]) + Seeds(es)
              && positionArray[..] == Positions(es)
              && colorArray[..] == Colors(es)
      ensures fresh(particles) && fresh(positionArray) && fresh(colorArray)
      ensures width == old(width) && height == old(height)
      ensures mouseX == old(mouseX) && mouseY == old(mouseY) && animationCount == old(animationCount)
      ensures old(particles.Length) == 0 ==> Valid()
    {
      var centerX := width as real / 2.0;
      var centerY := height as real / 2.0;
      var logoTint := SamplerTint(LogoColor);
      var positions, colors, seeds := SamplePixels(pixels, LogoSize, centerX, centerY, logoTint);
      particles := ToArray(particles[..] + seeds);
      positionArray := ToArray(positions);
      colorArray := ToArray(colors);
    }

    /** The `mousemove` handler: the pointer position relative to the canvas,
        in device pixels, and a full activity budget. */
    method PointerMove(clientX: real, clientY: real, rectLeft: real, rectTop: real, devicePixelRatio: real)
      modifies this`mouseX, this`mouseY, this`animationCount
      ensures mouseX == (clientX - rectLeft) * PixelRatio(devicePixelRatio)
      ensures mouseY == (clientY - rectTop) * PixelRatio(devicePixelRatio)
      ensures animationCount == Budget && Works(animationCount)
    {
      var dpr := PixelRatio(devicePixelRatio);
      mouseX := (clientX - rectLeft) * dpr;
      mouseY := (clientY - rectTop) * dpr;
      animationCount := Budget;
    }

    /** `updatePhysics`: an exhausted countdown leaves everything as it is;
        otherwise the countdown drops by one and every particle takes one
        `Step` from its old record and old position. */
    method UpdatePhysics(m: Math)
      requires Valid()
      modifies this`animationCount, particles, positionArray
      ensures Valid()
      ensures animationCount == Tick(old(animationCount))
      ensures colorArray[..] == old(colorArray[..])
      ensures !Works(old(animationCount)) ==>
                particles[..] == old(particles[..]) && positionArray[..] == old(positionArray[..])
      ensures Works(old(animationCount)) ==>
                forall i :: 0 <= i < particles.Length ==>
                  Step(m, mouseX, mouseY, old(particles[i]), old(positionArray[2 * i]), old(positionArray[2 * i + 1]))
                  == Moved(particles[i], positionArray[2 * i], positionArray[2 * i + 1])
    {
      if animationCount <= 0 {
        return;
      }
      animationCount := animationCount - 1;
      var mx, my := mouseX, mouseY;
      MoveParticles((p, x, y) => Step(m, mx, my, p, x, y));
    }

    /** The per-particle loop of `updatePhysics`, for a given per-particle
        update: every particle is updated from its old record and its old
        position, in index order, each reading only its own entries. */
    method MoveParticles(step: (Particle, real, real) -> Moved)
      requires Valid()
      modifies particles, positionArray
      ensures forall i :: 0 <= i < particles.Length ==>
                step(old(particles[i]), old(positionArray[2 * i]), old(positionArray[2 * i + 1]))
                == Moved(particles[i], positionArray[2 * i], positionArray[2 * i + 1])
    {
      ghost var before := particles[..];
      ghost var positionsBefore := positionArray[..];
      var i := 0;
      while i < particles.Length
        invariant 0 <= i <= particles.Length
        invariant before == old(particles[..]) && positionsBefore == old(positionArray[..])
        invariant forall k :: 0 <= k < i ==>
                    step(before[k], positionsBefore[2 * k], positionsBefore[2 * k + 1])
                    == Moved(particles[k], positionArray[2 * k], positionArray[2 * k + 1])
        invariant forall k :: i <= k < particles.Length ==> particles[k] == before[k]
        invariant forall k :: 2 * i <= k < positionArray.Length ==> positionArray[k] == positionsBefore[k]
      {
        var currentX := positionArray[2 * i];
        var currentY := positionArray[2 * i + 1];
        var moved := step(particles[i], currentX, currentY);
        particles[i] := moved.particle;
        positionArray[2 * i] := moved.x;
        positionArray[2 * i + 1] := moved.y;
        i := i + 1;
      }
    }

    /** The `resize` handler, for a canvas whose new size is given: when there
        are particles, particle i gets the rest position of cell i of a grid of
        side sqrt(n) centred on the new canvas, and is put there; velocities,
        colours, the pointer and the countdown are kept. */
    method Resize(sqrt: real -> real, newWidth: nat, newHeight: nat)
      requires Valid() && IsSqrt(sqrt)
      modifies this`width, this`height, particles, positionArray
      ensures Valid()
      ensures width == newWidth && height == newHeight
      ensures colorArray[..] == old(colorArray[..])
      ensures particles.Length == 0 ==> positionArray[..] == old(positionArray[..])
      ensures particles.Length > 0 ==>
                var dim := sqrt(particles.Length as real);
                && dim > 0.0
                && forall i :: 0 <= i < particles.Length ==>
                     var g := GridPoint(dim, newWidth as real / 2.0, newHeight as real / 2.0, i);
                     && particles[i] == old(particles[i]).(originalX := g.0, originalY := g.1)
                     && positionArray[2 * i] == g.0 && positionArray[2 * i + 1] == g.1
    {
      width, height := newWidth, newHeight;
      var n := particles.Length;
      if n > 0 {
        var centerX := width as real / 2.0;
        var centerY := height as real / 2.0;
        SqrtPositive(sqrt, n as real);
        var dim := sqrt(n as real);
        ghost var before := particles[..];
        var i := 0;
        while i < n
          invariant 0 <= i <= n
          invariant width == newWidth && height == newHeight
          invariant before == old(particles[..])
          invariant forall k :: 0 <= k < i ==>
                      var g := GridPoint(dim, centerX, centerY, k);
                      && particles[k] == before[k].(originalX := g.0, originalY := g.1)
                      && positionArray[2 * k] == g.0 && positionArray[2 * k + 1] == g.1
          invariant forall k :: i <= k < n ==> particles[k] == before[k]
        {
          Relocate(dim, centerX, centerY, i);
          i := i + 1;
        }
      }
    }

    /** One pass of the loop body of the `resize` handler: particle i gets
        the rest position of grid cell i and is put there; nothing else
        changes. */
    method Relocate(dim: real, centerX: real, centerY: real, i: nat)
      requires Valid() && dim > 0.0 && i < particles.Length
      modifies particles, positionArray
      ensures var g := GridPoint(dim, centerX, centerY, i);
              && particles[i] == old(particles[i]).(originalX := g.0, originalY := g.1)
              && positionArray[2 * i] == g.0 && positionArray[2 * i + 1] == g.1
      ensures forall k :: 0 <= k < particles.Length && k != i ==> particles[k] == old(particles[k])
      ensures forall k :: 0 <= k < positionArray.Length && k != 2 * i && k != 2 * i + 1 ==>
                positionArray[k] == old(positionArray[k])
    {
      var row := (i as real / dim).Floor;
      var col := i as real - dim * row as real;
      var repositionX := centerX + (col - dim / 2.0) * 1.0;
      var repositionY := centerY + (row as real - dim / 2.0) * 1.0;
      particles[i] := particles[i].(originalX := repositionX, originalY := repositionY);
      positionArray[2 * i] := repositionX;
      positionArray[2 * i + 1] := repositionY;
    }
  }
}
