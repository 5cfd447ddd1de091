/** The static configuration object of the effect: sample grid side, colours and
    the constants of the physics step. */
module Config {
  /** Side of the square pixel grid the logo is rasterised into and sampled from. */
  const LogoSize: nat := 1250
  /** Tint multiplied into every sampled pixel colour. */
  const LogoColor: string := "#404040"
  /** Colour the canvas is cleared to before each draw. */
  const CanvasBg: string := "#141414"
  /** Pointer influence radius, in canvas pixels. */
  const DistortionRadius: real := 3000.0
  /** Scale of the pointer's push on a particle's velocity. */
  const ForceStrength: real := 0.0035
  /** Offset from the rest position beyond which the soft clamp acts. */
  const MaxDisplacement: real := 100.0
  /** Stiffness of the spring pulling a particle back to its rest position. */
  const ReturnForce: real := 0.025
}
