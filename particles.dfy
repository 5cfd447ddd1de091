/** The per-particle record of script.js. A particle's live position is not part
    of it: it sits in the shared position buffer, at entries 2i and 2i+1. */
module Particles {
  datatype Particle = Particle(originalX: real, originalY: real, velocityX: real, velocityY: real)
}
