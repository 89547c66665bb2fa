/** Shape of one sprite-sheet animation clip, shared by hero and creep
    configuration data. */
module Frames {

  /** `totalFrames` frames of `frameWidth` x `frameHeight` pixels, each shown
      for at least `frameInterval` milliseconds. */
  datatype Clip = Clip(totalFrames: nat, frameInterval: nat, frameWidth: nat, frameHeight: nat)

  /** Every clip in the configuration has at least one frame and a non-zero
      frame height, so frame arithmetic and scaling are defined. */
  predicate Playable(c: Clip) {
    c.totalFrames > 0 && c.frameHeight > 0
  }

  /** A clip cut from a sheet of square frames of `size` pixels. */
  function SheetClip(totalFrames: nat, frameInterval: nat, size: nat): Clip {
    Clip(totalFrames, frameInterval, size, size)
  }
}
