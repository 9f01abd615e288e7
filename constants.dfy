/** The integer constants of the pipeline (src/CONSTANTS.js). */
module Constants {

  /** Retry cap of the island-removal loop for one pixel. */
  const MAX_REMOVALS: nat := 5

  /** Values of a binary mask cell. */
  const ZERO: int := 0
  const ONE: int := 1

  /** Channels of the opaque black background used by the filter and the labeler. */
  const BACKGROUND_R: int := 0
  const BACKGROUND_G: int := 0
  const BACKGROUND_B: int := 0
  const BACKGROUND_A: int := 255
}
