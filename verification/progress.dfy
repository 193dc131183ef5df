/** What a download progress callback does to its bar. */
module ProgressDisplay {

  /** Show `downloaded` bytes, or complete the bar. */
  datatype Display = Update(downloaded: int) | Finish
}
