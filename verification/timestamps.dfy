/** Wall-clock readings of the eavesdroppers. */
module Timestamps {
  /** A timestamp as the eavesdroppers format it
      (`datetime.now().strftime(...)`); the clock itself is a parameter. */
  type Timestamp = string
}
