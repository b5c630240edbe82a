/** What the stream functions share: error codes, the size of the safety window and the
    32-bit conversions between device registers and signed space counters. */
module StreamTypes {
  const NUM_STREAM: nat := 8
  const SAFETY_WINDOW: nat := 128

  type Byte = x: int | 0 <= x < 256

  datatype Errno = EBADF | EINVAL | ENOTTY

  /** What a call that may wait for the card came to: a count or an offset, an error, or
      still polling when the caller stopped looking. */
  datatype Outcome = Done(value: nat) | Failed(errno: Errno) | Polling

  /** Storing a 32-bit unsigned difference in an `int32_t`. */
  function ToInt32(x: int): int {
    var u := x % 0x1_0000_0000;
    if u >= 0x8000_0000 then u - 0x1_0000_0000 else u
  }

  lemma ToInt32InRange(x: int)
    requires -0x8000_0000 <= x < 0x8000_0000
    ensures ToInt32(x) == x
  {
    if x < 0 {
      assert x % 0x1_0000_0000 == (x + 0x1_0000_0000) % 0x1_0000_0000;
    }
  }
}
