/** The conversions between int and size_t, 32 and 64 bits wide. */
module Integers {

  function ToSize(i: int): (s: nat)
    requires -0x8000_0000 <= i <= 0x7fff_ffff
    ensures s < 0x1_0000_0000_0000_0000 && (i >= 0 ==> s == i)
  {
    if i < 0 then i + 0x1_0000_0000_0000_0000 else i
  }

  function ToInt(s: nat): int {
    var low := s % 0x1_0000_0000;
    if low >= 0x8000_0000 then low - 0x1_0000_0000 else low
  }

  /** Mixed arithmetic goes through size_t; for values that fit an int it is plain arithmetic. */
  lemma {:induction false} MixedArithmetic(i: int)
    requires -0x8000_0000 <= i <= 0x7fff_ffff
    ensures ToInt(ToSize(i)) == i
  {
    if i < 0 {
      assert ToSize(i) % 0x1_0000_0000 == i + 0x1_0000_0000;
    }
  }
}
