/** Bytes as bit vectors and as integers. */
module ByteConversion {
  lemma ByteOf(x: int)
    requires 0 <= x < 256
    ensures (x as bv8) as int == x
  {}

  lemma MaskLow(b: bv8)
    ensures (b & 248) as int == b as int - b as int % 8
  {}

  lemma MaskHigh(b: bv8)
    ensures (b & 63) | 64 == (b & 127) | 64
    ensures ((b & 127) | 64) as int == 64 + b as int % 64
  {}

  lemma HighNibble(b: bv8)
    ensures b & 240 == 0 <==> b as int < 16
  {}

  lemma ByteBack(b: bv8)
    ensures (b as nat) < 256 && (b as nat) as bv8 == b
  {}
}
