/** Bytes as 8-bit vectors, for the one place where the dumper works on
    bits: the first-block mask. ByteOf makes the bit-vector that holds a
    number from 0 to 255, one bit at a time, because the verifier relates a
    bit-vector to its value as an integer best in small steps. */
module Bytes {

  /** Shifting a byte below 0x80 left by one and or-ing in a bit doubles its
      value and adds the bit. */
  lemma ShiftInBit(y: bv8, bit: bv8)
    requires y < 0x80 && bit < 2
    ensures ((y << 1) | bit) as int == 2 * (y as int) + bit as int
  {
  }

  lemma ByteBelowHalf(y: bv8)
    requires y as int < 0x80
    ensures y < 0x80
  {
  }

  /** The byte whose value is x: Go's byte(x) for 0 <= x < 256, assembled
      from x's bits, most significant first. */
  function ByteOf(x: nat): (r: bv8)
    requires x < 256
    ensures r as int == x
    decreases x
  {
    if x == 0 then 0
    else
      var y := ByteOf(x / 2);
      var bit: bv8 := if x % 2 == 1 then 1 else 0;
      ByteBelowHalf(y);
      ShiftInBit(y, bit);
      (y << 1) | bit
  }
}
