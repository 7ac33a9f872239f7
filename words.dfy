/** 32-bit words as bit-vectors: the type of a log block's header number
    when the first-block mask is applied to it. A word is assembled from four
    bytes with shifts and ors, and its value as an integer follows one
    Horner step at a time. */
module Words {

  import opened Bytes
  import opened BigEndian

  /** One Horner step in 32-bit arithmetic: shifting a word below 2^24 left
      by 8 and or-ing in a byte multiplies its value by 256 and adds the byte. */
  lemma ShiftInByte(y: bv32, b: bv8)
    requires y < 0x100_0000
    ensures ((y << 8) | (b as bv32)) as int == (y as int) * 0x100 + b as int
  {
  }

  lemma WordBelow24(y: bv32)
    requires y as int < 0x100_0000
    ensures y < 0x100_0000
  {
  }

  lemma WordRoundTrip(b: bv32)
    ensures (b as int) as bv32 == b
  {
  }

  /** The first-block flag: bit 31 of a log block's header number. */
  const FirstBlockMask: bv32 := 0x8000_0000

  /** Bit 31 of a word is set exactly when the word's value is at least 2^31. */
  lemma TopBit(b: bv32)
    ensures (b & FirstBlockMask == FirstBlockMask) <==> b as int >= 0x8000_0000
  {
  }

  /** The w <= 4 bytes at buf[off..off + w] assembled into a 32-bit word with
      shifts and ors, the way binary.BigEndian.Uint32 does it; its value is
      the field's big-endian reading. */
  function Word32(buf: seq<byte>, off: nat, w: nat): (r: bv32)
    requires w <= 4 && off + w <= |buf|
    ensures r as int == BE(buf, off, w)
    decreases w
  {
    if w == 0 then 0
    else
      var y := Word32(buf, off, w - 1);
      assert Pow256(w - 1) <= 0x100_0000 by {
        Pow256Mono(w - 1, 3);
        Pow256Widths();
      }
      var b := ByteOf(buf[off + w - 1] as int);
      WordBelow24(y);
      ShiftInByte(y, b);
      (y << 8) | (b as bv32)
  }

  /** `h & 0x80000000 == 0x80000000` for a 32-bit unsigned integer h. */
  predicate TopBitSet(h: nat)
    requires h < 0x1_0000_0000
  {
    (h as bv32) & FirstBlockMask == FirstBlockMask
  }

  /** The mask test on h agrees with the value test, given any word hb that
      holds h. */
  lemma TopBitSetIff(h: nat, hb: bv32)
    requires hb as int == h
    ensures TopBitSet(h) <==> h >= 0x8000_0000
  {
    WordRoundTrip(hb);
    TopBit(hb);
  }
}
