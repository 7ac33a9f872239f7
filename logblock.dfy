/** A log block: every 512-byte block from offset 2048 on, read into
    main.go's LogBlock struct, and the first-block flag the dumper derives
    from its header number. */
module LogBlockRecord {

  import opened BigEndian
  import opened Layout
  import opened Words

  /** The 494 data bytes of a log block, a Go [494]byte. */
  const PayloadSize: nat := 494
  type Payload = s: seq<byte> | |s| == PayloadSize witness Zeros(PayloadSize)

  datatype LogBlock = LogBlock(
    headerNumber: uint32, blockSize: uint16, offset: uint16, currentActiveCheckpoint: uint32,
    hdrSize: uint16, data: Payload, checksum: uint32)

  /** The value of `LogBlock{}`. */
  const ZeroLogBlock := LogBlock(0, 0, 0, 0, 0, Zeros(PayloadSize), 0)

  /** The LogBlock struct: five header integers, the data array, the
      checksum; no padding. */
  function LogBlockLayout(): (layout: Fields)
    ensures Size(layout) == RecordSize
  {
    Cons(Uint(4), Cons(Uint(2), Cons(Uint(2), Cons(Uint(4), Cons(Uint(2),
    Cons(ByteArray(494), Cons(Uint(4), Nil)))))))
  }

  function LogBlockValues(b: LogBlock): seq<Value>
  {
    [Num(b.headerNumber as nat), Num(b.blockSize as nat), Num(b.offset as nat),
     Num(b.currentActiveCheckpoint as nat), Num(b.hdrSize as nat), Raw(b.data),
     Num(b.checksum as nat)]
  }

  const DataStart: nat := 14
  const DataEnd: nat := 508

  function DecodeLogBlock(buf: seq<byte>): LogBlock
    requires |buf| == RecordSize
  {
    LogBlock(U32(buf, 0), U16(buf, 4), U16(buf, 6), U32(buf, 8), U16(buf, 12),
             buf[DataStart..DataEnd], U32(buf, DataEnd))
  }

  function LogBlockByte(b: LogBlock, i: nat): byte
  {
    Pow256Widths();
    if i < 4 then EncodeBE(b.headerNumber as nat, 4)[i]
    else if i < 6 then EncodeBE(b.blockSize as nat, 2)[i - 4]
    else if i < 8 then EncodeBE(b.offset as nat, 2)[i - 6]
    else if i < 12 then EncodeBE(b.currentActiveCheckpoint as nat, 4)[i - 8]
    else if i < 14 then EncodeBE(b.hdrSize as nat, 2)[i - 12]
    else if i < 508 then b.data[i - 14]
    else if i < 512 then EncodeBE(b.checksum as nat, 4)[i - 508]
    else 0
  }

  function EncodeLogBlock(b: LogBlock): (buf: seq<byte>)
    ensures |buf| == RecordSize
  {
    seq(RecordSize, i requires 0 <= i => LogBlockByte(b, i))
  }

  /** DecodeLogBlock reads exactly what binary.Read stores when it walks the
      LogBlock struct declaration. */
  lemma DecodeLogBlockFollowsLayout(buf: seq<byte>)
    requires |buf| == RecordSize
    ensures Walk(LogBlockLayout(), buf, 0) == LogBlockValues(DecodeLogBlock(buf))
  {
    var l0 := LogBlockLayout();
    var l1 := l0.tail;
    var l2 := l1.tail;
    var l3 := l2.tail;
    var l4 := l3.tail;
    var l5 := l4.tail;
    var l6 := l5.tail;
    assert Walk(l6, buf, 508) == [Num(BE(buf, 508, 4))];
    assert Walk(l5, buf, 14) == [Raw(buf[14..508])] + Walk(l6, buf, 508);
    assert Walk(l4, buf, 12) == [Num(BE(buf, 12, 2))] + Walk(l5, buf, 14);
    assert Walk(l3, buf, 8) == [Num(BE(buf, 8, 4))] + Walk(l4, buf, 12);
    assert Walk(l2, buf, 6) == [Num(BE(buf, 6, 2))] + Walk(l3, buf, 8);
    assert Walk(l1, buf, 4) == [Num(BE(buf, 4, 2))] + Walk(l2, buf, 6);
    assert Walk(l0, buf, 0) == [Num(BE(buf, 0, 4))] + Walk(l1, buf, 4);
  }

  lemma LogBlockDecodeEncode(b: LogBlock)
    ensures DecodeLogBlock(EncodeLogBlock(b)) == b
  {
    Pow256Widths();
    var buf := EncodeLogBlock(b);
    assert BE(buf, 0, 4) == b.headerNumber as nat by { ReadBack(buf, 0, b.headerNumber as nat, 4); }
    assert BE(buf, 4, 2) == b.blockSize as nat by { ReadBack(buf, 4, b.blockSize as nat, 2); }
    assert BE(buf, 6, 2) == b.offset as nat by { ReadBack(buf, 6, b.offset as nat, 2); }
    assert BE(buf, 8, 4) == b.currentActiveCheckpoint as nat by { ReadBack(buf, 8, b.currentActiveCheckpoint as nat, 4); }
    assert BE(buf, 12, 2) == b.hdrSize as nat by { ReadBack(buf, 12, b.hdrSize as nat, 2); }
    assert BE(buf, 508, 4) == b.checksum as nat by { ReadBack(buf, 508, b.checksum as nat, 4); }
    assert buf[DataStart..DataEnd] == b.data;
  }

  /** Every byte of a log block is stored, so re-encoding a decoded block
      gives the block back. */
  lemma LogBlockEncodeDecode(buf: seq<byte>)
    requires |buf| == RecordSize
    ensures EncodeLogBlock(DecodeLogBlock(buf)) == buf
  {
    var b := DecodeLogBlock(buf);
    EncodeDecode(buf, 0, 4);
    EncodeDecode(buf, 4, 2);
    EncodeDecode(buf, 6, 2);
    EncodeDecode(buf, 8, 4);
    EncodeDecode(buf, 12, 2);
    EncodeDecode(buf, 508, 4);
    forall i | 0 <= i < RecordSize
      ensures EncodeLogBlock(b)[i] == buf[i]
    {
      if i < 4 {
        assert buf[0..4][i] == buf[i];
      } else if i < 6 {
        assert buf[4..6][i - 4] == buf[i];
      } else if i < 8 {
        assert buf[6..8][i - 6] == buf[i];
      } else if i < 12 {
        assert buf[8..12][i - 8] == buf[i];
      } else if i < 14 {
        assert buf[12..14][i - 12] == buf[i];
      } else if i >= 508 {
        assert buf[508..512][i - 508] == buf[i];
      }
    }
  }

  /** Two log blocks decode alike exactly when they are the same bytes. */
  lemma LogBlockDecodeInjective(a: seq<byte>, b: seq<byte>)
    requires |a| == RecordSize && |b| == RecordSize
    ensures DecodeLogBlock(a) == DecodeLogBlock(b) <==> a == b
  {
    LogBlockEncodeDecode(a);
    LogBlockEncodeDecode(b);
  }

  // ------------------------------------------------ The first-block flag

  /** `logBlock.HeaderNumber&firstBlockMask == firstBlockMask`, on the
      header number as a 32-bit word. */
  predicate IsFirstBlock(b: LogBlock)
  {
    TopBitSet(b.headerNumber as nat)
  }

  /** A block opens a log flush write segment exactly when its header
      number is at least 2^31. */
  lemma IsFirstBlockIff(b: LogBlock)
    ensures IsFirstBlock(b) <==> b.headerNumber as int >= 0x8000_0000
  {
    var h := b.headerNumber as nat;
    Pow256Widths();
    DecodeEncode(h, 4);
    TopBitSetIff(h, Word32(EncodeBE(h, 4), 0, 4));
  }
}
