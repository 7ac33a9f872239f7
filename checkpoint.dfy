/** A checkpoint: the second and third 512-byte blocks of the file, each
    read into main.go's Checkpoint struct. */
module CheckpointRecord {

  import opened BigEndian
  import opened Layout

  /** The Go field CuurentFSP is called currentFsp here. */
  datatype Checkpoint = Checkpoint(
    number: uint64, lsn: uint64, offset: uint32, bufferSize: uint32, archivedLSN: uint64,
    checksum1: uint32, checksum2: uint32, currentFsp: uint32, magic: uint32)

  /** The value of `Checkpoint{}`. */
  const ZeroCheckpoint := Checkpoint(0, 0, 0, 0, 0, 0, 0, 0, 0)

  /** The Checkpoint struct: five integers at 0x00..0x20, 256 blank bytes,
      four integers at 0x120..0x130, 208 blank bytes. */
  function CheckpointLayout(): (layout: Fields)
    ensures Size(layout) == RecordSize
  {
    Cons(Uint(8), Cons(Uint(8), Cons(Uint(4), Cons(Uint(4), Cons(Uint(8), Cons(Blank(256),
    Cons(Uint(4), Cons(Uint(4), Cons(Uint(4), Cons(Uint(4), Cons(Blank(208), Nil)))))))))))
  }

  function CheckpointValues(c: Checkpoint): seq<Value>
  {
    [Num(c.number as nat), Num(c.lsn as nat), Num(c.offset as nat), Num(c.bufferSize as nat),
     Num(c.archivedLSN as nat), Num(c.checksum1 as nat), Num(c.checksum2 as nat),
     Num(c.currentFsp as nat), Num(c.magic as nat)]
  }

  /** The two stored areas of a checkpoint block: 0x00..0x20 and 0x120..0x130. */
  const HeadEnd: nat := 0x20
  const TailStart: nat := 0x120
  const TailEnd: nat := 0x130

  function DecodeCheckpoint(buf: seq<byte>): Checkpoint
    requires |buf| == RecordSize
  {
    Checkpoint(U64(buf, 0x00), U64(buf, 0x08), U32(buf, 0x10), U32(buf, 0x14), U64(buf, 0x18),
               U32(buf, 0x120), U32(buf, 0x124), U32(buf, 0x128), U32(buf, 0x12C))
  }

  function CheckpointByte(c: Checkpoint, i: nat): byte
  {
    Pow256Widths();
    if i < 0x08 then EncodeBE(c.number as nat, 8)[i]
    else if i < 0x10 then EncodeBE(c.lsn as nat, 8)[i - 0x08]
    else if i < 0x14 then EncodeBE(c.offset as nat, 4)[i - 0x10]
    else if i < 0x18 then EncodeBE(c.bufferSize as nat, 4)[i - 0x14]
    else if i < 0x20 then EncodeBE(c.archivedLSN as nat, 8)[i - 0x18]
    else if i < 0x120 then 0
    else if i < 0x124 then EncodeBE(c.checksum1 as nat, 4)[i - 0x120]
    else if i < 0x128 then EncodeBE(c.checksum2 as nat, 4)[i - 0x124]
    else if i < 0x12C then EncodeBE(c.currentFsp as nat, 4)[i - 0x128]
    else if i < 0x130 then EncodeBE(c.magic as nat, 4)[i - 0x12C]
    else 0
  }

  /** The checkpoint block that stores c, with zero spacing and padding. */
  function EncodeCheckpoint(c: Checkpoint): (buf: seq<byte>)
    ensures |buf| == RecordSize
  {
    seq(RecordSize, i requires 0 <= i => CheckpointByte(c, i))
  }

  /** DecodeCheckpoint reads exactly what binary.Read stores when it walks
      the Checkpoint struct declaration. */
  lemma DecodeCheckpointFollowsLayout(buf: seq<byte>)
    requires |buf| == RecordSize
    ensures Walk(CheckpointLayout(), buf, 0) == CheckpointValues(DecodeCheckpoint(buf))
  {
    var l0 := CheckpointLayout();
    var l1 := l0.tail;
    var l2 := l1.tail;
    var l3 := l2.tail;
    var l4 := l3.tail;
    var l5 := l4.tail;
    var l6 := l5.tail;
    var l7 := l6.tail;
    var l8 := l7.tail;
    var l9 := l8.tail;
    assert Walk(l9, buf, 0x12C) == [Num(BE(buf, 0x12C, 4))] + Walk(l9.tail, buf, 0x130);
    assert Walk(l9.tail, buf, 0x130) == [];
    assert Walk(l8, buf, 0x128) == [Num(BE(buf, 0x128, 4))] + Walk(l9, buf, 0x12C);
    assert Walk(l7, buf, 0x124) == [Num(BE(buf, 0x124, 4))] + Walk(l8, buf, 0x128);
    assert Walk(l6, buf, 0x120) == [Num(BE(buf, 0x120, 4))] + Walk(l7, buf, 0x124);
    assert Walk(l5, buf, 0x20) == Walk(l6, buf, 0x120);
    assert Walk(l4, buf, 0x18) == [Num(BE(buf, 0x18, 8))] + Walk(l5, buf, 0x20);
    assert Walk(l3, buf, 0x14) == [Num(BE(buf, 0x14, 4))] + Walk(l4, buf, 0x18);
    assert Walk(l2, buf, 0x10) == [Num(BE(buf, 0x10, 4))] + Walk(l3, buf, 0x14);
    assert Walk(l1, buf, 0x08) == [Num(BE(buf, 0x08, 8))] + Walk(l2, buf, 0x10);
    assert Walk(l0, buf, 0x00) == [Num(BE(buf, 0x00, 8))] + Walk(l1, buf, 0x08);
  }

  /** Two checkpoint blocks decode alike exactly when they agree on
      0x00..0x20 and on 0x120..0x130: the 256-byte spacing and the trailing
      208 bytes are consumed but not stored. */
  lemma CheckpointPaddingIgnored(a: seq<byte>, b: seq<byte>)
    requires |a| == RecordSize && |b| == RecordSize
    ensures DecodeCheckpoint(a) == DecodeCheckpoint(b)
        <==> a[..HeadEnd] == b[..HeadEnd] && a[TailStart..TailEnd] == b[TailStart..TailEnd]
  {
    HeadAgrees(a, b);
    TailAgrees(a, b);
    assert a[..HeadEnd] == a[0..0x20] && b[..HeadEnd] == b[0..0x20];
  }

  lemma HeadAgrees(a: seq<byte>, b: seq<byte>)
    requires |a| == RecordSize && |b| == RecordSize
    ensures BE(a, 0x00, 8) == BE(b, 0x00, 8) && BE(a, 0x08, 8) == BE(b, 0x08, 8)
         && BE(a, 0x10, 4) == BE(b, 0x10, 4) && BE(a, 0x14, 4) == BE(b, 0x14, 4)
         && BE(a, 0x18, 8) == BE(b, 0x18, 8)
        <==> a[0x00..0x20] == b[0x00..0x20]
  {
    HeadAgreesTo10(a, b);
    HeadAgreesFrom10(a, b);
    AgreeSplit(a, b, 0x00, 0x10, 0x20);
  }

  lemma HeadAgreesTo10(a: seq<byte>, b: seq<byte>)
    requires |a| == RecordSize && |b| == RecordSize
    ensures BE(a, 0x00, 8) == BE(b, 0x00, 8) && BE(a, 0x08, 8) == BE(b, 0x08, 8)
        <==> a[0x00..0x10] == b[0x00..0x10]
  {
    SameField(a, 0x00, b, 0x00, 8);
    SameField(a, 0x08, b, 0x08, 8);
    AgreeSplit(a, b, 0x00, 0x08, 0x10);
  }

  lemma HeadAgreesFrom10(a: seq<byte>, b: seq<byte>)
    requires |a| == RecordSize && |b| == RecordSize
    ensures BE(a, 0x10, 4) == BE(b, 0x10, 4) && BE(a, 0x14, 4) == BE(b, 0x14, 4)
         && BE(a, 0x18, 8) == BE(b, 0x18, 8)
        <==> a[0x10..0x20] == b[0x10..0x20]
  {
    SameField(a, 0x10, b, 0x10, 4);
    SameField(a, 0x14, b, 0x14, 4);
    SameField(a, 0x18, b, 0x18, 8);
    AgreeSplit(a, b, 0x10, 0x14, 0x20);
    AgreeSplit(a, b, 0x14, 0x18, 0x20);
  }

  lemma TailAgrees(a: seq<byte>, b: seq<byte>)
    requires |a| == RecordSize && |b| == RecordSize
    ensures BE(a, 0x120, 4) == BE(b, 0x120, 4) && BE(a, 0x124, 4) == BE(b, 0x124, 4)
         && BE(a, 0x128, 4) == BE(b, 0x128, 4) && BE(a, 0x12C, 4) == BE(b, 0x12C, 4)
        <==> a[0x120..0x130] == b[0x120..0x130]
  {
    SameField(a, 0x120, b, 0x120, 4);
    SameField(a, 0x124, b, 0x124, 4);
    SameField(a, 0x128, b, 0x128, 4);
    SameField(a, 0x12C, b, 0x12C, 4);
    AgreeSplit(a, b, 0x120, 0x124, 0x130);
    AgreeSplit(a, b, 0x124, 0x128, 0x130);
    AgreeSplit(a, b, 0x128, 0x12C, 0x130);
  }

  lemma CheckpointDecodeEncode(c: Checkpoint)
    ensures DecodeCheckpoint(EncodeCheckpoint(c)) == c
  {
    CheckpointHeadReadsBack(c);
    CheckpointTailReadsBack(c);
  }

  lemma CheckpointHeadReadsBack(c: Checkpoint)
    ensures var buf := EncodeCheckpoint(c);
      BE(buf, 0x00, 8) == c.number as nat && BE(buf, 0x08, 8) == c.lsn as nat
      && BE(buf, 0x10, 4) == c.offset as nat && BE(buf, 0x14, 4) == c.bufferSize as nat
      && BE(buf, 0x18, 8) == c.archivedLSN as nat
  {
    Pow256Widths();
    var buf := EncodeCheckpoint(c);
    assert BE(buf, 0x00, 8) == c.number as nat by { ReadBack(buf, 0x00, c.number as nat, 8); }
    assert BE(buf, 0x08, 8) == c.lsn as nat by { ReadBack(buf, 0x08, c.lsn as nat, 8); }
    CheckpointHeadReadsBackFrom10(c);
  }

  lemma CheckpointHeadReadsBackFrom10(c: Checkpoint)
    ensures var buf := EncodeCheckpoint(c);
      BE(buf, 0x10, 4) == c.offset as nat && BE(buf, 0x14, 4) == c.bufferSize as nat
      && BE(buf, 0x18, 8) == c.archivedLSN as nat
  {
    Pow256Widths();
    var buf := EncodeCheckpoint(c);
    assert BE(buf, 0x10, 4) == c.offset as nat by { ReadBack(buf, 0x10, c.offset as nat, 4); }
    assert BE(buf, 0x14, 4) == c.bufferSize as nat by { ReadBack(buf, 0x14, c.bufferSize as nat, 4); }
    assert BE(buf, 0x18, 8) == c.archivedLSN as nat by { ReadBack(buf, 0x18, c.archivedLSN as nat, 8); }
  }

  lemma CheckpointTailReadsBack(c: Checkpoint)
    ensures var buf := EncodeCheckpoint(c);
      BE(buf, 0x120, 4) == c.checksum1 as nat && BE(buf, 0x124, 4) == c.checksum2 as nat
      && BE(buf, 0x128, 4) == c.currentFsp as nat && BE(buf, 0x12C, 4) == c.magic as nat
  {
    Pow256Widths();
    var buf := EncodeCheckpoint(c);
    assert BE(buf, 0x120, 4) == c.checksum1 as nat by { ReadBack(buf, 0x120, c.checksum1 as nat, 4); }
    assert BE(buf, 0x124, 4) == c.checksum2 as nat by { ReadBack(buf, 0x124, c.checksum2 as nat, 4); }
    assert BE(buf, 0x128, 4) == c.currentFsp as nat by { ReadBack(buf, 0x128, c.currentFsp as nat, 4); }
    assert BE(buf, 0x12C, 4) == c.magic as nat by { ReadBack(buf, 0x12C, c.magic as nat, 4); }
  }

  /** A checkpoint block whose spacing and trailing padding are zero is
      exactly the encoding of what it decodes to. */
  lemma CheckpointEncodeDecode(buf: seq<byte>)
    requires |buf| == RecordSize
    requires buf[HeadEnd..TailStart] == Zeros(TailStart - HeadEnd)
    requires buf[TailEnd..] == Zeros(RecordSize - TailEnd)
    ensures EncodeCheckpoint(DecodeCheckpoint(buf)) == buf
  {
    var c := DecodeCheckpoint(buf);
    EncodeDecode(buf, 0x00, 8);
    EncodeDecode(buf, 0x08, 8);
    EncodeDecode(buf, 0x10, 4);
    EncodeDecode(buf, 0x14, 4);
    EncodeDecode(buf, 0x18, 8);
    EncodeDecode(buf, 0x120, 4);
    EncodeDecode(buf, 0x124, 4);
    EncodeDecode(buf, 0x128, 4);
    EncodeDecode(buf, 0x12C, 4);
    forall i | 0 <= i < RecordSize
      ensures EncodeCheckpoint(c)[i] == buf[i]
    {
      if i < 0x08 {
        assert buf[0x00..0x08][i] == buf[i];
      } else if i < 0x10 {
        assert buf[0x08..0x10][i - 0x08] == buf[i];
      } else if i < 0x14 {
        assert buf[0x10..0x14][i - 0x10] == buf[i];
      } else if i < 0x18 {
        assert buf[0x14..0x18][i - 0x14] == buf[i];
      } else if i < 0x20 {
        assert buf[0x18..0x20][i - 0x18] == buf[i];
      } else if i < 0x120 {
        assert buf[HeadEnd..TailStart][i - 0x20] == buf[i];
      } else if i < 0x124 {
        assert buf[0x120..0x124][i - 0x120] == buf[i];
      } else if i < 0x128 {
        assert buf[0x124..0x128][i - 0x124] == buf[i];
      } else if i < 0x12C {
        assert buf[0x128..0x12C][i - 0x128] == buf[i];
      } else if i < 0x130 {
        assert buf[0x12C..0x130][i - 0x12C] == buf[i];
      } else {
        assert buf[TailEnd..][i - 0x130] == buf[i];
      }
    }
  }
}
