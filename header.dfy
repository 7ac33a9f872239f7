/** The redo log file header: the first 512-byte block of the file, read
    into main.go's Header struct. */
module HeaderRecord {

  import opened BigEndian
  import opened Layout

  datatype Header = Header(groupNumber: uint32, firstLSN: uint64, archivedLogFileNumber: uint32)

  /** The value of `Header{}`. */
  const ZeroHeader := Header(0, 0, 0)

  /** The Header struct: three integers, then the ibbackup/creation-time
      area and the padding, both blank. */
  function HeaderLayout(): (layout: Fields)
    ensures Size(layout) == RecordSize
  {
    Cons(Uint(4), Cons(Uint(8), Cons(Uint(4), Cons(Blank(32), Cons(Blank(464), Nil)))))
  }

  function HeaderValues(h: Header): seq<Value>
  {
    [Num(h.groupNumber as nat), Num(h.firstLSN as nat), Num(h.archivedLogFileNumber as nat)]
  }

  /** Only the first 16 bytes of a header block are stored. */
  const HeaderStored: nat := 16

  /** GroupNumber at 0, FirstLSN at 4, ArchivedLogFileNumber at 12. */
  function DecodeHeader(buf: seq<byte>): Header
    requires |buf| == RecordSize
  {
    Header(U32(buf, 0), U64(buf, 4), U32(buf, 12))
  }

  function HeaderByte(h: Header, i: nat): byte
  {
    Pow256Widths();
    if i < 4 then EncodeBE(h.groupNumber as nat, 4)[i]
    else if i < 12 then EncodeBE(h.firstLSN as nat, 8)[i - 4]
    else if i < 16 then EncodeBE(h.archivedLogFileNumber as nat, 4)[i - 12]
    else 0
  }

  /** The header block that stores h, with zero padding. */
  function EncodeHeader(h: Header): (buf: seq<byte>)
    ensures |buf| == RecordSize
  {
    seq(RecordSize, i requires 0 <= i => HeaderByte(h, i))
  }

  /** DecodeHeader reads exactly what binary.Read stores when it walks the
      Header struct declaration. */
  lemma DecodeHeaderFollowsLayout(buf: seq<byte>)
    requires |buf| == RecordSize
    ensures Walk(HeaderLayout(), buf, 0) == HeaderValues(DecodeHeader(buf))
  {
    var l0 := HeaderLayout();
    var l1 := l0.tail;
    var l2 := l1.tail;
    assert Walk(l2, buf, 12) == [Num(BE(buf, 12, 4))] + Walk(l2.tail, buf, 16);
    assert Walk(l2.tail, buf, 16) == [];
    assert Walk(l1, buf, 4) == [Num(BE(buf, 4, 8))] + Walk(l2, buf, 12);
    assert Walk(l0, buf, 0) == [Num(BE(buf, 0, 4))] + Walk(l1, buf, 4);
  }

  /** Two header blocks decode alike exactly when their first 16 bytes agree:
      the ibbackup area and the padding are consumed but not stored. */
  lemma HeaderPaddingIgnored(a: seq<byte>, b: seq<byte>)
    requires |a| == RecordSize && |b| == RecordSize
    ensures DecodeHeader(a) == DecodeHeader(b) <==> a[..HeaderStored] == b[..HeaderStored]
  {
    SameField(a, 0, b, 0, 4);
    SameField(a, 4, b, 4, 8);
    SameField(a, 12, b, 12, 4);
    AgreeSplit(a, b, 0, 4, 16);
    AgreeSplit(a, b, 4, 12, 16);
    assert a[..HeaderStored] == a[0..16] && b[..HeaderStored] == b[0..16];
  }

  lemma HeaderDecodeEncode(h: Header)
    ensures DecodeHeader(EncodeHeader(h)) == h
  {
    Pow256Widths();
    var buf := EncodeHeader(h);
    assert BE(buf, 0, 4) == h.groupNumber as nat by { ReadBack(buf, 0, h.groupNumber as nat, 4); }
    assert BE(buf, 4, 8) == h.firstLSN as nat by { ReadBack(buf, 4, h.firstLSN as nat, 8); }
    assert BE(buf, 12, 4) == h.archivedLogFileNumber as nat by { ReadBack(buf, 12, h.archivedLogFileNumber as nat, 4); }
  }

  /** A header block whose padding is zero is exactly the encoding of what
      it decodes to. */
  lemma HeaderEncodeDecode(buf: seq<byte>)
    requires |buf| == RecordSize && buf[HeaderStored..] == Zeros(RecordSize - HeaderStored)
    ensures EncodeHeader(DecodeHeader(buf)) == buf
  {
    var h := DecodeHeader(buf);
    EncodeDecode(buf, 0, 4);
    EncodeDecode(buf, 4, 8);
    EncodeDecode(buf, 12, 4);
    forall i | 0 <= i < RecordSize
      ensures EncodeHeader(h)[i] == buf[i]
    {
      if i < 4 {
        assert buf[0..4][i] == buf[i];
      } else if i < 12 {
        assert buf[4..12][i - 4] == buf[i];
      } else if i < 16 {
        assert buf[12..16][i - 12] == buf[i];
      } else {
        assert buf[HeaderStored..][i - 16] == buf[i];
      }
    }
  }
}
