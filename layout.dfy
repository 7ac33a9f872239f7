/** A struct declaration read as a byte layout, the way encoding/binary's
    Read walks a fixed-size struct: fields in declaration order, each
    occupying its width, blank (`_`) fields consumed but not stored. */
module Layout {

  import opened BigEndian

  /** Every record of the redo log occupies one 512-byte disk block. */
  const RecordSize: nat := 512

  /** One field of a fixed-size struct: an unsigned integer of `width`
      bytes, a byte array of `count` bytes, or blank padding. */
  datatype Field = Uint(width: nat) | ByteArray(count: nat) | Blank(count: nat)

  /** A struct declaration: its fields in order. */
  datatype Fields = Nil | Cons(head: Field, tail: Fields)

  /** What reading a stored field yields. */
  datatype Value = Num(n: nat) | Raw(bytes: seq<byte>)

  function Width(f: Field): nat
  {
    match f
    case Uint(w) => w
    case ByteArray(n) => n
    case Blank(n) => n
  }

  /** binary.Size of a struct: the sum of its fields' widths. */
  function Size(layout: Fields): nat
  {
    match layout
    case Nil => 0
    case Cons(f, rest) => Width(f) + Size(rest)
  }

  /** The number of fields the walk stores (the non-blank ones). */
  function Stored(layout: Fields): nat
  {
    match layout
    case Nil => 0
    case Cons(f, rest) => (if f.Blank? then 0 else 1) + Stored(rest)
  }

  /** The values the walk stores when the struct is read from buf at off:
      integers big-endian, arrays verbatim, padding skipped. */
  function Walk(layout: Fields, buf: seq<byte>, off: nat): (vs: seq<Value>)
    requires off + Size(layout) <= |buf|
    ensures |vs| == Stored(layout)
  {
    match layout
    case Nil => []
    case Cons(f, rest) =>
      var tail := Walk(rest, buf, off + Width(f));
      match f
      case Uint(w) => [Num(BE(buf, off, w))] + tail
      case ByteArray(n) => [Raw(buf[off..off + n])] + tail
      case Blank(_) => tail
  }
}
