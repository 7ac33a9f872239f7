/** The redo log file as main.go reads it: an open regular file with a read
    cursor, readNextBytes, which reads the next N bytes into a fresh buffer,
    and readIntoStruct, which decodes that buffer into the struct a pointer
    designates. */
module Reader {

  import opened BigEndian
  import opened Layout
  import opened HeaderRecord
  import opened CheckpointRecord
  import opened LogBlockRecord

  function Min(a: nat, b: nat): nat
  {
    if a <= b then a else b
  }

  /** The bytes of c left from pos on: none once pos is at or past the end. */
  function Available(c: seq<byte>, pos: nat): nat
  {
    if pos < |c| then |c| - pos else 0
  }

  /** Where the cursor is after a read of number bytes from pos. */
  function Advance(c: seq<byte>, pos: nat, number: nat): nat
  {
    pos + Min(number, Available(c, pos))
  }

  /** A fresh n-byte buffer after one read of c at pos: the bytes still
      available, as many as fit, then the zeros it was made with. */
  function ZeroFilled(c: seq<byte>, pos: nat, n: nat): (r: seq<byte>)
    ensures |r| == n
  {
    var k := Min(n, Available(c, pos));
    if k == 0 then Zeros(n) else c[pos..pos + k] + Zeros(n - k)
  }

  /** Byte i of that buffer is byte pos + i of c, or zero past the end. */
  lemma ZeroFilledAt(c: seq<byte>, pos: nat, n: nat, i: nat)
    requires i < n
    ensures ZeroFilled(c, pos, n)[i] == if pos + i < |c| then c[pos + i] else 0
  {
  }

  /** A read that lies wholly inside the file is a plain slice. */
  lemma ZeroFilledWithin(c: seq<byte>, pos: nat, n: nat)
    requires pos + n <= |c|
    ensures ZeroFilled(c, pos, n) == c[pos..pos + n]
  {
    assert Zeros(0) == [];
  }

  /** A read that runs into the end of the file: the rest of the file,
      then zeros. */
  lemma ZeroFilledTail(c: seq<byte>, pos: nat, n: nat)
    requires pos < |c| <= pos + n
    ensures ZeroFilled(c, pos, n) == c[pos..] + Zeros(pos + n - |c|)
  {
    assert c[pos..pos + (|c| - pos)] == c[pos..];
  }

  /** An os.File opened on a regular file: its contents and the offset the
      next Read starts at. */
  class File {
    const contents: seq<byte>
    var pos: nat

    constructor Open(contents: seq<byte>)
      ensures this.contents == contents && pos == 0
    {
      this.contents := contents;
      pos := 0;
    }

    /** os.File.Read: copies as many of the remaining bytes as fit into buf,
        moves the cursor past them, and reports io.EOF when nothing was left
        to read (never for an empty buf). */
    method Read(buf: array<byte>) returns (n: nat, eof: bool)
      modifies this`pos, buf
      ensures n == Min(buf.Length, Available(contents, old(pos)))
      ensures eof <==> buf.Length > 0 && n == 0
      ensures pos == old(pos) + n
      ensures forall i :: 0 <= i < n ==> buf[i] == contents[old(pos) + i]
      ensures forall i :: n <= i < buf.Length ==> buf[i] == old(buf[i])
    {
      n := Min(buf.Length, Available(contents, pos));
      forall i | 0 <= i < n {
        buf[i] := contents[pos + i];
      }
      eof := buf.Length > 0 && n == 0;
      pos := pos + n;
    }

    /** file.Seek(offset, io.SeekCurrent): a regular file may be positioned
        past its end. */
    method SeekCurrent(offset: nat) returns (newPos: nat)
      modifies this`pos
      ensures pos == old(pos) + offset && newPos == pos
    {
      pos := pos + offset;
      newPos := pos;
    }
  }

  /** What readNextBytes returns: the buffer, or nil and an error. */
  datatype ReadResult = Got(bytes: seq<byte>) | Failed

  /** readNextBytes(file, number) on a file with contents c and cursor pos:
      the read's byte count is ignored, so the buffer is returned whole, and
      only the read's own error (io.EOF) is passed on. */
  function ReadNext(c: seq<byte>, pos: nat, number: nat): ReadResult
  {
    if number > 0 && Available(c, pos) == 0 then Failed else Got(ZeroFilled(c, pos, number))
  }

  /** readNextBytes returns exactly number bytes, the available prefix and
      zeros after it, and fails only when there is nothing left to read. */
  lemma ReadNextShape(c: seq<byte>, pos: nat, number: nat)
    ensures ReadNext(c, pos, number).Failed? <==> number > 0 && pos >= |c|
    ensures var k := Min(number, Available(c, pos));
      match ReadNext(c, pos, number)
      case Got(bytes) =>
        |bytes| == number && (k > 0 ==> bytes[..k] == c[pos..pos + k]) && bytes[k..] == Zeros(number - k)
      case Failed => k == 0
  {
  }

  method ReadNextBytes(file: File, number: nat) returns (r: ReadResult)
    modifies file
    ensures r == ReadNext(file.contents, old(file.pos), number)
    ensures file.pos == Advance(file.contents, old(file.pos), number)
  {
    var bytes := new byte[number](_ => 0);
    ghost var c, start := file.contents, file.pos;
    assert forall i | 0 <= i < number :: bytes[i] == 0;
    var n, eof := file.Read(bytes);
    if eof {
      r := Failed;
    } else {
      forall i | 0 <= i < number
        ensures bytes[i] == ZeroFilled(c, start, number)[i]
      {
        ZeroFilledAt(c, start, number, i);
      }
      assert bytes[..] == ZeroFilled(c, start, number);
      r := Got(bytes[..]);
    }
  }

  /** A value of one of the three struct types readIntoStruct is given. */
  datatype Record = HeaderRec(header: Header) | CheckpointRec(checkpoint: Checkpoint) | BlockRec(block: LogBlock)

  predicate SameKind(a: Record, b: Record)
  {
    (a.HeaderRec? && b.HeaderRec?) || (a.CheckpointRec? && b.CheckpointRec?) || (a.BlockRec? && b.BlockRec?)
  }

  /** binary.Read(buffer, binary.BigEndian, dest) once the buffer holds a
      whole struct: the first 512 bytes decoded as dest's struct type. */
  function Decode(dest: Record, buf: seq<byte>): (r: Record)
    requires |buf| >= RecordSize
    ensures SameKind(r, dest)
  {
    var block := buf[..RecordSize];
    match dest
    case HeaderRec(_) => HeaderRec(DecodeHeader(block))
    case CheckpointRec(_) => CheckpointRec(DecodeCheckpoint(block))
    case BlockRec(_) => BlockRec(DecodeLogBlock(block))
  }

  /** What readIntoStruct(file, dest, size) leaves: the value *dest holds
      and whether an error was returned. */
  datatype Outcome = Outcome(dest: Record, failed: bool)

  /** readIntoStruct on contents c at pos. A failed read is passed on; a
      buffer shorter than the struct makes binary.Read fail before it stores
      anything; in both cases *dest keeps its value. */
  function ReadInto(c: seq<byte>, pos: nat, dest: Record, size: nat): (o: Outcome)
    ensures SameKind(o.dest, dest)
    ensures o.failed <==> pos >= |c| || size < RecordSize
    ensures o.failed ==> o.dest == dest
  {
    match ReadNext(c, pos, size)
    case Failed => Outcome(dest, true)
    case Got(bytes) =>
      if |bytes| < RecordSize then Outcome(dest, true) else Outcome(Decode(dest, bytes), false)
  }

  /** For a 512-byte struct, readIntoStruct fails exactly when the file has
      nothing left at pos, and otherwise stores the struct decoded from the
      512 bytes at pos, zero-filled past the end of the file. */
  lemma ReadIntoBlock(c: seq<byte>, pos: nat, dest: Record)
    ensures var o := ReadInto(c, pos, dest, RecordSize);
      (o.failed <==> pos >= |c|)
      && (o.failed ==> o.dest == dest)
      && (!o.failed ==> o.dest == Decode(dest, ZeroFilled(c, pos, RecordSize)))
  {
  }

  /** The struct a `dest interface{}` pointer designates. */
  class Dest {
    var value: Record

    constructor (value: Record)
      ensures this.value == value
    {
      this.value := value;
    }
  }

  method ReadIntoStruct(file: File, dest: Dest, size: nat) returns (failed: bool)
    modifies file, dest
    ensures Outcome(dest.value, failed) == ReadInto(file.contents, old(file.pos), old(dest.value), size)
    ensures file.pos == Advance(file.contents, old(file.pos), size)
  {
    var data := ReadNextBytes(file, size);
    if data.Failed? {
      return true;
    }
    if |data.bytes| < RecordSize {
      return true;
    }
    dest.value := Decode(dest.value, data.bytes);
    failed := false;
  }
}
