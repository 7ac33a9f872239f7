/** The dumper itself: main reads the header and both checkpoints, seeks
    over one more block to offset 2048, and then reads log blocks until a
    read fails. Dumping (the printing) is left out; what is modelled is which
    records get decoded, from which bytes, and when the loop stops. */
module Dumper {

  import opened BigEndian
  import opened Layout
  import opened HeaderRecord
  import opened CheckpointRecord
  import opened LogBlockRecord
  import opened Reader

  /** The first log block: after the header, the two checkpoints and the
      block the dumper seeks over. */
  const LogStart: nat := 4 * RecordSize

  /** Every record the dumper decodes, in the order it prints them. */
  datatype Dump = Dump(header: Header, first: Checkpoint, second: Checkpoint, blocks: seq<LogBlock>)

  /** The struct readIntoStruct leaves in a fresh zero header or checkpoint
      when it reads the 512 bytes at pos: those bytes decoded, zero-filled
      past the end of the file, or the untouched zero value once nothing is
      left to read. */
  function HeaderAt(c: seq<byte>, pos: nat): Header
  {
    if pos < |c| then DecodeHeader(ZeroFilled(c, pos, RecordSize)) else ZeroHeader
  }

  function CheckpointAt(c: seq<byte>, pos: nat): Checkpoint
  {
    if pos < |c| then DecodeCheckpoint(ZeroFilled(c, pos, RecordSize)) else ZeroCheckpoint
  }

  /** The records the block loop stores when it starts reading at pos: one
      per iteration, the last one the untouched `LogBlock{}` of the read
      that failed. */
  function ScanFrom(c: seq<byte>, pos: nat): (blocks: seq<LogBlock>)
    ensures |blocks| > 0 && blocks[|blocks| - 1] == ZeroLogBlock
    decreases Available(c, pos)
  {
    if pos < |c| then [DecodeLogBlock(ZeroFilled(c, pos, RecordSize))] + ScanFrom(c, Advance(c, pos, RecordSize))
    else [ZeroLogBlock]
  }

  /** What main decodes from a file with contents c: the header at 0, the
      checkpoints at 512 and 1024, and, when the second checkpoint read
      succeeds, the log blocks from 2048 on. */
  function DumpOf(c: seq<byte>): Dump
  {
    Dump(HeaderAt(c, 0), CheckpointAt(c, RecordSize), CheckpointAt(c, 2 * RecordSize), LogBlocks(c))
  }

  /** The log blocks main decodes from a file with contents c. */
  function LogBlocks(c: seq<byte>): seq<LogBlock>
  {
    if |c| <= 2 * RecordSize then [] else ScanFrom(c, LogStart)
  }

  /** readIntoStruct of a zero header, checkpoint or log block at pos:
      it fails exactly at the end of the file, and leaves what HeaderAt,
      CheckpointAt and the head of ScanFrom say. */
  lemma HeaderStep(c: seq<byte>, pos: nat)
    ensures ReadInto(c, pos, HeaderRec(ZeroHeader), RecordSize) == Outcome(HeaderRec(HeaderAt(c, pos)), pos >= |c|)
  {
    ReadIntoBlock(c, pos, HeaderRec(ZeroHeader));
    DecodeWhole(ZeroFilled(c, pos, RecordSize));
  }

  lemma CheckpointStep(c: seq<byte>, pos: nat)
    ensures ReadInto(c, pos, CheckpointRec(ZeroCheckpoint), RecordSize)
         == Outcome(CheckpointRec(CheckpointAt(c, pos)), pos >= |c|)
  {
    ReadIntoBlock(c, pos, CheckpointRec(ZeroCheckpoint));
    DecodeWhole(ZeroFilled(c, pos, RecordSize));
  }

  lemma BlockStep(c: seq<byte>, pos: nat)
    ensures ReadInto(c, pos, BlockRec(ZeroLogBlock), RecordSize)
         == Outcome(BlockRec(ScanFrom(c, pos)[0]), pos >= |c|)
  {
    ReadIntoBlock(c, pos, BlockRec(ZeroLogBlock));
    DecodeWhole(ZeroFilled(c, pos, RecordSize));
  }

  /** One `readIntoStruct(file, &x, 512)` of main on a fresh zero struct x
      of each type: x as left, and whether an error came back. */
  method ReadHeader(file: File) returns (h: Header, failed: bool)
    modifies file
    ensures h == HeaderAt(file.contents, old(file.pos)) && (failed <==> old(file.pos) >= |file.contents|)
    ensures file.pos == Advance(file.contents, old(file.pos), RecordSize)
  {
    var header := new Dest(HeaderRec(ZeroHeader));
    HeaderStep(file.contents, file.pos);
    failed := ReadIntoStruct(file, header, RecordSize);
    h := header.value.header;
  }

  method ReadCheckpoint(file: File) returns (cp: Checkpoint, failed: bool)
    modifies file
    ensures cp == CheckpointAt(file.contents, old(file.pos)) && (failed <==> old(file.pos) >= |file.contents|)
    ensures file.pos == Advance(file.contents, old(file.pos), RecordSize)
  {
    var checkpoint := new Dest(CheckpointRec(ZeroCheckpoint));
    CheckpointStep(file.contents, file.pos);
    failed := ReadIntoStruct(file, checkpoint, RecordSize);
    cp := checkpoint.value.checkpoint;
  }

  /** A read of the block loop: it stores the head of ScanFrom, and the
      loop goes on with the rest unless the read failed. */
  method ReadLogBlock(file: File) returns (b: LogBlock, failed: bool)
    modifies file
    ensures failed <==> old(file.pos) >= |file.contents|
    ensures file.pos == Advance(file.contents, old(file.pos), RecordSize)
    ensures ScanFrom(file.contents, old(file.pos)) == [b] + Pending(file.contents, file.pos, failed)
  {
    var logBlock := new Dest(BlockRec(ZeroLogBlock));
    BlockStep(file.contents, file.pos);
    failed := ReadIntoStruct(file, logBlock, RecordSize);
    b := logBlock.value.block;
  }

  /** main's `for !err` loop over the log blocks, entered with the error
      of the second checkpoint read. */
  method BlockLoop(file: File, failed: bool) returns (blocks: seq<LogBlock>)
    modifies file
    ensures blocks == if failed then [] else ScanFrom(file.contents, old(file.pos))
    ensures file.pos == LoopEnd(file.contents, old(file.pos), failed)
  {
    ghost var c := file.contents;
    ghost var target := Pending(c, file.pos, failed);
    ghost var end := LoopEnd(c, file.pos, failed);
    var err := failed;
    blocks := [];
    assert blocks + target == target;
    var i := 0;
    while !err
      invariant blocks + Pending(c, file.pos, err) == target
      invariant file.contents == c && LoopEnd(c, file.pos, err) == end
      decreases if err then 0 else 1 + Available(c, file.pos)
    {
      ghost var before := file.pos;
      var logBlock;
      logBlock, err := ReadLogBlock(file);
      StoreStep(blocks, logBlock, ScanFrom(c, before), Pending(c, file.pos, err), target);
      blocks := blocks + [logBlock];
      i := i + 1;
    }
  }

  /** What the loop has still to store: nothing once a read has failed. */
  function Pending(c: seq<byte>, pos: nat, failed: bool): seq<LogBlock>
  {
    if failed then [] else ScanFrom(c, pos)
  }

  /** Where the cursor is once the loop, at pos with error state failed,
      has stopped: where it was if no read happens; otherwise at the end of
      the file if it was before it, since the failing read moves nothing. */
  function LoopEnd(c: seq<byte>, pos: nat, failed: bool): (end: nat)
    ensures end >= pos && (!failed ==> end >= |c|)
  {
    if failed || pos >= |c| then pos else |c|
  }

  /** main, from the opened file on: the header, both checkpoints, a seek
      over the next block, then log blocks until a read fails. */
  method DumpRedoLog(file: File) returns (d: Dump)
    requires file.pos == 0
    modifies file
    ensures d == DumpOf(file.contents)
    ensures file.pos >= |file.contents|
    ensures file.pos == if |file.contents| > LogStart then |file.contents| else Min(3 * RecordSize, |file.contents|) + RecordSize
  {
    ghost var c := file.contents;
    var header, err := ReadHeader(file);
    assert CheckpointAt(c, file.pos) == CheckpointAt(c, RecordSize);
    var checkpoint;
    checkpoint, err := ReadCheckpoint(file);
    assert file.pos == Min(2 * RecordSize, |c|);
    var checkpoint2;
    checkpoint2, err := ReadCheckpoint(file);
    var pos := file.SeekCurrent(RecordSize);
    assert !err && pos != LogStart ==> pos > |c| && LogStart >= |c|;
    var blocks := BlockLoop(file, err);
    d := Dump(header, checkpoint, checkpoint2, blocks);
  }

  /** Moving the head of what is left onto what is stored keeps the sum. */
  lemma StoreStep<T>(stored: seq<T>, b: T, left: seq<T>, rest: seq<T>, target: seq<T>)
    requires stored + left == target && left == [b] + rest
    ensures (stored + [b]) + rest == target
    ensures rest == [] ==> stored + [b] == target
  {
    assert (stored + [b]) + rest == stored + ([b] + rest);
  }

  lemma DecodeWhole(buf: seq<byte>)
    requires |buf| == RecordSize
    ensures buf[..RecordSize] == buf
  {
  }

  /** How many reads of the block loop starting at pos succeed: one per
      512 bytes left, the last possibly partial. */
  function BlockCount(c: seq<byte>, pos: nat): nat
  {
    (Available(c, pos) + 511) / 512
  }

  lemma BlockCountStep(a: nat)
    requires a > 0
    ensures (a - Min(RecordSize, a) + 511) / 512 == (a + 511) / 512 - 1
  {
  }

  /** The loop started at pos stores BlockCount(c, pos) blocks and then
      the zero block of the failing read. */
  lemma {:induction false} ScanLength(c: seq<byte>, pos: nat)
    ensures |ScanFrom(c, pos)| == BlockCount(c, pos) + 1
    decreases Available(c, pos)
  {
    if pos < |c| {
      ScanLength(c, Advance(c, pos, RecordSize));
      BlockCountStep(|c| - pos);
    }
  }

  /** The first block the loop stores after a successful read, and the
      ones after it. */
  lemma ScanHead(c: seq<byte>, pos: nat)
    requires pos < |c|
    ensures ScanFrom(c, pos)[0] == DecodeLogBlock(ZeroFilled(c, pos, RecordSize))
  {
  }

  lemma ScanTail(c: seq<byte>, pos: nat, k: nat)
    requires pos < |c| && 0 < k <= |ScanFrom(c, Advance(c, pos, RecordSize))|
    ensures k < |ScanFrom(c, pos)|
    ensures ScanFrom(c, pos)[k] == ScanFrom(c, Advance(c, pos, RecordSize))[k - 1]
  {
  }

  /** Block k of the loop started at pos is decoded from the 512 bytes at
      at = pos + 512·k, zero-filled past the end of the file. */
  lemma {:induction false} ScanAt(c: seq<byte>, pos: nat, k: nat, at: nat)
    requires k < BlockCount(c, pos) && at == pos + 512 * k
    ensures k < |ScanFrom(c, pos)|
    ensures ScanFrom(c, pos)[k] == DecodeLogBlock(ZeroFilled(c, at, RecordSize))
    decreases k
  {
    ScanLength(c, pos);
    if k == 0 {
      ScanHead(c, pos);
    } else {
      var next := Advance(c, pos, RecordSize);
      assert next == pos + 512;
      BlockCountStep(|c| - pos);
      ScanAt(c, next, k - 1, at);
      ScanTail(c, pos, k);
    }
  }

  /** Both together: the shape of everything the loop stores. */
  lemma ScanShape(c: seq<byte>, pos: nat)
    ensures |ScanFrom(c, pos)| == BlockCount(c, pos) + 1
    ensures forall k :: 0 <= k < BlockCount(c, pos) ==>
      ScanFrom(c, pos)[k] == DecodeLogBlock(ZeroFilled(c, pos + 512 * k, RecordSize))
  {
    ScanLength(c, pos);
    forall k | 0 <= k < BlockCount(c, pos)
      ensures ScanFrom(c, pos)[k] == DecodeLogBlock(ZeroFilled(c, pos + 512 * k, RecordSize))
    {
      ScanAt(c, pos, k, pos + 512 * k);
    }
  }

  /** The blocks main decodes from a file longer than 1024 bytes: block k
      from offset 2048 + 512·k for every 512 bytes (or fewer, at the end) the
      file holds from 2048 on, then one `LogBlock{}` for the read that hit
      the end of the file. */
  lemma DumpBlocks(c: seq<byte>)
    requires |c| > 2 * RecordSize
    ensures var blocks := LogBlocks(c);
      var n := BlockCount(c, LogStart);
      |blocks| == n + 1 && blocks[n] == ZeroLogBlock
      && forall k :: 0 <= k < n ==>
           blocks[k] == DecodeLogBlock(ZeroFilled(c, LogStart + 512 * k, RecordSize))
  {
    ScanShape(c, LogStart);
  }

  /** A file of 2048 + 512·n bytes yields its n log blocks, each decoded
      from exactly its own 512 bytes, and the zero block after them. */
  lemma WholeBlocks(c: seq<byte>, n: nat)
    requires |c| == LogStart + 512 * n
    ensures var blocks := LogBlocks(c);
      |blocks| == n + 1 && blocks[n] == ZeroLogBlock
      && forall k :: 0 <= k < n ==>
           blocks[k] == DecodeLogBlock(c[LogStart + 512 * k..LogStart + 512 * (k + 1)])
  {
    assert BlockCount(c, LogStart) == n;
    forall k | 0 <= k < n
      ensures ZeroFilled(c, LogStart + 512 * k, RecordSize)
           == c[LogStart + 512 * k..LogStart + 512 * (k + 1)]
    {
      ZeroFilledWithin(c, LogStart + 512 * k, RecordSize);
    }
    DumpBlocks(c);
  }

  lemma LastBlock(a: nat, q: nat, r: nat)
    requires a == 512 * q + r && 0 < r < 512
    ensures (a + 511) / 512 == q + 1
  {
  }

  /** When the file ends inside a block, that block is still decoded: from
      the rest of the file followed by zeros. */
  lemma PartialFinalBlock(c: seq<byte>)
    requires |c| > LogStart && (|c| - LogStart) % 512 != 0
    ensures var n := (|c| - LogStart) / 512;
      var at := LogStart + 512 * n;
      var blocks := LogBlocks(c);
      at < |c| < at + RecordSize && |blocks| == n + 2
      && ZeroFilled(c, at, RecordSize) == c[at..] + Zeros(at + RecordSize - |c|)
      && blocks[n] == DecodeLogBlock(ZeroFilled(c, at, RecordSize))
  {
    var n := (|c| - LogStart) / 512;
    var at := LogStart + 512 * n;
    LastBlock(|c| - LogStart, n, (|c| - LogStart) % 512);
    assert BlockCount(c, LogStart) == n + 1;
    ScanLength(c, LogStart);
    ScanAt(c, LogStart, n, at);
    ZeroFilledTail(c, at, RecordSize);
  }
}
