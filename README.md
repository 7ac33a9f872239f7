# redo_log_dumper in Dafny

A model of `redo_log_dumper`, a small Go program that dumps an InnoDB redo
log file (`ib_logfile0`). It does four things:

1. Decodes the 512-byte file header at offset 0.
2. Decodes the two 512-byte checkpoint records at 512 and 1024.
3. Seeks over one more block.
4. Decodes 512-byte log blocks from offset 2048 until a read fails.

Every multi-byte field is an unsigned big-endian integer. A log block is the
first block of a flush write segment when bit 31 of its header number is set.

## Modules

Each module has one `.dfy` file.

- `BigEndian` (`bigendian.dfy`): Go's `byte` and `uintN` types, the
  big-endian reading `BE` of a `w`-byte field, and its inverse `EncodeBE`.
- `Bytes` and `Words` (`bytes.dfy`, `words.dfy`): the 32-bit bit-vector view
  of a field, needed for the mask `0x80000000`.
- `Layout` (`layout.dfy`): a struct as `binary.Read` sees it, a list of
  fixed-width fields. `Walk` reads those fields in declaration order. It
  consumes the blank `_` fields and does not store them.
- `HeaderRecord`, `CheckpointRecord`, `LogBlockRecord` (`header.dfy`,
  `checkpoint.dfy`, `logblock.dfy`): the three structs. For each one:
  - its layout;
  - an explicit decoder reading every field at its offset;
  - an encoder;
  - proofs that the decoder follows the layout and that padding bytes are
    ignored;
  - round trips in both directions.
- `Reader` (`reader.dfy`):
  - the open file, a class with its contents and a read cursor;
  - `os.File.Read` on it;
  - the `readNextBytes` and `readIntoStruct` helpers, as methods proved
    against the functions `ReadNext` and `ReadInto`.
- `Dumper` (`dumper.dfy`): the driver in `main` as the method
  `DumpRedoLog`. What it decodes is stated by the function `DumpOf` of the
  file contents, and by lemmas that say which file bytes every record comes
  from.

## Short reads

`readNextBytes` ignores the byte count that
`Read` returns, so a short read is not an error: it returns a 512-byte buffer
that is zero-filled past the end of the file. Only a read with nothing left
fails (`io.EOF`). Two consequences follow.

- A file that ends inside a log block still yields that block, decoded from
  the remaining bytes followed by zeros (`Dumper.PartialFinalBlock`).
- The loop stores one more record after the last block: the untouched
  `LogBlock{}` of the read that failed (`Dumper.ScanFrom`,
  `Dumper.DumpBlocks`).

## Model

| member | source | states |
|---|---|---|
| BigEndian.BE | main.go:128 | a `w`-byte big-endian field's value is below 256^w |
| BigEndian.BEIsWeightedSum | main.go:128 | the big-endian reading equals Σ buf[off+i]·256^(w-1-i) |
| BigEndian.BEFrame | main.go:128 | a field's value depends only on its own `w` bytes |
| BigEndian.DecodeEncode | main.go:128 | reading back the bytes that encode `v` gives `v`, for every `v < 256^w` |
| BigEndian.EncodeDecode | main.go:128 | encoding the value read from a field reproduces the field's bytes |
| BigEndian.SameField | main.go:128 | two fields of the same width have equal values iff they have equal bytes |
| BigEndian.U16 | main.go:38-39 | a `uint16` field is buf[off]·2^8 + buf[off+1], the formula of binary.BigEndian.Uint16, and equals the generic reading `BE` |
| BigEndian.U32 | main.go:15 | a `uint32` field is buf[off]·2^24 + buf[off+1]·2^16 + buf[off+2]·2^8 + buf[off+3], the formula of binary.BigEndian.Uint32, and equals `BE` |
| BigEndian.U64 | main.go:16 | a `uint64` field is Σ buf[off+i]·2^(8·(7-i)) over its 8 bytes, written out as binary.BigEndian.Uint64 computes it, and equals `BE` |
| Bytes.ByteOf | main.go:128 | bridge to the bit-vector view: the 8-bit vector built from 0 <= x < 256 has the value x |
| Words.Word32 | main.go:128 | bridge to the bit-vector view: the word assembled from up to 4 bytes with shifts and ors, as binary.BigEndian.Uint32 does inside binary.Read, has the field's big-endian value |
| Words.TopBit | main.go:61 | `b & 0x80000000 == 0x80000000` iff b >= 2^31, for every 32-bit word |
| Words.TopBitSetIff | main.go:109 | the mask test on a `uint32` value agrees with the test value >= 2^31 |
| Layout.Walk | main.go:128 | `binary.Read`'s field walk stores one value per non-blank field, in declaration order |
| HeaderRecord.DecodeHeader | main.go:14-20 | defined by its body, reading GroupNumber, FirstLSN and ArchivedLogFileNumber at 0, 4 and 12; tied to the struct by `HeaderRecord.DecodeHeaderFollowsLayout` |
| HeaderRecord.HeaderLayout | main.go:14-20 | the header's fields take exactly 512 bytes, the size main_test.go:10-15 asserts |
| HeaderRecord.DecodeHeaderFollowsLayout | main.go:14-20 | the explicit decoder gives the values the layout walk reads: GroupNumber at 0-3, FirstLSN at 4-11, ArchivedLogFileNumber at 12-15 |
| HeaderRecord.HeaderPaddingIgnored | main.go:18-19 | two buffers decode to the same header iff their first 16 bytes agree, so the 496 blank bytes never matter |
| HeaderRecord.HeaderDecodeEncode | main.go:14-17 | decoding an encoded header gives it back |
| HeaderRecord.HeaderEncodeDecode | main.go:14-20 | a buffer with zero padding is the encoding of the header it decodes to |
| CheckpointRecord.DecodeCheckpoint | main.go:22-34 | defined by its body, one read per non-blank field; tied to the struct by `CheckpointRecord.DecodeCheckpointFollowsLayout` |
| CheckpointRecord.CheckpointLayout | main.go:22-34 | the checkpoint's fields take exactly 512 bytes |
| CheckpointRecord.DecodeCheckpointFollowsLayout | main.go:22-34 | the explicit decoder reads fields at 0x00, 0x08, 0x10, 0x14, 0x18, 0x120, 0x124, 0x128 and 0x12C, as the layout walk does |
| CheckpointRecord.CheckpointPaddingIgnored | main.go:28-33 | two buffers decode to the same checkpoint iff they agree on 0x00-0x1F and 0x120-0x12F |
| CheckpointRecord.CheckpointDecodeEncode | main.go:22-34 | decoding an encoded checkpoint gives it back |
| CheckpointRecord.CheckpointEncodeDecode | main.go:22-34 | a buffer with zero spacing and padding is the encoding of the checkpoint it decodes to |
| LogBlockRecord.DecodeLogBlock | main.go:36-44 | defined by its body, one read per field and Data verbatim; tied to the struct by `LogBlockRecord.DecodeLogBlockFollowsLayout` |
| LogBlockRecord.LogBlockLayout | main.go:36-44 | the log block's fields take exactly 512 bytes, with no padding |
| LogBlockRecord.DecodeLogBlockFollowsLayout | main.go:36-44 | the explicit decoder matches the layout walk: HeaderNumber 0-3, BlockSize 4-5, Offset 6-7, CurrentActiveCheckpoint 8-11, HdrSize 12-13, Data 14-507 verbatim, Checksum 508-511 |
| LogBlockRecord.LogBlockDecodeEncode | main.go:36-44 | decoding an encoded log block gives it back |
| LogBlockRecord.LogBlockEncodeDecode | main.go:36-44 | every 512-byte buffer is the encoding of the log block it decodes to |
| LogBlockRecord.LogBlockDecodeInjective | main.go:42 | two buffers decode to the same log block iff they are equal, since every byte is stored |
| LogBlockRecord.IsFirstBlock | main.go:109 | defined by its body, the mask test `HeaderNumber & 0x80000000 == 0x80000000` on the bit-vector view; its meaning is `LogBlockRecord.IsFirstBlockIff` |
| LogBlockRecord.IsFirstBlockIff | main.go:109 | a block is the first of a segment iff its header number is at least 2^31 |
| Reader.File.Open | main.go:49 | an opened file has the given contents and its cursor at 0 |
| Reader.File.Read | main.go:139 | `Read` copies min(len(buf), bytes left) bytes from the cursor and advances past them; it reports EOF only when nothing was left and buf is non-empty; the rest of buf is unchanged |
| Reader.File.SeekCurrent | main.go:102 | seeking from the current position moves the cursor by the offset, also past the end of the file |
| Reader.ZeroFilledWithin | main.go:137-139 | a read that lies inside the file fills the buffer with exactly the file's bytes |
| Reader.ZeroFilledTail | main.go:137-139 | a read that runs into the end of the file fills the rest of the file's bytes, then zeros |
| Reader.ReadNext | main.go:136-145 | defined by its body, what `readNextBytes` returns for contents, cursor and count; its shape is `Reader.ReadNextShape`, and `Reader.ReadNextBytes` is proved equal to it |
| Reader.ReadNextShape | main.go:136-145 | `readNextBytes` fails iff number > 0 and nothing is left; otherwise it returns `number` bytes, the available prefix and then zeros |
| Reader.ReadNextBytes | main.go:136-145 | the method allocates a zeroed buffer, reads into it, and returns `ReadNext`'s result; the cursor advances by the bytes read |
| Reader.Decode | main.go:127-128 | `binary.Read` into a struct gives a value of the same struct type |
| Reader.ReadInto | main.go:121-134 | `readIntoStruct` fails iff the read fails or the buffer is shorter than 512 bytes; on failure `*dest` keeps its value |
| Reader.ReadIntoBlock | main.go:121-134 | for size 512 it fails iff the cursor is at or past the end; otherwise `*dest` is the 512 bytes at the cursor, zero-filled, decoded as dest's type |
| Reader.ReadIntoStruct | main.go:121-134 | the method leaves in `dest` and returns what `ReadInto` says, and advances the cursor by the bytes read |
| Dumper.HeaderAt | main.go:58-59 | defined by its body, the header a fresh `Header{}` holds after one read at the cursor; tied to readIntoStruct by `Dumper.HeaderStep` |
| Dumper.CheckpointAt | main.go:69-71 | defined by its body, the same for a fresh `Checkpoint{}`; tied to readIntoStruct by `Dumper.CheckpointStep` |
| Dumper.DumpOf | main.go:58-117 | defined by its body, every record main decodes from a file's contents; `Dumper.DumpRedoLog` is proved to compute it |
| Dumper.LogBlocks | main.go:100-117 | defined by its body, the loop's records, none when the second checkpoint read fails; described by `Dumper.DumpBlocks`, `Dumper.WholeBlocks` and `Dumper.PartialFinalBlock` |
| Dumper.LoopEnd | main.go:105-107 | the cursor where the loop stops is never before where it started, and at or past the end of the file whenever the loop ran |
| Dumper.ScanFrom | main.go:105-117 | the loop stores at least one record, and the last one is `LogBlock{}` |
| Dumper.HeaderStep | main.go:58-59 | reading into a fresh `Header{}` fails exactly at the end of the file and leaves `HeaderAt` |
| Dumper.CheckpointStep | main.go:69-71 | reading into a fresh `Checkpoint{}` fails exactly at the end of the file and leaves `CheckpointAt` |
| Dumper.BlockStep | main.go:106-107 | reading into a fresh `LogBlock{}` fails exactly at the end of the file and leaves the first record of `ScanFrom` |
| Dumper.ReadHeader | main.go:58-59 | the header read returns `HeaderAt` the cursor and advances it |
| Dumper.ReadCheckpoint | main.go:69-71 | each checkpoint read returns `CheckpointAt` the cursor and advances it |
| Dumper.ReadLogBlock | main.go:106-107 | one iteration's read stores the head of `ScanFrom`; the loop's remaining records follow unless the read failed |
| Dumper.BlockLoop | main.go:105-117 | the loop, entered with the second checkpoint's error, stores nothing if that read failed and otherwise exactly `ScanFrom` from the cursor; the cursor ends where `LoopEnd` says: unchanged if the loop was entered failed or at or past the end of the file (the failing read moves nothing), and otherwise exactly at the end of the file |
| Dumper.DumpRedoLog | main.go:58-117 | main on an opened file decodes exactly `DumpOf(contents)`: the header at 0, the checkpoints at 512 and 1024, and the log blocks from 2048 only when the file is longer than 1024 bytes; the cursor ends at or past the end of the file, exactly at it when the file is longer than 2048 bytes, and at min(1536, size) + 512 otherwise |
| Dumper.ScanLength | main.go:105-107 | the loop stores ceil(bytes left / 512) blocks, plus the zero record |
| Dumper.ScanAt | main.go:105-107 | block k comes from the 512 bytes at pos + 512·k, zero-filled past the end |
| Dumper.ScanShape | main.go:105-117 | the count and the source offset of every block the loop stores, together |
| Dumper.DumpBlocks | main.go:100-117 | for a file longer than 1024 bytes, block k comes from offset 2048 + 512·k, and the last record is `LogBlock{}` |
| Dumper.WholeBlocks | main.go:100-117 | a file of 2048 + 512·n bytes yields its n blocks, each decoded from exactly its own 512 bytes, then `LogBlock{}` |
| Dumper.PartialFinalBlock | main.go:136-145 | a file that ends inside a block still yields that block, decoded from the rest of the file followed by zeros |

## Left out

- Printing: every `fmt.Printf`/`Println` of main.go:56-116 is left out, including the `0x%d` format at main.go:76 and the `Current position` line. The model states what is decoded, not how it is rendered.
- `os.Open`, the hard-coded path, `log.Fatal` and `defer file.Close()` (main.go:47-54) are OS plumbing. `Reader.File.Open` takes the file's contents directly.
- I/O errors other than end of file are not modelled. `Reader.File.Read` is a read of a regular file that nobody else modifies.
- `Reader.File.SeekCurrent` only moves the cursor. `Seek`'s own error cannot occur for a regular file, and main.go:102 shadows it anyway.
- `errors.Wrap` (main.go:130): a wrapped error is modelled as a plain failure.
- The reflection inside `binary.Read` is replaced by explicit per-field decoders. Each decoder is proved equal to the generic layout walk `Layout.Walk`.
- Checksums are not computed, because the code never computes them. The comments at main.go:29-30 and main.go:43 only describe them.
- The `testutils` helper of main_test.go is not part of this model. Its one fact, that the header is 512 bytes, is `HeaderRecord.HeaderLayout`.
- Bytes are the integer type `BigEndian.byte` (0 to 255) rather than bit-vectors, so that big-endian arithmetic stays integer arithmetic. The bit-vector view is used only for the mask test.
- The loop counter `i` of main.go:105 is kept in `Dumper.BlockLoop`, but nothing reads it, just as in the source.
- The Go field `CuurentFSP` is called `currentFsp`.
