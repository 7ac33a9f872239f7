/** Big-endian unsigned integers over byte strings.

    Every multi-byte field of the redo log is read with encoding/binary's
    BigEndian byte order: the first byte of a field is its most significant.
    BE is the reading and EncodeBE its inverse. Bytes and integers are
    bounded integers here; the machine-word view of a field lives in Words. */
module BigEndian {

  /** Go's byte and fixed-width unsigned integer types. */
  newtype byte = x: int | 0 <= x < 0x100
  newtype uint16 = x: int | 0 <= x < 0x1_0000
  newtype uint32 = x: int | 0 <= x < 0x1_0000_0000
  newtype uint64 = x: int | 0 <= x < 0x1_0000_0000_0000_0000

  /** 256 to the power w: the number of values a w-byte field can hold. */
  function Pow256(w: nat): (r: nat)
    ensures r > 0
  {
    if w == 0 then 1 else 256 * Pow256(w - 1)
  }

  lemma Pow256Widths()
    ensures Pow256(2) == 0x1_0000
    ensures Pow256(3) == 0x100_0000
    ensures Pow256(4) == 0x1_0000_0000
    ensures Pow256(8) == 0x1_0000_0000_0000_0000
  {
  }

  lemma {:induction false} Pow256Mono(a: nat, b: nat)
    requires a <= b
    ensures Pow256(a) <= Pow256(b)
    decreases b
  {
    if a < b {
      Pow256Mono(a, b - 1);
    }
  }

  /** The w-byte big-endian unsigned integer stored at buf[off..off + w]. */
  function BE(buf: seq<byte>, off: nat, w: nat): (r: nat)
    requires off + w <= |buf|
    ensures r < Pow256(w)
    decreases w
  {
    if w == 0 then 0 else BE(buf, off, w - 1) * 256 + buf[off + w - 1] as int
  }

  /** The textbook reading of a big-endian field, summed from its first byte:
      the byte at off + i weighs 256^(w - 1 - i). */
  function WeightedSum(buf: seq<byte>, off: nat, w: nat): nat
    requires off + w <= |buf|
    decreases w
  {
    if w == 0 then 0 else buf[off] as int * Pow256(w - 1) + WeightedSum(buf, off + 1, w - 1)
  }

  lemma ShiftOutLeading(b: nat, p: nat, rest: nat, last: nat)
    ensures (b * p + rest) * 256 + last == b * (256 * p) + (rest * 256 + last)
  {
  }

  /** BE, which accumulates byte by byte, is the weighted sum
      Σ buf[off + i] · 256^(w - 1 - i). */
  lemma {:induction false} BEIsWeightedSum(buf: seq<byte>, off: nat, w: nat)
    requires off + w <= |buf|
    ensures BE(buf, off, w) == WeightedSum(buf, off, w)
    decreases w
  {
    if w >= 2 {
      BEIsWeightedSum(buf, off, w - 1);
      BEIsWeightedSum(buf, off + 1, w - 1);
      BEIsWeightedSum(buf, off + 1, w - 2);
      var b := buf[off] as int;
      var p := Pow256(w - 2);
      var rest := BE(buf, off + 1, w - 2);
      var last := buf[off + w - 1] as int;
      assert Pow256(w - 1) == 256 * p;
      assert WeightedSum(buf, off, w - 1) == b * p + WeightedSum(buf, off + 1, w - 2);
      assert BE(buf, off, w - 1) == b * p + rest;
      assert BE(buf, off + 1, w - 1) == rest * 256 + last;
      assert BE(buf, off, w) == BE(buf, off, w - 1) * 256 + last;
      ShiftOutLeading(b, p, rest, last);
      assert WeightedSum(buf, off, w) == b * Pow256(w - 1) + WeightedSum(buf, off + 1, w - 1);
    }
  }

  /** A field's value depends on its own w bytes and on nothing else. */
  lemma {:induction false} BEFrame(a: seq<byte>, oa: nat, b: seq<byte>, ob: nat, w: nat)
    requires oa + w <= |a| && ob + w <= |b|
    requires a[oa..oa + w] == b[ob..ob + w]
    ensures BE(a, oa, w) == BE(b, ob, w)
    decreases w
  {
    if w > 0 {
      assert a[oa..oa + (w - 1)] == a[oa..oa + w][..w - 1];
      assert b[ob..ob + (w - 1)] == b[ob..ob + w][..w - 1];
      BEFrame(a, oa, b, ob, w - 1);
      assert a[oa + w - 1] == a[oa..oa + w][w - 1];
      assert b[ob + w - 1] == b[ob..ob + w][w - 1];
    }
  }

  /** The w bytes that store v big-endian. */
  function EncodeBE(v: nat, w: nat): (r: seq<byte>)
    requires v < Pow256(w)
    ensures |r| == w
    decreases w
  {
    if w == 0 then [] else EncodeBE(v / 256, w - 1) + [(v % 256) as byte]
  }

  /** Appending a byte to a field shifts its value left by one byte. */
  lemma {:induction false} BESnoc(p: seq<byte>, b: byte)
    ensures BE(p + [b], 0, |p| + 1) == BE(p, 0, |p|) * 256 + b as int
  {
    var e := p + [b];
    assert e[..|p|] == p;
    BEFrame(e, 0, p, 0, |p|);
    assert e[|p|] == b;
  }

  /** Reading back the bytes EncodeBE writes gives the value written. */
  lemma {:induction false} DecodeEncode(v: nat, w: nat)
    requires v < Pow256(w)
    ensures BE(EncodeBE(v, w), 0, w) == v
    decreases w
  {
    if w > 0 {
      var prefix := EncodeBE(v / 256, w - 1);
      var last := (v % 256) as byte;
      assert EncodeBE(v, w) == prefix + [last];
      DecodeEncode(v / 256, w - 1);
      BESnoc(prefix, last);
    }
  }

  lemma DivModByte(hi: nat, lo: nat)
    requires lo < 256
    ensures (hi * 256 + lo) / 256 == hi && (hi * 256 + lo) % 256 == lo
  {
  }

  lemma SliceSnoc(buf: seq<byte>, i: nat, j: nat)
    requires i < j <= |buf|
    ensures buf[i..j] == buf[i..j - 1] + [buf[j - 1]]
  {
  }

  /** Writing back the value BE reads gives the bytes read. */
  lemma {:induction false} EncodeDecode(buf: seq<byte>, off: nat, w: nat)
    requires off + w <= |buf|
    ensures EncodeBE(BE(buf, off, w), w) == buf[off..off + w]
    decreases w
  {
    if w > 0 {
      var hi := BE(buf, off, w - 1);
      var lo := buf[off + w - 1];
      var v := hi * 256 + lo as int;
      assert BE(buf, off, w) == v;
      DivModByte(hi, lo as int);
      EncodeDecode(buf, off, w - 1);
      SliceSnoc(buf, off, off + w);
      assert EncodeBE(v, w) == EncodeBE(hi, w - 1) + [lo];
    }
  }

  /** n zero bytes: what a freshly made Go byte slice holds. */
  function Zeros(n: nat): (r: seq<byte>)
    ensures |r| == n
  {
    seq(n, _ => 0)
  }

  /** Two fields of the same width have the same value exactly when they
      consist of the same bytes. */
  lemma SameField(a: seq<byte>, oa: nat, b: seq<byte>, ob: nat, w: nat)
    requires oa + w <= |a| && ob + w <= |b|
    ensures BE(a, oa, w) == BE(b, ob, w) <==> a[oa..oa + w] == b[ob..ob + w]
  {
    if a[oa..oa + w] == b[ob..ob + w] {
      BEFrame(a, oa, b, ob, w);
    }
    if BE(a, oa, w) == BE(b, ob, w) {
      EncodeDecode(a, oa, w);
      EncodeDecode(b, ob, w);
    }
  }

  /** A field whose bytes are those EncodeBE writes for v reads back as v. */
  lemma ReadBack(buf: seq<byte>, off: nat, v: nat, w: nat)
    requires off + w <= |buf| && v < Pow256(w)
    requires forall j | 0 <= j < w :: buf[off + j] == EncodeBE(v, w)[j]
    ensures BE(buf, off, w) == v
  {
    var e := EncodeBE(v, w);
    assert buf[off..off + w] == e[0..w];
    BEFrame(buf, off, e, 0, w);
    DecodeEncode(v, w);
  }

  /** Two byte strings agree on lo..hi exactly when they agree on lo..mid
      and on mid..hi. */
  lemma AgreeSplit(a: seq<byte>, b: seq<byte>, lo: nat, mid: nat, hi: nat)
    requires lo <= mid <= hi <= |a| && hi <= |b|
    ensures a[lo..hi] == b[lo..hi] <==> a[lo..mid] == b[lo..mid] && a[mid..hi] == b[mid..hi]
  {
    assert a[lo..hi] == a[lo..mid] + a[mid..hi];
    assert b[lo..hi] == b[lo..mid] + b[mid..hi];
    if a[lo..hi] == b[lo..hi] {
      assert a[lo..mid] == a[lo..hi][..mid - lo] && b[lo..mid] == b[lo..hi][..mid - lo];
      assert a[mid..hi] == a[lo..hi][mid - lo..] && b[mid..hi] == b[lo..hi][mid - lo..];
    }
  }

  /** The unsigned Go integer types read from a buffer, as encoding/binary's
      BigEndian.Uint16, Uint32 and Uint64 assemble them: the first byte is
      the most significant, each next byte weighs 256 times less. */
  function U16(buf: seq<byte>, off: nat): (r: uint16)
    requires off + 2 <= |buf|
    ensures r as int == BE(buf, off, 2)
    ensures r as int == buf[off] as int * 0x100 + buf[off + 1] as int
  {
    BE(buf, off, 2) as uint16
  }

  function U32(buf: seq<byte>, off: nat): (r: uint32)
    requires off + 4 <= |buf|
    ensures r as int == BE(buf, off, 4)
    ensures r as int == buf[off] as int * 0x100_0000 + buf[off + 1] as int * 0x1_0000
                      + buf[off + 2] as int * 0x100 + buf[off + 3] as int
  {
    BE(buf, off, 4) as uint32
  }

  function U64(buf: seq<byte>, off: nat): (r: uint64)
    requires off + 8 <= |buf|
    ensures r as int == BE(buf, off, 8)
    ensures r as int == buf[off] as int * 0x100_0000_0000_0000 + buf[off + 1] as int * 0x1_0000_0000_0000
                      + buf[off + 2] as int * 0x100_0000_0000 + buf[off + 3] as int * 0x1_0000_0000
                      + buf[off + 4] as int * 0x100_0000 + buf[off + 5] as int * 0x1_0000
                      + buf[off + 6] as int * 0x100 + buf[off + 7] as int
  {
    BE(buf, off, 8) as uint64
  }
}
