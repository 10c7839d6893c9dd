/**
 * Vocabulary shared by both decryptor variants: bytes, fixed-size blocks,
 * keys and digests, a result type, little-endian integers and the layout of
 * the ITG2 container header.
 */
module Primitives {

  /** An unsigned byte. Bit-vector arithmetic wraps modulo 256, like Rust's
      `wrapping_sub` on `u8` and Go's `uint8` subtraction. */
  type u8 = bv8

  /** An unsigned 32-bit integer. */
  type u32 = x: int | 0 <= x < 0x1_0000_0000

  /** One AES block. */
  type Block = b: seq<u8> | |b| == 16 witness seq(16, _ => 0)

  /** An AES-192 key. */
  type Key = k: seq<u8> | |k| == 24 witness seq(24, _ => 0)

  /** A SHA-512 digest. */
  type Digest = d: seq<u8> | |d| == 64 witness seq(64, _ => 0)

  /** What one read into a 16-byte buffer can deliver. */
  type Chunk = c: seq<u8> | |c| <= 16

  const ZeroBlock: Block := [0, 0, 0, 0, 0, 0, 0, 0, 0, 0, 0, 0, 0, 0, 0, 0]

  datatype Option<T> = None | Some(value: T)

  datatype Result<T, E> = Ok(value: T) | Err(error: E)

  function Min(a: int, b: int): (m: int)
  {
    if a < b then a else b
  }

  /** The bytes `[b0, b1, b2, b3]` read as a little-endian unsigned 32-bit
      integer, as `read_u32_le` and Go's `binary.LittleEndian` do. */
  function DecodeU32Le(b: seq<u8>): (v: u32)
    requires |b| == 4
    ensures b[3] as int * 0x100_0000 <= v < (b[3] as int + 1) * 0x100_0000
    ensures b[1] == b[2] == b[3] == 0 ==> v == b[0] as int
  {
    b[0] as int + b[1] as int * 0x100 + b[2] as int * 0x1_0000 + b[3] as int * 0x100_0000
  }

  /** The four little-endian bytes of `v`, least significant first. */
  function EncodeU32Le(v: u32): (b: seq<u8>)
    ensures |b| == 4
  {
    var q1 := v / 0x100;
    var q2 := q1 / 0x100;
    [(v % 0x100) as u8, (q1 % 0x100) as u8, (q2 % 0x100) as u8, (q2 / 0x100) as u8]
  }

  lemma ByteToIntRoundTrip(x: int)
    requires 0 <= x < 0x100
    ensures (x as u8) as int == x
  {
    if x < 0x80 {
      if x < 0x40 {} else {}
    } else {
      if x < 0xC0 {} else {}
    }
  }

  /** Splitting an integer into a low byte and the rest. */
  lemma SplitLowByte(v: int)
    requires 0 <= v
    ensures v == v % 0x100 + 0x100 * (v / 0x100)
    ensures 0 <= v % 0x100 < 0x100
  {
  }

  /** Division by 256 undoes appending a low byte. */
  lemma LowByteSplitUnique(lo: int, hi: int)
    requires 0 <= lo < 0x100 && 0 <= hi
    ensures (lo + 0x100 * hi) % 0x100 == lo && (lo + 0x100 * hi) / 0x100 == hi
  {
  }

  lemma DecodeEncodeU32Le(v: u32)
    ensures DecodeU32Le(EncodeU32Le(v)) == v
  {
    var q1 := v / 0x100;
    var q2 := q1 / 0x100;
    SplitLowByte(v);
    SplitLowByte(q1);
    SplitLowByte(q2);
    ByteToIntRoundTrip(v % 0x100);
    ByteToIntRoundTrip(q1 % 0x100);
    ByteToIntRoundTrip(q2 % 0x100);
    ByteToIntRoundTrip(q2 / 0x100);
  }

  lemma EncodeOfDigits(d0: int, d1: int, d2: int, d3: int)
    requires 0 <= d0 < 0x100 && 0 <= d1 < 0x100 && 0 <= d2 < 0x100 && 0 <= d3 < 0x100
    ensures EncodeU32Le(d0 + 0x100 * (d1 + 0x100 * (d2 + 0x100 * d3)))
         == [d0 as u8, d1 as u8, d2 as u8, d3 as u8]
  {
    var t2 := d2 + 0x100 * d3;
    var t1 := d1 + 0x100 * t2;
    var v := d0 + 0x100 * t1;
    DigitStep(t2, d2, d3, 0x100);
    DigitStep(t1, d1, t2, 0x1_0000);
    DigitStep(v, d0, t1, 0x100_0000);
    EncodeOfQuotients(v, t1, t2, d0, d1, d2, d3);
  }

  /** `v`, made of a low byte and a higher part below `bound`, divides back
      into the two and stays below `256 * bound`. */
  lemma DigitStep(v: int, lo: int, hi: int, bound: int)
    requires v == lo + 0x100 * hi && 0 <= lo < 0x100 && 0 <= hi < bound
    ensures v % 0x100 == lo && v / 0x100 == hi && 0 <= v < 0x100 * bound
  {
    LowByteSplitUnique(lo, hi);
  }

  /** The bytes of `v` from its successive quotients by 256. */
  lemma EncodeOfQuotients(v: u32, q1: int, q2: int, d0: int, d1: int, d2: int, d3: int)
    requires v % 0x100 == d0 && v / 0x100 == q1 && q1 % 0x100 == d1 && q1 / 0x100 == q2
    requires q2 % 0x100 == d2 && q2 / 0x100 == d3
    ensures EncodeU32Le(v) == [d0 as u8, d1 as u8, d2 as u8, d3 as u8]
  {
  }

  lemma DecodeAsNested(b: seq<u8>)
    requires |b| == 4
    ensures DecodeU32Le(b) == b[0] as int + 0x100 * (b[1] as int + 0x100 * (b[2] as int + 0x100 * b[3] as int))
  {
  }

  lemma BytesThroughInt(b: seq<u8>)
    requires |b| == 4
    ensures [(b[0] as int) as u8, (b[1] as int) as u8, (b[2] as int) as u8, (b[3] as int) as u8] == b
  {
  }

  lemma EncodeDecodeU32Le(b: seq<u8>)
    requires |b| == 4
    ensures EncodeU32Le(DecodeU32Le(b)) == b
  {
    DecodeAsNested(b);
    EncodeOfDigits(b[0] as int, b[1] as int, b[2] as int, b[3] as int);
    BytesThroughInt(b);
  }

  /** The test vector of the little-endian reader: bytes e1 07 00 00 are 2017. */
  lemma DecodeU32LeExample()
    ensures DecodeU32Le([0xe1, 0x07, 0, 0]) == 2017
  {
  }

  /** The header of an ITG2 container as plain values. */
  datatype HeaderFields = HeaderFields(
    magic: seq<u8>,
    fileSize: u32,
    subkeySize: u32,
    subkey: seq<u8>,
    verifyBlock: seq<u8>)

  /** A header as it is laid out on disk: magic (2 bytes), plaintext size and
      subkey length (little-endian u32 each), the subkey, the verify block. */
  predicate WellFormedHeader(h: HeaderFields)
  {
    |h.magic| == 2 && |h.subkey| == h.subkeySize && |h.verifyBlock| == 16
  }

  function EncodeHeader(h: HeaderFields): (bytes: seq<u8>)
    requires WellFormedHeader(h)
    ensures |bytes| == 26 + h.subkeySize
  {
    h.magic + EncodeU32Le(h.fileSize) + EncodeU32Le(h.subkeySize) + h.subkey + h.verifyBlock
  }

  /** The fields of `EncodeHeader(h) + payload` sit at the offsets of the
      container layout: size at 2, subkey length at 6, subkey at 10, verify
      block at 10 + subkey length, payload after that. */
  lemma EncodeHeaderOffsets(h: HeaderFields, payload: seq<u8>)
    requires WellFormedHeader(h)
    ensures var s, n := EncodeHeader(h) + payload, h.subkeySize;
      && s[..2] == h.magic
      && DecodeU32Le(s[2..6]) == h.fileSize
      && DecodeU32Le(s[6..10]) == h.subkeySize
      && s[10..10 + n] == h.subkey
      && s[10 + n..26 + n] == h.verifyBlock
      && s[26 + n..] == payload
  {
    var s, n := EncodeHeader(h) + payload, h.subkeySize;
    assert s == h.magic + EncodeU32Le(h.fileSize) + EncodeU32Le(h.subkeySize) + h.subkey + h.verifyBlock + payload;
    assert s[2..6] == EncodeU32Le(h.fileSize);
    assert s[6..10] == EncodeU32Le(h.subkeySize);
    DecodeEncodeU32Le(h.fileSize);
    DecodeEncodeU32Le(h.subkeySize);
  }

  /** The header fields found at the container offsets of `data`. */
  function HeaderAt(data: seq<u8>): (h: HeaderFields)
    requires |data| >= 10 && |data| >= 26 + DecodeU32Le(data[6..10])
    ensures WellFormedHeader(h)
  {
    var n := DecodeU32Le(data[6..10]);
    var size := DecodeU32Le(data[2..6]);
    HeaderFields(data[..2], size, n, data[10..][..n], data[10 + n..][..16])
  }

  /** Reading the fields at their offsets and encoding them again gives the
      bytes they were read from. */
  lemma EncodeHeaderAt(data: seq<u8>)
    requires |data| >= 10 && |data| >= 26 + DecodeU32Le(data[6..10])
    ensures EncodeHeader(HeaderAt(data)) == data[..26 + DecodeU32Le(data[6..10])]
  {
    var n: int := DecodeU32Le(data[6..10]);
    var h := HeaderAt(data);
    var e1, e2 := EncodeU32Le(h.fileSize), EncodeU32Le(h.subkeySize);
    assert e1 == data[2..6] by {
      EncodeDecodeU32Le(data[2..6]);
    }
    assert e2 == data[6..10] by {
      EncodeDecodeU32Le(data[6..10]);
    }
    SliceOfDrop(data, 10, n);
    SliceOfDrop(data, 10 + n, 16);
    HeaderBytesJoin(data, n, h.magic, e1, e2, h.subkey, h.verifyBlock);
  }

  /** The five header fields, cut from `data` at their offsets, join into
      the header's bytes. */
  lemma HeaderBytesJoin(
    data: seq<u8>, n: int, magic: seq<u8>, e1: seq<u8>, e2: seq<u8>, subkey: seq<u8>, verifyBlock: seq<u8>)
    requires 0 <= n && 26 + n <= |data|
    requires magic == data[..2] && e1 == data[2..6] && e2 == data[6..10]
    requires subkey == data[10..10 + n] && verifyBlock == data[10 + n..26 + n]
    ensures magic + e1 + e2 + subkey + verifyBlock == data[..26 + n]
  {
    SlicesJoin(data, 0, 2, 6);
    SlicesJoin(data, 0, 6, 10);
    SlicesJoin(data, 0, 10, 10 + n);
    SlicesJoin(data, 0, 10 + n, 26 + n);
  }

  /** Two adjacent slices join into one. */
  lemma SlicesJoin(s: seq<u8>, i: int, j: int, k: int)
    requires 0 <= i <= j <= k <= |s|
    ensures s[i..j] + s[j..k] == s[i..k]
  {
  }

  /** Taking or dropping `k` after dropping `i` is slicing at `i + k`. */
  lemma SliceOfDrop(s: seq<u8>, i: int, k: int)
    requires 0 <= i && 0 <= k && i + k <= |s|
    ensures s[i..][..k] == s[i..i + k] && s[i..][k..] == s[i + k..]
  {
  }

  /** Concatenation regroups. */
  lemma AppendAssoc(a: seq<u8>, b: seq<u8>, c: seq<u8>)
    ensures (a + b) + c == a + (b + c)
  {
  }

  /** Dropping the front operand of a concatenation leaves the other. */
  lemma DropAppend(a: seq<u8>, b: seq<u8>)
    ensures (a + b)[|a|..] == b
  {
  }

  /** Taking `k + 1` from `[x] + b` keeps `x` and takes `k` from `b`. */
  lemma TakeAfterFirst(x: u8, b: seq<u8>, k: int)
    requires 0 <= k <= |b|
    ensures ([x] + b)[..k + 1] == [x] + b[..k]
  {
  }

  /** Splitting `p` at `k` and appending the halves in turn appends `p`. */
  lemma AppendSplit(w: seq<u8>, p: seq<u8>, k: int)
    requires 0 <= k <= |p|
    ensures w + p[..k] + p[k..] == w + p
  {
    assert p[..k] + p[k..] == p;
  }
}
