/**
 * src/patch_file.rs: the Rust header reader. `extract_metadata` fills a
 * `CryptFileMetadata` field by field from a stream: the 2-byte magic, the
 * plaintext size and the subkey length (little-endian u32 each), the subkey,
 * and the 16-byte verify block. Every read is a `read_exact`, which fails
 * with an "unexpected end of file" error when the input runs out, after
 * putting the bytes that were left at the front of its buffer.
 *
 * As written, the subkey buffer is `Vec::with_capacity(subkey_size)`: a
 * vector of length 0, so the subkey read consumes nothing, the subkey stays
 * empty and the verify block is read from the subkey's bytes. The model
 * keeps that behaviour (`WithCapacity`) and also states the evidently
 * intended one, a buffer of `subkey_size` bytes (`Sized`).
 */
module PatchFile {
  import opened Primitives
  import opened Stream

  /** The error `read_exact` reports when the input ends early. */
  datatype IoError = UnexpectedEof

  /** How the subkey buffer is made before it is read into. */
  datatype SubkeyBuffer = WithCapacity | Sized

  /** The metadata record, updated in place by `extract_metadata`. */
  class CryptFileMetadata {
    const magic: array<u8>
    var fileSize: u32
    var subkeySize: u32
    var subkey: seq<u8>
    const verifyBlock: array<u8>

    ghost predicate Valid()
      reads this
    {
      magic.Length == 2 && verifyBlock.Length == 16 && magic != verifyBlock
    }

    /** The record's fields as plain values. */
    function Value(): HeaderFields
      reads this, magic, verifyBlock
    {
      HeaderFields(magic[..], fileSize, subkeySize, subkey, verifyBlock[..])
    }

    /** `CryptFileMetadata::new()`: zero magic, zero sizes, a subkey of one
        zero byte, a zero verify block. */
    constructor New()
      ensures Valid() && fresh(magic) && fresh(verifyBlock)
      ensures Value() == HeaderFields([0, 0], 0, 0, [0], ZeroBlock)
    {
      magic := new u8[2](_ => 0);
      fileSize := 0;
      subkeySize := 0;
      subkey := [0];
      verifyBlock := new u8[16](_ => 0);
      new;
      assert magic[..] == [0, 0];
      assert verifyBlock[..] == ZeroBlock;
    }
  }

  /** `read_exact`: read until the buffer is full; when a read delivers
      nothing first, fail, the bytes read so far at the buffer's front. */
  method ReadExact(f: Reader, buf: array<u8>) returns (r: Result<(), IoError>)
    requires f.Valid()
    modifies f, buf
    ensures f.Valid()
    ensures buf[..] == FillFrom(old(f.Remaining()), old(buf[..]))
    ensures f.Remaining() == old(f.Remaining())[Min(buf.Length, |old(f.Remaining())|)..]
    ensures r == if |old(f.Remaining())| >= buf.Length then Ok(()) else Err(UnexpectedEof)
  {
    ghost var rem := f.Remaining();
    ghost var before := buf[..];
    var filled := 0;
    while filled < buf.Length
      invariant f.Valid() && filled <= buf.Length && filled <= |rem|
      invariant f.Remaining() == rem[filled..]
      invariant buf[..filled] == rem[..filled] && buf[filled..] == before[filled..]
      decreases buf.Length - filled
    {
      ghost var mid := buf[..];
      var got := f.ReadTo(buf, filled);
      if got == 0 {
        break;
      }
      FrontGrows(buf[..], rem, filled, got);
      assert buf[filled + got..] == before[filled + got..] by {
        assert mid[filled + got..] == before[filled..][got..];
      }
      filled := filled + got;
    }
    FilledFront(buf[..], before, rem, filled);
    if filled < buf.Length {
      return Err(UnexpectedEof);
    }
    return Ok(());
  }

  /** `read_u32_le`: four bytes read with `read_exact`, little-endian. */
  method ReadU32Le(f: Reader) returns (r: Result<u32, IoError>)
    requires f.Valid()
    modifies f
    ensures f.Valid()
    ensures f.Remaining() == old(f.Remaining())[Min(4, |old(f.Remaining())|)..]
    ensures r == if |old(f.Remaining())| >= 4 then Ok(DecodeU32Le(old(f.Remaining())[..4])) else Err(UnexpectedEof)
  {
    var buf := new u8[4](_ => 0);
    var read := ReadExact(f, buf);
    if read.Err? {
      return Err(read.error);
    }
    return Ok(DecodeU32Le(buf[..]));
  }

  /** What `extract_metadata` leaves behind: the record's fields, its
      result, and how many bytes it consumed. */
  datatype Extracted = Extracted(fields: HeaderFields, result: Result<int, IoError>, consumed: nat)

  /** `extract_metadata` on input `data` and a record holding `h0`; the
      subkey buffer made as `buffer` says. */
  function ExtractMetadataSpec(data: seq<u8>, h0: HeaderFields, buffer: SubkeyBuffer): (e: Extracted)
    requires |h0.magic| == 2 && |h0.verifyBlock| == 16
    ensures e.consumed <= |data|
    ensures e.result.Err? ==> e.consumed == |data|
  {
    ExtractSizes(data, h0.(magic := FillFrom(data, h0.magic)), buffer)
  }

  /** The rest of `extract_metadata` once the magic is read into `h`: the
      plaintext size from offset 2, the subkey length from offset 6, then
      `ExtractKeyAndBlock`. */
  function ExtractSizes(data: seq<u8>, h: HeaderFields, buffer: SubkeyBuffer): (e: Extracted)
    requires |h.verifyBlock| == 16
    ensures e.consumed <= |data|
    ensures e.result.Err? ==> e.consumed == |data|
  {
    if |data| < 6 then Extracted(h, Err(UnexpectedEof), |data|)
    else
      var h2 := h.(fileSize := DecodeU32Le(data[2..6]));
      if |data| < 10 then Extracted(h2, Err(UnexpectedEof), |data|)
      else ExtractKeyAndBlock(data, h2.(subkeySize := DecodeU32Le(data[6..10])), buffer)
  }

  /** The rest of `extract_metadata` once both sizes are read into `h`: the
      subkey from offset 10, then the verify block. */
  function ExtractKeyAndBlock(data: seq<u8>, h: HeaderFields, buffer: SubkeyBuffer): (e: Extracted)
    requires |data| >= 10 && |h.verifyBlock| == 16
    ensures e.consumed <= |data|
    ensures e.result.Err? ==> e.consumed == |data|
  {
    var len: int := if buffer == WithCapacity then 0 else h.subkeySize;
    var h3 := h.(subkey := FillFrom(data[10..], seq(len, _ => 0)));
    if |data| < 10 + len then Extracted(h3, Err(UnexpectedEof), |data|)
    else
      var h4 := h3.(verifyBlock := FillFrom(data[10 + len..], h.verifyBlock));
      if |data| < 26 + len then Extracted(h4, Err(UnexpectedEof), |data|)
      else Extracted(h4, Ok(0), 26 + len)
  }

  /** `extract_metadata` as written: each field read in turn, the first
      short read returning its error with the fields read so far updated. */
  method ExtractMetadata(f: Reader, m: CryptFileMetadata) returns (r: Result<int, IoError>)
    requires f.Valid() && m.Valid()
    modifies f, m, m.magic, m.verifyBlock
    ensures f.Valid() && m.Valid() && |f.Remaining()| <= |old(f.Remaining())|
    ensures Extracted(m.Value(), r, |old(f.Remaining())| - |f.Remaining()|)
         == ExtractMetadataSpec(old(f.Remaining()), old(m.Value()), WithCapacity)
  {
    ghost var data := f.Remaining();
    ghost var h0 := m.Value();
    var read := ReadExact(f, m.magic);
    ghost var h1 := h0.(magic := FillFrom(data, h0.magic));
    assert m.Value() == h1;
    if read.Err? {
      return Err(read.error);
    }
    r := ReadSizes(f, m, data);
  }

  /** The two size reads of `extract_metadata`, then the subkey and the
      verify block. */
  method ReadSizes(f: Reader, m: CryptFileMetadata, ghost data: seq<u8>) returns (r: Result<int, IoError>)
    requires f.Valid() && m.Valid() && |data| >= 2 && f.Remaining() == data[2..]
    modifies f, m, m.verifyBlock
    ensures f.Valid() && m.Valid() && |f.Remaining()| <= |old(f.Remaining())|
    ensures Extracted(m.Value(), r, |data| - |f.Remaining()|)
         == ExtractSizes(data, old(m.Value()), WithCapacity)
  {
    ghost var h := m.Value();
    var size := ReadU32Le(f);
    if size.Err? {
      return Err(size.error);
    }
    SliceOfDrop(data, 2, 4);
    m.fileSize := size.value;
    assert m.Value() == h.(fileSize := DecodeU32Le(data[2..6]));
    var subkeySize := ReadU32Le(f);
    if subkeySize.Err? {
      return Err(subkeySize.error);
    }
    SliceOfDrop(data, 6, 4);
    m.subkeySize := subkeySize.value;
    r := ReadKeyAndBlock(f, m, data);
  }

  /** The subkey and verify-block reads of `extract_metadata`. */
  method ReadKeyAndBlock(f: Reader, m: CryptFileMetadata, ghost data: seq<u8>) returns (r: Result<int, IoError>)
    requires f.Valid() && m.Valid() && |data| >= 10 && f.Remaining() == data[10..]
    modifies f, m, m.verifyBlock
    ensures f.Valid() && m.Valid() && |f.Remaining()| <= |old(f.Remaining())|
    ensures Extracted(m.Value(), r, |data| - |f.Remaining()|)
         == ExtractKeyAndBlock(data, old(m.Value()), WithCapacity)
  {
    ghost var h := m.Value();
    // Vec::with_capacity: the vector is empty whatever its capacity, so
    // reading into it consumes nothing and cannot fail
    var subkey := new u8[0];
    var read := ReadExact(f, subkey);
    m.subkey := subkey[..];
    assert m.Value() == h.(subkey := []);
    read := ReadExact(f, m.verifyBlock);
    assert m.Value() == h.(subkey := [], verifyBlock := FillFrom(data[10..], h.verifyBlock));
    if read.Err? {
      return Err(read.error);
    }
    return Ok(0);
  }

  // ------------------------------------------------------------ properties

  /** As written, extraction succeeds exactly when 26 bytes are there,
      whatever the subkey length says. */
  lemma ExtractSucceedsIff(data: seq<u8>, h0: HeaderFields)
    requires |h0.magic| == 2 && |h0.verifyBlock| == 16
    ensures ExtractMetadataSpec(data, h0, WithCapacity).result.Ok? <==> |data| >= 26
  {
  }

  /** With a subkey buffer of the declared length, extraction succeeds
      exactly when the whole header is there. */
  lemma SizedExtractSucceedsIff(data: seq<u8>, h0: HeaderFields)
    requires |h0.magic| == 2 && |h0.verifyBlock| == 16
    ensures ExtractMetadataSpec(data, h0, Sized).result.Ok?
        <==> |data| >= 10 && |data| >= 26 + DecodeU32Le(data[6..10])
  {
  }

  /** Once ten bytes are there, the magic and both sizes are the bytes at
      their offsets and the rest is `ExtractKeyAndBlock`. */
  lemma ExtractReadsSizes(data: seq<u8>, h0: HeaderFields, buffer: SubkeyBuffer)
    requires |h0.magic| == 2 && |h0.verifyBlock| == 16 && |data| >= 10
    ensures ExtractMetadataSpec(data, h0, buffer)
         == ExtractKeyAndBlock(data, h0.(magic := data[..2], fileSize := DecodeU32Le(data[2..6]),
                                         subkeySize := DecodeU32Le(data[6..10])), buffer)
  {
  }

  /** As written and with 26 bytes there, the subkey is empty and the verify
      block is the 16 bytes at offset 10. */
  lemma CapacityKeyAndBlock(data: seq<u8>, h: HeaderFields)
    requires |data| >= 26 && |h.verifyBlock| == 16
    ensures ExtractKeyAndBlock(data, h, WithCapacity)
         == Extracted(h.(subkey := [], verifyBlock := data[10..26]), Ok(0), 26)
  {
    assert FillFrom(data[10..], h.verifyBlock) == data[10..26] by {
      assert FillFrom(data[10..], h.verifyBlock) == data[10..][..16];
    }
  }

  /** As written, a well-formed header is read with an empty subkey and a
      verify block taken from the front of the subkey; only 26 bytes are
      consumed. */
  lemma ExtractDropsSubkey(h: HeaderFields, payload: seq<u8>, h0: HeaderFields)
    requires WellFormedHeader(h)
    requires |h0.magic| == 2 && |h0.verifyBlock| == 16
    ensures var rest := h.subkey + h.verifyBlock + payload;
      ExtractMetadataSpec(EncodeHeader(h) + payload, h0, WithCapacity)
      == Extracted(h.(subkey := [], verifyBlock := rest[..16]), Ok(0), 26)
  {
    var data := EncodeHeader(h) + payload;
    var rest := h.subkey + h.verifyBlock + payload;
    assert data[..2] == h.magic && DecodeU32Le(data[2..6]) == h.fileSize
        && DecodeU32Le(data[6..10]) == h.subkeySize by {
      EncodeHeaderOffsets(h, payload);
    }
    assert data[10..26] == rest[..16] by {
      var sizes := h.magic + EncodeU32Le(h.fileSize) + EncodeU32Le(h.subkeySize);
      AppendAssoc(sizes + h.subkey, h.verifyBlock, payload);
      AppendAssoc(sizes, h.subkey, h.verifyBlock + payload);
      AppendAssoc(h.subkey, h.verifyBlock, payload);
      DropAppend(sizes, rest);
      SliceOfDrop(data, 10, 16);
    }
    var sizes := h0.(magic := h.magic, fileSize := h.fileSize, subkeySize := h.subkeySize);
    assert ExtractMetadataSpec(data, h0, WithCapacity) == ExtractKeyAndBlock(data, sizes, WithCapacity) by {
      ExtractReadsSizes(data, h0, WithCapacity);
    }
    CapacityKeyAndBlock(data, sizes);
    assert sizes.(subkey := [], verifyBlock := rest[..16]) == h.(subkey := [], verifyBlock := rest[..16]);
  }

  /** A concrete header the as-written reader gets wrong: a one-byte subkey
      `[7]` is dropped and the verify block is read one byte early. */
  lemma ExtractDropsSubkeyExample(vb: Block, h0: HeaderFields)
    requires |h0.magic| == 2 && |h0.verifyBlock| == 16
    ensures var h := HeaderFields([0x38, 0x4F], 17, 1, [7], vb);
      var e := ExtractMetadataSpec(EncodeHeader(h), h0, WithCapacity);
      e.result == Ok(0) && e.fields.subkey == [] && e.fields.verifyBlock == [7] + vb[..15]
  {
    var h := HeaderFields([0x38, 0x4F], 17, 1, [7], vb);
    var rest := h.subkey + h.verifyBlock + [];
    assert EncodeHeader(h) + [] == EncodeHeader(h);
    ExtractDropsSubkey(h, [], h0);
    assert rest[..16] == [7] + vb[..15] by {
      assert rest == [7] + vb;
      TakeAfterFirst(7, vb, 15);
    }
  }

  /** With a subkey buffer of the declared length and enough input, the
      subkey and verify block are the bytes at their offsets. */
  lemma SizedKeyAndBlock(data: seq<u8>, h: HeaderFields)
    requires |data| >= 10 && |h.verifyBlock| == 16 && |data| >= 26 + h.subkeySize
    ensures var n := h.subkeySize;
      ExtractKeyAndBlock(data, h, Sized)
      == Extracted(h.(subkey := data[10..][..n], verifyBlock := data[10 + n..][..16]), Ok(0), 26 + n)
  {
  }

  /** With a subkey buffer of the declared length, an input holding a
      whole header is read as the fields at the container offsets. */
  lemma SizedExtractReadsHeaderAt(data: seq<u8>, h0: HeaderFields)
    requires |h0.magic| == 2 && |h0.verifyBlock| == 16
    requires |data| >= 10 && |data| >= 26 + DecodeU32Le(data[6..10])
    ensures ExtractMetadataSpec(data, h0, Sized)
         == Extracted(HeaderAt(data), Ok(0), 26 + DecodeU32Le(data[6..10]))
  {
    var n: nat := DecodeU32Le(data[6..10]);
    var h2 := h0.(magic := data[..2], fileSize := DecodeU32Le(data[2..6]), subkeySize := n);
    assert ExtractMetadataSpec(data, h0, Sized) == ExtractKeyAndBlock(data, h2, Sized) by {
      ExtractReadsSizes(data, h0, Sized);
    }
    assert ExtractKeyAndBlock(data, h2, Sized)
        == Extracted(h2.(subkey := data[10..][..n], verifyBlock := data[10 + n..][..16]), Ok(0), 26 + n) by {
      SizedKeyAndBlock(data, h2);
    }
    assert h2.(subkey := data[10..][..n], verifyBlock := data[10 + n..][..16]) == HeaderAt(data);
  }

  /** With a subkey buffer of the declared length, a well-formed header
      followed by anything is read back exactly, consuming the header. */
  lemma SizedExtractRoundTrip(h: HeaderFields, payload: seq<u8>, h0: HeaderFields)
    requires WellFormedHeader(h)
    requires |h0.magic| == 2 && |h0.verifyBlock| == 16
    ensures ExtractMetadataSpec(EncodeHeader(h) + payload, h0, Sized)
         == Extracted(h, Ok(0), 26 + h.subkeySize)
  {
    var data := EncodeHeader(h) + payload;
    var n: int := h.subkeySize;
    assert HeaderAt(data) == h by {
      EncodeHeaderOffsets(h, payload);
      SliceOfDrop(data, 10, n);
      SliceOfDrop(data, 10 + n, 16);
    }
    SizedExtractReadsHeaderAt(data, h0);
  }

  /** Conversely, what the sized reader accepts is a well-formed header,
      and it is exactly the bytes consumed. */
  lemma SizedExtractReadsEncodedPrefix(data: seq<u8>, h0: HeaderFields)
    requires |h0.magic| == 2 && |h0.verifyBlock| == 16
    requires ExtractMetadataSpec(data, h0, Sized).result.Ok?
    ensures var e := ExtractMetadataSpec(data, h0, Sized);
      WellFormedHeader(e.fields) && EncodeHeader(e.fields) == data[..e.consumed]
  {
    SizedExtractReadsHeaderAt(data, h0);
    EncodeHeaderAt(data);
  }

  /** A short input fails with the fields before the failing read updated
      and the later ones as they were; the failing read itself leaves the
      bytes it got at the front of its field. */
  lemma ShortInputKeepsLaterFields(data: seq<u8>, h0: HeaderFields, buffer: SubkeyBuffer)
    requires |h0.magic| == 2 && |h0.verifyBlock| == 16
    ensures var e := ExtractMetadataSpec(data, h0, buffer);
      && (|data| >= 2 ==> e.fields.magic == data[..2])
      && (|data| < 6 ==> e.result.Err? && e.fields == h0.(magic := e.fields.magic))
      && (6 <= |data| < 10 ==>
            e.result.Err? && e.fields == h0.(magic := data[..2], fileSize := DecodeU32Le(data[2..6])))
  {
  }

  /** A short input that holds both sizes fails in the subkey or verify
      block read: the sizes are updated, the failing field holds the bytes
      that were left, and a field after it is as it was. */
  lemma ShortKeyOrBlockKeepsLaterFields(data: seq<u8>, h0: HeaderFields, buffer: SubkeyBuffer)
    requires |h0.magic| == 2 && |h0.verifyBlock| == 16
    requires |data| >= 10
    ensures var e := ExtractMetadataSpec(data, h0, buffer);
      var n: int := DecodeU32Le(data[6..10]);
      var sizes := h0.(magic := data[..2], fileSize := DecodeU32Le(data[2..6]), subkeySize := n);
      && (|data| < 26 && buffer == WithCapacity ==>
            e.result.Err? && e.fields == sizes.(subkey := [], verifyBlock := FillFrom(data[10..], h0.verifyBlock)))
      && (|data| < 10 + n && buffer == Sized ==>
            e.result.Err? && e.fields == sizes.(subkey := FillFrom(data[10..], seq(n, _ => 0))))
      && (10 + n <= |data| < 26 + n && buffer == Sized ==>
            e.result.Err? && e.fields == sizes.(subkey := data[10..10 + n], verifyBlock := FillFrom(data[10 + n..], h0.verifyBlock)))
  {
    var n: int := DecodeU32Le(data[6..10]);
    var sizes := h0.(magic := data[..2], fileSize := DecodeU32Le(data[2..6]), subkeySize := n);
    var e := ExtractMetadataSpec(data, h0, buffer);
    assert e == ExtractKeyAndBlock(data, sizes, buffer) by {
      ExtractReadsSizes(data, h0, buffer);
    }
    assert sizes.subkeySize as int == n;
    if 10 + n <= |data| < 26 + n && buffer == Sized {
      assert e.result.Err? && e.fields == sizes.(subkey := data[10..10 + n], verifyBlock := FillFrom(data[10 + n..], h0.verifyBlock)) by {
        ShortKeyOrBlock(data, sizes, buffer);
      }
    } else {
      ShortKeyOrBlock(data, sizes, buffer);
    }
  }

  /** `ShortKeyOrBlockKeepsLaterFields` once both sizes are in `h`. */
  lemma ShortKeyOrBlock(data: seq<u8>, h: HeaderFields, buffer: SubkeyBuffer)
    requires |data| >= 10 && |h.verifyBlock| == 16
    ensures var e := ExtractKeyAndBlock(data, h, buffer);
      var n: int := h.subkeySize;
      && (|data| < 26 && buffer == WithCapacity ==>
            e.result.Err? && e.fields == h.(subkey := [], verifyBlock := FillFrom(data[10..], h.verifyBlock)))
      && (|data| < 10 + n && buffer == Sized ==>
            e.result.Err? && e.fields == h.(subkey := FillFrom(data[10..], seq(n, _ => 0))))
      && (10 + n <= |data| < 26 + n && buffer == Sized ==>
            e.result.Err? && e.fields == h.(subkey := data[10..10 + n], verifyBlock := FillFrom(data[10 + n..], h.verifyBlock)))
  {
    var n: int := h.subkeySize;
    if 10 + n <= |data| && buffer == Sized {
      assert FillFrom(data[10..], seq(n, _ => 0)) == data[10..10 + n];
    }
  }
}
