/**
 * go/src/spigwitmer/smactools/structs.go: the Go header reader.
 * `ReadPatchHeaderFromFile` fills a `CryptHeader` field by field: one plain
 * read of the 2-byte magic, which must be "8O"; the plaintext size and the
 * subkey length through `binary.Read` (a full 4-byte read, stored only when
 * it succeeds); then a fresh subkey slice of the declared length and a fresh
 * 16-byte verify block, each filled with `io.ReadFull`. The first failing
 * step returns its error and leaves the fields it has already set.
 *
 * Go's full reads report `io.EOF` when they got no byte at all and
 * `io.ErrUnexpectedEOF` when they got some but not enough.
 */
module Structs {
  import opened Primitives
  import opened Stream
  import PatchFile

  /** The magic every container starts with: "8O". */
  const FileMagicItg2: seq<u8> := [0x38, 0x4F]

  /** The `error` values the reader returns; `Nil` is Go's nil error. */
  datatype GoErr = Nil | EOF | UnexpectedEOF | BadMagic(magic: seq<u8>)

  /** The error of a full read of a buffer that got only `got` bytes. */
  function ShortReadErr(got: nat): (err: GoErr)
  {
    if got == 0 then EOF else UnexpectedEOF
  }

  /** The header record, updated in place by `ReadPatchHeaderFromFile`;
      each of its slices is a separate array the reader replaces. */
  class CryptHeader {
    var magic: array<u8>
    var fileSize: u32
    var subkeyLength: u32
    var subkey: array<u8>
    var verifyBlock: array<u8>

    /** The record's fields as plain values. */
    function Value(): HeaderFields
      reads this, magic, subkey, verifyBlock
    {
      HeaderFields(magic[..], fileSize, subkeyLength, subkey[..], verifyBlock[..])
    }

    /** `new(CryptHeader)`: Go's zero value, with nil (empty) slices. */
    constructor ()
      ensures Value() == HeaderFields([], 0, 0, [], [])
    {
      magic := new u8[0];
      fileSize := 0;
      subkeyLength := 0;
      subkey := new u8[0];
      verifyBlock := new u8[0];
    }

    /** `ReadPatchHeaderFromFile` as written. */
    method ReadPatchHeaderFromFile(f: Reader) returns (err: GoErr)
      requires f.Valid()
      modifies this, f
      ensures f.Valid() && |f.Remaining()| <= |old(f.Remaining())|
      ensures Parsed(Value(), err, |old(f.Remaining())| - |f.Remaining()|)
           == ReadPatchHeaderSpec(old(f.Remaining()), old(Value()))
    {
      ghost var data := f.Remaining();
      ghost var h0 := Value();
      magic := new u8[2](_ => 0);
      // a single read call; a file at its end delivers nothing and io.EOF
      var got := f.Read(2);
      if |got| == 0 {
        return EOF;
      }
      forall j | 0 <= j < |got| {
        magic[j] := got[j];
      }
      ghost var h1 := h0.(magic := FillFrom(data, [0, 0]));
      assert magic[..] == FillFrom(data, [0, 0]) by {
        if |got| == 1 {
          assert magic[..] == [data[0], 0];
        }
      }
      assert Value() == h1;
      if magic[..] != FileMagicItg2 {
        return BadMagic(magic[..]);
      }
      assert f.Remaining() == data[2..];
      err := ReadSizesKeyAndBlock(f, data);
    }

    /** The reads of `ReadPatchHeaderFromFile` after the magic check. */
    method ReadSizesKeyAndBlock(f: Reader, ghost data: seq<u8>) returns (err: GoErr)
      requires f.Valid() && |data| >= 2 && f.Remaining() == data[2..]
      modifies this, f
      ensures f.Valid() && |f.Remaining()| <= |old(f.Remaining())|
      ensures Parsed(Value(), err, |data| - |f.Remaining()|) == ParseAfterMagic(data, old(Value()))
    {
      ghost var h1 := Value();
      var size, sizeErr := ReadU32(f);
      if sizeErr != Nil {
        return sizeErr;
      }
      assert data[2..][..4] == data[2..6];
      fileSize := size;
      var subkeySize, subkeySizeErr := ReadU32(f);
      if subkeySizeErr != Nil {
        assert Value() == h1.(fileSize := DecodeU32Le(data[2..6]));
        return subkeySizeErr;
      }
      assert data[6..][..4] == data[6..10];
      subkeyLength := subkeySize;
      assert f.Remaining() == data[10..];
      err := ReadKeyAndBlock(f, data);
    }

    /** The subkey and verify-block reads of `ReadPatchHeaderFromFile`. */
    method ReadKeyAndBlock(f: Reader, ghost data: seq<u8>) returns (err: GoErr)
      requires f.Valid() && |data| >= 10 && f.Remaining() == data[10..]
      modifies this, f
      ensures f.Valid() && |f.Remaining()| <= |old(f.Remaining())|
      ensures Parsed(Value(), err, |data| - |f.Remaining()|) == ParseKeyAndBlock(data, old(Value()))
    {
      ghost var h := Value();
      ghost var n: int := h.subkeySize;
      subkey := new u8[subkeyLength](_ => 0);
      assert subkey[..] == seq(n, _ => 0);
      var got, keyErr := ReadFull(f, subkey);
      assert Value() == h.(subkey := FillFrom(data[10..], seq(n, _ => 0)));
      if keyErr != Nil {
        return keyErr;
      }
      err := ReadVerifyBlock(f, data, 10 + n);
    }

    /** The verify-block read of `ReadPatchHeaderFromFile`, at offset `at`. */
    method ReadVerifyBlock(f: Reader, ghost data: seq<u8>, ghost at: nat) returns (err: GoErr)
      requires f.Valid() && at <= |data| && f.Remaining() == data[at..]
      modifies this, f
      ensures f.Valid() && |f.Remaining()| <= |old(f.Remaining())|
      ensures Parsed(Value(), err, |data| - |f.Remaining()|) == ParseVerifyBlock(data, old(Value()), at)
    {
      ghost var h := Value();
      verifyBlock := new u8[16](_ => 0);
      assert verifyBlock[..] == ZeroBlock;
      var got;
      got, err := ReadFull(f, verifyBlock);
      assert Value() == h.(verifyBlock := FillFrom(data[at..], ZeroBlock));
    }
  }

  /** `io.ReadFull`, following `io.ReadAtLeast`: read until the buffer is
      full or a read reports an error; a file at its end delivers nothing and
      io.EOF; the error is dropped once the buffer is full and turned into
      io.ErrUnexpectedEOF when some bytes came before the end. */
  method ReadFull(f: Reader, buf: array<u8>) returns (n: nat, err: GoErr)
    requires f.Valid()
    modifies f, buf
    ensures f.Valid()
    ensures n == Min(buf.Length, |old(f.Remaining())|)
    ensures buf[..] == FillFrom(old(f.Remaining()), old(buf[..]))
    ensures f.Remaining() == old(f.Remaining())[n..]
    ensures err == if |old(f.Remaining())| >= buf.Length then Nil else ShortReadErr(n)
  {
    ghost var rem := f.Remaining();
    ghost var before := buf[..];
    n, err := 0, Nil;
    while n < buf.Length && err == Nil
      invariant f.Valid() && n <= buf.Length && n <= |rem|
      invariant f.Remaining() == rem[n..]
      invariant buf[..n] == rem[..n] && buf[n..] == before[n..]
      invariant err == Nil || (err == EOF && n == |rem|)
      decreases buf.Length - n, if err == Nil then 1 else 0
    {
      ghost var mid := buf[..];
      var got := f.ReadTo(buf, n);
      if got == 0 {
        err := EOF;
      } else {
        FrontGrows(buf[..], rem, n, got);
        assert buf[n + got..] == before[n + got..] by {
          assert mid[n + got..] == before[n..][got..];
        }
        n := n + got;
      }
    }
    FilledFront(buf[..], before, rem, n);
    if n >= buf.Length {
      err := Nil;
    } else if n > 0 && err == EOF {
      err := UnexpectedEOF;
    }
  }

  /** `binary.Read` of a little-endian `uint32`: a full 4-byte read,
      decoded only when it succeeds. */
  method ReadU32(f: Reader) returns (v: u32, err: GoErr)
    requires f.Valid()
    modifies f
    ensures f.Valid()
    ensures f.Remaining() == old(f.Remaining())[Min(4, |old(f.Remaining())|)..]
    ensures err == if |old(f.Remaining())| >= 4 then Nil else ShortReadErr(|old(f.Remaining())|)
    ensures err == Nil ==> v == DecodeU32Le(old(f.Remaining())[..4])
  {
    var buf := new u8[4](_ => 0);
    var n;
    n, err := ReadFull(f, buf);
    if err != Nil {
      return 0, err;
    }
    v := DecodeU32Le(buf[..]);
  }

  /** What `ReadPatchHeaderFromFile` leaves behind: the header's fields,
      the error it returns, and how many bytes it consumed. */
  datatype Parsed = Parsed(fields: HeaderFields, err: GoErr, consumed: nat)

  /** `ReadPatchHeaderFromFile` on input `data` and a header holding `h0`. */
  function ReadPatchHeaderSpec(data: seq<u8>, h0: HeaderFields): (p: Parsed)
    ensures p.consumed <= |data|
  {
    var h1 := h0.(magic := FillFrom(data, [0, 0]));
    if |data| == 0 then Parsed(h1, EOF, 0)
    else if h1.magic != FileMagicItg2 then Parsed(h1, BadMagic(h1.magic), Min(2, |data|))
    else ParseAfterMagic(data, h1)
  }

  /** The size reads and what follows them, once the magic `data[..2]` has
      been read into `h` and accepted. */
  function ParseAfterMagic(data: seq<u8>, h: HeaderFields): (p: Parsed)
    requires |data| >= 2
    ensures p.consumed <= |data|
  {
    if |data| < 6 then Parsed(h, ShortReadErr(|data| - 2), |data|)
    else
      var h2 := h.(fileSize := DecodeU32Le(data[2..6]));
      if |data| < 10 then Parsed(h2, ShortReadErr(|data| - 6), |data|)
      else ParseKeyAndBlock(data, h2.(subkeySize := DecodeU32Le(data[6..10])))
  }

  /** The rest of `ReadPatchHeaderFromFile` once both sizes are read into
      `h`: the subkey from offset 10, then the verify block. */
  function ParseKeyAndBlock(data: seq<u8>, h: HeaderFields): (p: Parsed)
    requires |data| >= 10
    ensures p.consumed <= |data|
  {
    var n: int := h.subkeySize;
    var h3 := h.(subkey := FillFrom(data[10..], seq(n, _ => 0)));
    if |data| < 10 + n then Parsed(h3, ShortReadErr(|data| - 10), |data|)
    else ParseVerifyBlock(data, h3, 10 + n)
  }

  /** The verify-block read of `ReadPatchHeaderFromFile`, at offset `at`. */
  function ParseVerifyBlock(data: seq<u8>, h: HeaderFields, at: nat): (p: Parsed)
    requires at <= |data|
    ensures p.consumed <= |data|
  {
    var h4 := h.(verifyBlock := FillFrom(data[at..], ZeroBlock));
    if |data| < at + 16 then Parsed(h4, ShortReadErr(|data| - at), |data|)
    else Parsed(h4, Nil, at + 16)
  }

  // ------------------------------------------------------------ properties

  /** An empty file fails with io.EOF before anything but the magic slice
      is touched. */
  lemma EmptyInputIsEOF(h0: HeaderFields)
    ensures ReadPatchHeaderSpec([], h0) == Parsed(h0.(magic := [0, 0]), EOF, 0)
  {
  }

  /** A one-byte file gets past the magic read (it delivered a byte) and
      fails the magic check, the missing byte left zero. */
  lemma OneByteInputIsBadMagic(b: u8, h0: HeaderFields)
    ensures ReadPatchHeaderSpec([b], h0) == Parsed(h0.(magic := [b, 0]), BadMagic([b, 0]), 1)
  {
    assert FillFrom([b], [0, 0]) == [b, 0];
  }

  /** A wrong magic stops the reader after at most two bytes, with only the
      magic changed. */
  lemma BadMagicStopsEarly(data: seq<u8>, h0: HeaderFields)
    requires |data| >= 2 && data[..2] != FileMagicItg2
    ensures ReadPatchHeaderSpec(data, h0) == Parsed(h0.(magic := data[..2]), BadMagic(data[..2]), 2)
  {
  }

  /** The reader succeeds exactly when the file starts with the magic and
      holds the whole header its subkey length announces. */
  lemma ReadPatchHeaderSucceedsIff(data: seq<u8>, h0: HeaderFields)
    ensures ReadPatchHeaderSpec(data, h0).err == Nil
        <==> |data| >= 10 && data[..2] == FileMagicItg2 && |data| >= 26 + DecodeU32Le(data[6..10])
  {
    if |data| >= 2 {
      assert FillFrom(data, [0, 0]) == data[..2];
    } else if |data| == 1 {
      assert FillFrom(data, [0, 0]) == [data[0], 0];
    }
  }

  /** A file cut short after the magic fails with io.EOF when it ends on a
      field boundary and io.ErrUnexpectedEOF inside a field. */
  lemma TruncationError(data: seq<u8>, h0: HeaderFields)
    requires |data| >= 2 && data[..2] == FileMagicItg2
    requires ReadPatchHeaderSpec(data, h0).err != Nil
    ensures var e := ReadPatchHeaderSpec(data, h0).err;
      && (e == EOF || e == UnexpectedEOF)
      && (e == EOF <==> |data| == 2 || |data| == 6 || |data| == 10
                        || (|data| > 10 && |data| == 10 + DecodeU32Le(data[6..10])))
  {
    assert FillFrom(data, [0, 0]) == data[..2];
  }

  /** With enough input, the subkey and the verify block are the bytes at
      their offsets. */
  lemma KeyAndBlockAt(data: seq<u8>, h: HeaderFields)
    requires |data| >= 10 && |data| >= 26 + h.subkeySize
    ensures var n := h.subkeySize;
      ParseKeyAndBlock(data, h)
      == Parsed(h.(subkey := data[10..][..n], verifyBlock := data[10 + n..][..16]), Nil, 26 + n)
  {
  }

  /** An input that starts with the magic and holds a whole header is read
      as the fields at the container offsets. */
  lemma ReadsHeaderAt(data: seq<u8>, h0: HeaderFields)
    requires |data| >= 10 && data[..2] == FileMagicItg2 && |data| >= 26 + DecodeU32Le(data[6..10])
    ensures ReadPatchHeaderSpec(data, h0) == Parsed(HeaderAt(data), Nil, 26 + DecodeU32Le(data[6..10]))
  {
    var h2 := h0.(magic := data[..2], fileSize := DecodeU32Le(data[2..6]), subkeySize := DecodeU32Le(data[6..10]));
    assert ReadPatchHeaderSpec(data, h0) == ParseKeyAndBlock(data, h2) by {
      assert FillFrom(data, [0, 0]) == data[..2];
    }
    KeyAndBlockAt(data, h2);
  }

  /** A well-formed header with the right magic, followed by anything, is
      read back exactly, consuming the header. */
  lemma ReadPatchHeaderRoundTrip(h: HeaderFields, payload: seq<u8>, h0: HeaderFields)
    requires WellFormedHeader(h) && h.magic == FileMagicItg2
    ensures ReadPatchHeaderSpec(EncodeHeader(h) + payload, h0) == Parsed(h, Nil, 26 + h.subkeySize)
  {
    var data := EncodeHeader(h) + payload;
    var n: int := h.subkeySize;
    assert HeaderAt(data) == h by {
      EncodeHeaderOffsets(h, payload);
      SliceOfDrop(data, 10, n);
      SliceOfDrop(data, 10 + n, 16);
    }
    ReadsHeaderAt(data, h0);
  }

  /** Conversely, what the reader accepts is a well-formed header with the
      right magic, and it is exactly the bytes consumed. */
  lemma AcceptedIsEncodedPrefix(data: seq<u8>, h0: HeaderFields)
    requires ReadPatchHeaderSpec(data, h0).err == Nil
    ensures var p := ReadPatchHeaderSpec(data, h0);
      && WellFormedHeader(p.fields) && p.fields.magic == FileMagicItg2
      && EncodeHeader(p.fields) == data[..p.consumed]
  {
    ReadPatchHeaderSucceedsIff(data, h0);
    ReadsHeaderAt(data, h0);
    EncodeHeaderAt(data);
  }

  /** The Go reader and the Rust reader with a subkey buffer of the declared
      length agree on every header the Go reader accepts. */
  lemma GoReaderAgreesWithSizedRustReader(data: seq<u8>, h0: HeaderFields, r0: HeaderFields)
    requires |r0.magic| == 2 && |r0.verifyBlock| == 16
    requires ReadPatchHeaderSpec(data, h0).err == Nil
    ensures var p, e := ReadPatchHeaderSpec(data, h0), PatchFile.ExtractMetadataSpec(data, r0, PatchFile.Sized);
      e.result.Ok? && e.fields == p.fields && e.consumed == p.consumed
  {
    ReadPatchHeaderSucceedsIff(data, h0);
    ReadsHeaderAt(data, h0);
    PatchFile.SizedExtractReadsHeaderAt(data, r0);
  }
}
