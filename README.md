# ITG2 patch decryption, modelled in Dafny

ITG2 patch files are containers with a small header followed by an
encrypted payload. The header holds the magic "8O", the size of the
plaintext, the subkey length, the subkey, and a 16-byte verify block,
with both sizes as little-endian u32. The AES-192 key is the first 24
bytes of SHA-512(subkey ‖ salt). The verify block decrypts to a block
that starts with ":D" when the key is right. The payload is decrypted
16 bytes at a time with AES-192 in ECB mode. Each decrypted block is
then xored with a chain block that is shifted by its byte index
(`acc[i] - i`, wrapping at 256) and zeroed every 4080 bytes.

The repository has two implementations, and this project models both:

- Rust (`rust/src/crypt.rs`, `src/patch_file.rs`):
  - the chain carries the previous plaintext block;
  - the chain is zeroed just before the xor of the block that brings the byte count to a multiple of 4080;
  - each write is cut to `min(file_size, bytes read)`.
- Go (`crypt_utils.go`, `structs.go`):
  - the chain carries the previous ciphertext block;
  - the chain is zeroed after that block is written;
  - every block is written whole.

The files:

- `primitives.dfy` holds:
  - bytes (`bv8`, so subtraction wraps);
  - blocks, keys, digests and results;
  - the little-endian u32 codec;
  - the header layout (`EncodeHeader`) with its offsets.
- `chaining.dfy` holds the per-index chaining xor both decryptors share, and the block buffer helpers.
- `stream.dfy` is the input of the header readers: a file with a read cursor. One read delivers `min(n, bytes left)` bytes.
- `crypt.dfy` models `rust/src/crypt.rs`:
  - key derivation and the verify check, as functions;
  - `decrypt_file`, as a method over arrays, proved equal to the loop function `DecryptLoop`.
- `crypt_utils.dfy` models `crypt_utils.go`:
  - `DeriveCipherKey` and the dongle stub;
  - `DecryptFile`, as a method over arrays, proved equal to `GoDecryptLoop`.
- `patch_file.dfy` models `src/patch_file.rs`: the `CryptFileMetadata` class, `read_u32_le`, and `extract_metadata` as methods that update the record in place.
- `structs.dfy` models `structs.go`: the `CryptHeader` class and `ReadPatchHeaderFromFile`, with Go's `io.ReadFull` and `binary.Read`.

AES-192 block decryption and SHA-512 are parameters of the model (`aes`,
`ecbDecrypt`, `sha512`), so every result holds for any cipher and hash.
Each decryptor's input is a script of read results, one per read call.
For the round trips, a reference encryptor (`EncryptBlocks`,
`GoEncryptBlocks`) is written for each chaining. AES is then assumed only
to invert a block cipher `encrypt` under the same key.

Points of the code the model follows closely:

- The Rust code writes `min(file_size, bytes read)` bytes per block, and the Go code always writes 16 bytes (see Findings).
- The Rust code zeroes the chain before chaining the block that ends at a multiple of 4080 bytes, so that block is chained from zero. The Go code zeroes it after that block, so the next block is chained from zero.
- Both header readers keep the fields they read before a failure.
- The Rust decryptor retries a failing block decryption. That loop is left out, as listed below.

## Model

| member | source | states |
|---|---|---|
| Primitives.DecodeU32Le | src/patch_file.rs:28-31 | little-endian order: the fourth byte alone fixes which 2^24-wide range the value lies in, and with the last three bytes zero the value is the first byte |
| Primitives.DecodeEncodeU32Le | src/patch_file.rs:28-31 | decoding the four little-endian bytes of any u32 gives that u32 back |
| Primitives.EncodeDecodeU32Le | src/patch_file.rs:28-31 | any four bytes are the little-endian encoding of the value they decode to, so the decoder is a bijection onto u32 |
| Primitives.DecodeU32LeExample | src/patch_file.rs:52-55 | the bytes e1 07 00 00 decode to 2017 |
| Primitives.EncodeHeaderOffsets | src/patch_file.rs:37-42 | in an encoded header followed by a payload: the magic is at 0, the size at 2, the subkey length at 6, the subkey at 10, then the verify block, then the payload |
| Primitives.EncodeHeaderAt | src/patch_file.rs:37-42 | the fields read at those offsets re-encode to exactly the bytes they were read from |
| Chaining.ChainByte | go/src/spigwitmer/smactools/crypt_utils.go:53 | the output differs from the decrypted byte by exactly `acc - i` (xor), with wrapping byte subtraction; a chain byte equal to its index leaves the byte as it is |
| Chaining.ChainXor | rust/src/crypt.rs:121-124 | at every index `i` of the block the output byte is the decrypted byte chained with `acc[i]` and `i`, so chaining output byte `i` again with the same `acc[i]` and `i` gives the decrypted byte back |
| Chaining.ChainByteInvolution | go/src/spigwitmer/smactools/crypt_utils.go:53 | `b ^ (acc - i)` with wrapping byte subtraction, applied twice with the same accumulator and index, gives `b` back |
| Chaining.ChainXorInvolution | rust/src/crypt.rs:121-124 | the per-index chaining of a whole block, applied twice with the same accumulator, gives the block back |
| Chaining.ChainXorInjective | rust/src/crypt.rs:121-124 | for a fixed accumulator, two different decrypted blocks never chain to the same output |
| Chaining.ReadInto | rust/src/crypt.rs:82 | a read of `n` bytes into the 16-byte buffer overwrites its first `n` bytes and keeps the rest |
| Chaining.Zero | rust/src/crypt.rs:118-120 | zeroing the chain leaves 16 zero bytes |
| Stream.Reader.Read | go/src/spigwitmer/smactools/structs.go:21 | one read call on a file delivers the next `min(n, bytes left)` bytes and advances past them |
| Stream.Reader.ReadTo | go/src/spigwitmer/smactools/structs.go:42 | one read call into the unfilled tail of a buffer puts the next `min(room, bytes left)` bytes there, advances past them, and leaves the rest of the buffer as it was |
| Crypt.DeriveAesKey | rust/src/crypt.rs:15-25 | the 24-byte key is a prefix of the SHA-512 digest of the subkey followed by the salt |
| Crypt.KeyCollisionIsHashCollision | rust/src/crypt.rs:15-25 | the key is the first 24 bytes of SHA-512(subkey ‖ salt), so two different subkeys get the same key only if those 24 bytes collide on two different hash inputs |
| Crypt.VerifyCryptMetadata | rust/src/crypt.rs:27-58 | the result is an error exactly when the block decryption fails, and Ok(true) exactly when the decrypted verify block starts with ":D" |
| Crypt.VerifyAcceptsMatchingKey | rust/src/crypt.rs:27-58 | a verify block made by encrypting a ":D"-tagged block under the key passes the check with that key |
| Crypt.EmitCount | rust/src/crypt.rs:128-129 | one iteration writes no more bytes than it read; under the declared-size policy the total written never passes the declared size |
| Crypt.DecryptFile | rust/src/crypt.rs:60-145 | the array loop computes exactly `DecryptFileSpec`: its result, and the bytes sent to the destination |
| Crypt.DecryptBlock | rust/src/crypt.rs:86-124 | one read: the count grows by the bytes read, the buffer's front is overwritten, the chain is zeroed when the count reaches a multiple of 4080, and the decrypted block is chained into it |
| Crypt.XorChain | rust/src/crypt.rs:121-124 | after the loop, every chain byte `i` is `dec[i] ^ (old chain[i] - i)`, with wrapping subtraction |
| Crypt.DecryptLoopOutcome | rust/src/crypt.rs:81-144 | a successful run returns the declared size, whatever was written; the output only grows, stays within the destination's capacity, and grows by at most 16 bytes per read |
| Crypt.OneIteration | rust/src/crypt.rs:86-142 | a read of 0 bytes ends the run with the declared size and writes nothing; otherwise one iteration writes the first `min(file_size, n)` (at most 16) bytes of the new chain, and it is the last iteration when that is under 16 |
| Crypt.FirstBlockChainsFromZero | rust/src/crypt.rs:69 | the chain starts as 16 zero bytes: the first block written is the first decrypted block chained with zeros |
| Crypt.ResetForgetsChain | rust/src/crypt.rs:118-120 | when a block brings the count to a multiple of 4080, the rest of the run does not depend on the chain left by earlier blocks |
| Crypt.ReadFailureStopsDecryption | rust/src/crypt.rs:82-85 | a failed read ends the run with a read error; the blocks before it are written, and nothing after it is read |
| Crypt.WriteFailureStopsDecryption | rust/src/crypt.rs:130-133 | with a declared size of at least 16 and whole-block reads, a destination with room for fewer bytes than the blocks decrypt to ends the run with a write error, filled to its capacity |
| Crypt.WriteErrorFillsCapacity | rust/src/crypt.rs:130-133 | for any reads, declared size and write policy, a run that ends in a write error has filled the destination exactly to its capacity |
| Crypt.OverfullWriteFails | rust/src/crypt.rs:128-133 | for any non-empty read, when its `min(file_size, n)` bytes do not fit, the run ends there with a write error after writing the part of the new chain that fits |
| Crypt.DecryptInvertsEncrypt | rust/src/crypt.rs:81-144 | from any loop state, decrypting the reference encryptor's output gives the plaintext back when the declared size is at least 16 |
| Crypt.SmallFileFirstBlock | rust/src/crypt.rs:128-142 | with a declared size under 16, the first block writes only `file_size` plaintext bytes and the run ends with the declared size |
| Crypt.DecryptFileRoundTrip | rust/src/crypt.rs:60-145 | the whole of `decrypt_file` undoes the reference encryptor, for every declared size: with a declared size of at least 16 it writes the whole plaintext, and below 16 only the first `file_size` bytes (none for an empty file) |
| Crypt.DecryptLengthFollowsCiphertext | rust/src/crypt.rs:128-144 | with a declared size of at least 16, the output is as long as the ciphertext |
| Crypt.DecryptWritesPastDeclaredSize | rust/src/crypt.rs:128-129 | a 17-byte file stored in 32 bytes of ciphertext decrypts to 32 bytes |
| Crypt.BoundedDecryptInvertsEncrypt | rust/src/crypt.rs:128-129 | with each write cut to the declared bytes still owed, decryption gives back exactly the plaintext prefix of the declared size |
| Crypt.BoundedDecryptFileRoundTrip | rust/src/crypt.rs:128-129 | the corrected `decrypt_file` emits exactly the first `file_size` plaintext bytes |
| CryptUtils.GetSubkeyFromDS1963S | go/src/spigwitmer/smactools/crypt_utils.go:29-32 | the dongle reader is a stub that always returns an error |
| CryptUtils.DeriveCipherKey | go/src/spigwitmer/smactools/crypt_utils.go:12-32 | a nil subkey goes to the dongle stub, whose error is returned, so there is no key; any other subkey gives the Rust key, the first 24 bytes of SHA-512(subkey ‖ salt) |
| CryptUtils.EmptySubkeyIsNotNil | go/src/spigwitmer/smactools/crypt_utils.go:14-25 | an empty but non-nil subkey is hashed, not fetched from the dongle; the key is the first 24 bytes of SHA-512(salt) |
| CryptUtils.DecryptFile | go/src/spigwitmer/smactools/crypt_utils.go:34-67 | the array loop computes exactly `GoDecryptFileSpec`: its outcome, and the bytes written |
| CryptUtils.ProcessBlock | go/src/spigwitmer/smactools/crypt_utils.go:51-60 | one processed read: the output is the decrypted buffer chained with the last ciphertext block; the carried block becomes this ciphertext, or zeros when the count reaches a multiple of 4080 |
| CryptUtils.DecryptInto | go/src/spigwitmer/smactools/crypt_utils.go:51 | the decrypted block is AES of the whole 16-byte scratch buffer, and the scratch buffer is unchanged |
| CryptUtils.ChainAndCarry | go/src/spigwitmer/smactools/crypt_utils.go:52-55 | output byte `i` is `dec[i] ^ (last[i] - i)` with uint8 wraparound, and the carried block takes the scratch (ciphertext) bytes |
| CryptUtils.GoDecryptInvertsEncrypt | go/src/spigwitmer/smactools/crypt_utils.go:42-61 | from any loop state, decrypting the output of the ciphertext-feedback reference encryptor gives the plaintext back |
| CryptUtils.GoDecryptFileRoundTrip | go/src/spigwitmer/smactools/crypt_utils.go:34-67 | `DecryptFile` undoes that encryptor and returns io.EOF |
| CryptUtils.GoRunShape | go/src/spigwitmer/smactools/crypt_utils.go:43-66 | `DecryptFile` never returns nil: it returns io.EOF, or dies in `log.Fatalf`, and dies only on a read that failed after delivering bytes; every processed read writes 16 bytes, and earlier output is kept |
| CryptUtils.EmptyReadsAreSkipped | go/src/spigwitmer/smactools/crypt_utils.go:44-47 | reads with no bytes and no io.EOF change nothing, and the loop reads again |
| CryptUtils.EofDropsItsBytes | go/src/spigwitmer/smactools/crypt_utils.go:44-47 | bytes delivered together with io.EOF are not decrypted, and the loop ends with io.EOF |
| PatchFile.CryptFileMetadata.New | src/patch_file.rs:13-21 | `new()` gives a zero magic, zero sizes, the subkey `[0]` and a zero verify block |
| PatchFile.ReadExact | src/patch_file.rs:37-42 | `read_exact` fills the buffer when enough bytes are left; otherwise it fails with UnexpectedEof, having consumed every byte left and put them at the buffer's front |
| PatchFile.ReadU32Le | src/patch_file.rs:24-32 | the next four bytes, decoded little-endian; with fewer than four left, an error and no value |
| PatchFile.ExtractMetadata | src/patch_file.rs:34-44 | the record, the result and the bytes consumed are exactly those of `ExtractMetadataSpec` with an empty subkey buffer: fields are read in order, and the first short read returns its error with the earlier fields updated |
| PatchFile.ReadSizes | src/patch_file.rs:38-39 | after the magic, the two size reads and the rest match `ExtractSizes`: a short size read returns its error with the earlier fields updated |
| PatchFile.ReadKeyAndBlock | src/patch_file.rs:40-42 | the subkey ends up empty and the verify block is read from the bytes right after the subkey length |
| PatchFile.ExtractSucceedsIff | src/patch_file.rs:34-44 | as written, extraction succeeds exactly when 26 bytes are there, whatever the subkey length |
| PatchFile.SizedExtractSucceedsIff | src/patch_file.rs:40-41 | with a subkey buffer of the declared length, extraction succeeds exactly when the whole header is there |
| PatchFile.SizedExtractReadsHeaderAt | src/patch_file.rs:34-44 | with a subkey buffer of the declared length, an input holding a whole header is read as the fields at the container offsets, and exactly the header is consumed |
| PatchFile.ExtractDropsSubkey | src/patch_file.rs:40-42 | as written, a well-formed header is read with an empty subkey and a verify block taken from the subkey's bytes; 26 bytes are consumed |
| PatchFile.CapacityKeyAndBlock | src/patch_file.rs:40-42 | as written, with 26 bytes there, the subkey is empty and the verify block is the 16 bytes right after the subkey length |
| PatchFile.ExtractDropsSubkeyExample | src/patch_file.rs:40-41 | a header with the one-byte subkey `[7]` is read with the subkey `[]` and the verify block `[7] + vb[..15]` |
| PatchFile.SizedExtractRoundTrip | src/patch_file.rs:34-44 | with a subkey buffer of the declared length, any well-formed header followed by anything is read back exactly, and only the header is consumed |
| PatchFile.SizedExtractReadsEncodedPrefix | src/patch_file.rs:34-44 | conversely, whatever the sized reader accepts is a well-formed header whose encoding is exactly the bytes consumed |
| PatchFile.ShortInputKeepsLaterFields | src/patch_file.rs:37-39 | an input under 10 bytes fails in the magic or size reads, with the fields before the failing read updated and the later ones unchanged |
| PatchFile.ShortKeyOrBlockKeepsLaterFields | src/patch_file.rs:40-42 | an input that holds both sizes but not the rest fails in the subkey or verify block read: as written (under 26 bytes) the subkey is emptied and the bytes left overwrite the front of the verify block; with a sized subkey buffer, a short subkey read fills the subkey's front and leaves the verify block unchanged, and a short verify block read keeps the whole subkey and fills the verify block's front |
| Structs.CryptHeader.constructor | go/src/spigwitmer/smactools/cmd/itg2-patch-decrypt/main.go:42 | `new(CryptHeader)` is the zero value: empty slices and zero sizes |
| Structs.CryptHeader.ReadPatchHeaderFromFile | go/src/spigwitmer/smactools/structs.go:18-50 | the header, the error and the bytes consumed are exactly those of `ReadPatchHeaderSpec` |
| Structs.CryptHeader.ReadSizesKeyAndBlock | go/src/spigwitmer/smactools/structs.go:29-49 | after the magic check, the size reads and the rest match `ParseAfterMagic` |
| Structs.CryptHeader.ReadKeyAndBlock | go/src/spigwitmer/smactools/structs.go:41-49 | the subkey is a fresh slice of `SubkeyLength` bytes filled by a full read; a short read returns its error before the verify block is touched |
| Structs.CryptHeader.ReadVerifyBlock | go/src/spigwitmer/smactools/structs.go:47-49 | the verify block is a fresh 16-byte slice filled by a full read, whose error is returned |
| Structs.ReadFull | go/src/spigwitmer/smactools/structs.go:41-49 | `io.ReadFull` fills the buffer and returns nil when enough bytes are left; otherwise it returns io.EOF if it got no byte and io.ErrUnexpectedEOF if it got some, with the bytes it got at the front |
| Structs.ReadU32 | go/src/spigwitmer/smactools/structs.go:30-39 | `binary.Read` of a little-endian uint32 gives the next four bytes' value, or an error and no value |
| Structs.EmptyInputIsEOF | go/src/spigwitmer/smactools/structs.go:20-24 | an empty file returns io.EOF, with only the magic slice replaced |
| Structs.OneByteInputIsBadMagic | go/src/spigwitmer/smactools/structs.go:20-27 | a one-byte file passes the read and fails the magic check, with the missing byte left zero |
| Structs.BadMagicStopsEarly | go/src/spigwitmer/smactools/structs.go:25-27 | a magic other than "8O" returns an error after two bytes, and no other field changes |
| Structs.ReadPatchHeaderSucceedsIff | go/src/spigwitmer/smactools/structs.go:18-50 | the reader returns nil exactly when the file starts with "8O" and holds the whole header its subkey length announces |
| Structs.TruncationError | go/src/spigwitmer/smactools/structs.go:30-49 | a file cut short after a good magic fails with io.EOF when it ends on a field boundary, and with io.ErrUnexpectedEOF inside a field |
| Structs.ReadsHeaderAt | go/src/spigwitmer/smactools/structs.go:18-50 | an input that starts with "8O" and holds a whole header is read as the fields at the container offsets, and exactly the header is consumed |
| Structs.ReadPatchHeaderRoundTrip | go/src/spigwitmer/smactools/structs.go:18-50 | any well-formed header with the magic "8O", followed by anything, is read back exactly, and only the header is consumed |
| Structs.AcceptedIsEncodedPrefix | go/src/spigwitmer/smactools/structs.go:18-50 | whatever the reader accepts is a well-formed "8O" header whose encoding is exactly the bytes consumed |
| Structs.GoReaderAgreesWithSizedRustReader | go/src/spigwitmer/smactools/structs.go:18-50 | on every header the Go reader accepts, the Rust reader with a sized subkey buffer gets the same fields and consumes the same bytes |

## Left out

- The retry loop around block decryption (`rust/src/crypt.rs:95-105`) is left out. So are its "Buffer overflow" and cipher-error results (`rust/src/crypt.rs:99-110`) and the "Empty decryption block?" path (`rust/src/crypt.rs:114-117`). Block decryption is modelled as a total function from a key and a block to a block.
- The internals of AES-192 and SHA-512 are not modelled; they are parameters. `aes.NewCipher` cannot fail on a 24-byte key, so `DeriveCipherKey` has no cipher-error case.
- `constants.rs` is not part of this model:
  - the salt `PATCH_SALT_ITG2` is a parameter;
  - `DECRYPT_MAGIC_ITG2` is taken as ":D", the tag the Go program checks (`main.go:56`);
  - the file magic is taken as "8O" (`structs.go:25`).
- `src/crypt.rs` is not modelled separately: its `derive_aes_key` is the same as the one in `rust/src/crypt.rs`.
- The main programs are left out: argument parsing, opening files, exit codes, and all `println!`, `print!` and `log.Printf` output.
- Crypt.DecryptFile models the destination as a capacity. A `write_all` that would pass it writes what fits and fails. Errors of other kinds, and retries on interruption, are not modelled.
- Crypt.DecryptFile keeps its byte counter unbounded. The source's `total_bytes` is a `usize` (`rust/src/crypt.rs:73`, `rust/src/crypt.rs:91`). On a 64-bit target it overflows only past 2^64 bytes. On a 32-bit target it overflows after 4 GiB: a debug build panics, and a release build wraps. 2^32 is not a multiple of 4080, so after a wrap the chain resets at different offsets. The model does not capture this.
- CryptUtils.DecryptFile keeps its byte counter unbounded too. The source's `total_bytes_read` is a Go `int` (`crypt_utils.go:35`, `crypt_utils.go:57`). It wraps to negative values past 2^63 bytes on 64-bit targets, or 2^31 bytes (2 GiB) on 32-bit targets. After that the reset cadence shifts. The model does not capture this.
- CryptUtils.DecryptFile treats every `dest.Write` as succeeding, because the source ignores its error.
- CryptUtils.DecryptFile's reads are scripted values. A read error other than io.EOF is a single kind, `OtherErr`.
- PatchFile.ReadExact and Structs.ReadFull treat the input as a regular file: a read delivers `min(n, bytes left)` bytes, and errors other than the end of the input are not modelled. Both keep reading until the buffer is full or the input ends, so a read that delivers fewer bytes would not change what they return.
- Structs.CryptHeader.ReadPatchHeaderFromFile reads the magic with one plain `f.Read` (`structs.go:21`), not `io.ReadFull`, and the model's `Stream.Reader.Read` always delivers `min(2, bytes left)` bytes, as a regular file does. The program also reads from standard input when the input is "-" (`cmd/itg2-patch-decrypt/main.go:18`, `cmd/itg2-patch-decrypt/main.go:33-34`). From a pipe that one read may deliver a single byte, and a valid container is then rejected with "Bad file magic". So `Structs.OneByteInputIsBadMagic`, `Structs.ReadPatchHeaderSucceedsIff` and the round trips of the Go reader hold for regular files, not for every `io.Reader`.
- PatchFile.ReadExact is not bound by Rust's documentation, which leaves the buffer unspecified after a failed `read_exact`. It follows the standard library's default implementation, which leaves the bytes read at the buffer's front.
- Structs.CryptHeader.ReadPatchHeaderFromFile holds its slices as arrays that it replaces, as `make` does. Aliasing with slices held elsewhere is not modelled.
- Neither decryptor limits its loop. The scripted source is finite, so in the model each loop ends when its script runs out.
- CryptUtils.GoRunShape holds of the model but not of every real reader. A reader that keeps returning 0 bytes with an error other than io.EOF makes the Go loop skip every read and spin forever (`crypt_utils.go:43-47`). `DecryptFile` then never returns and never dies. A finite script cannot express that reader. `CryptUtils.EmptyReadsAreSkipped` shows the skip step that repeats.

## Findings

| source | as written | input that shows it | evidently intended | confidence | as-written member | corrected member |
|---|---|---|---|---|---|---|
| src/patch_file.rs:40-41 | `Vec::with_capacity(subkey_size)` makes an empty vector, so `read_exact` into it reads nothing. The subkey stays empty, and the verify block is read from the subkey's bytes. | a header "8O", size 17, subkey length 1, subkey `[7]`: read with subkey `[]` and verify block `[7] + vb[..15]` | a subkey buffer of `subkey_size` bytes, read from the file | high; not executed | PatchFile.ExtractDropsSubkeyExample | PatchFile.SizedExtractRoundTrip |
| rust/src/crypt.rs:128-129 | each write is `min(file_size, bytes read)`, which cuts the output to the declared size only when that size is under 16 | declared size 17, 32 bytes of ciphertext: 32 bytes written | each write cut to the declared bytes not yet written | medium; not executed | Crypt.DecryptWritesPastDeclaredSize | Crypt.BoundedDecryptFileRoundTrip |
