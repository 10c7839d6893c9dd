/**
 * rust/src/crypt.rs: the AES key derived from the container's subkey, the
 * verify-block check, and `decrypt_file`, which decrypts the payload in
 * 16-byte blocks and chains each block with the previous PLAINTEXT block,
 * zeroing the chain right before the xor of every block that brings the
 * running byte count to a multiple of 4080.
 *
 * AES-192 decryption and SHA-512 are parameters of the model: `aes` decrypts
 * one block under a 24-byte key, `sha512` hashes a byte sequence to 64 bytes.
 * The source stream is a script of read results, one per `read` call (an
 * exhausted script reads 0 bytes); the destination accepts `capacity` bytes
 * in all and fails any `write_all` that goes beyond, after writing what fits.
 */
module Crypt {
  import opened Primitives
  import opened Chaining

  /** DECRYPT_MAGIC_ITG2, the tag ":D" the verify block decrypts to. */
  const DecryptMagicItg2: seq<u8> := [0x3A, 0x44]

  // ---------------------------------------------------------------- key

  /** The first 24 bytes of SHA-512(subkey ++ salt) (derive_aes_key). */
  function DeriveAesKey(sha512: seq<u8> -> Digest, subkey: seq<u8>, salt: seq<u8>): (k: Key)
    ensures k <= sha512(subkey + salt)
  {
    sha512(subkey + salt)[..24]
  }

  /** Two distinct subkeys yield the same key only through a collision of
      the truncated hash on two distinct inputs. */
  lemma KeyCollisionIsHashCollision(sha512: seq<u8> -> Digest, s1: seq<u8>, s2: seq<u8>, salt: seq<u8>)
    requires s1 != s2
    requires DeriveAesKey(sha512, s1, salt) == DeriveAesKey(sha512, s2, salt)
    ensures s1 + salt != s2 + salt
    ensures sha512(s1 + salt)[..24] == sha512(s2 + salt)[..24]
  {
    AppendRightCancels(s1, s2, salt);
  }

  lemma AppendRightCancels(a: seq<u8>, b: seq<u8>, c: seq<u8>)
    ensures a + c == b + c ==> a == b
  {
    if a + c == b + c {
      assert a == (a + c)[..|a|];
      assert b == (b + c)[..|b|];
    }
  }

  // ------------------------------------------------------------- verify

  /** verify_crypt_metadata: decrypt the verify block on its own (ECB, no
      padding) and compare its first two bytes with the magic. The block
      decryption may fail (`None`), which is reported as an error. */
  function VerifyCryptMetadata(ecbDecrypt: (Key, Block) -> Option<Block>, verifyBlock: Block, key: Key)
    : (r: Result<bool, string>)
    ensures r.Err? <==> ecbDecrypt(key, verifyBlock).None?
    ensures r == Ok(true) <==>
      ecbDecrypt(key, verifyBlock).Some? && ecbDecrypt(key, verifyBlock).value[..2] == DecryptMagicItg2
  {
    match ecbDecrypt(key, verifyBlock)
    case None => Err("Cipher error during verification")
    case Some(dmagic) => Ok(dmagic[..2] == DecryptMagicItg2)
  }

  /** A verify block made by encrypting a block that starts with the magic
      under the same key passes the check. */
  lemma VerifyAcceptsMatchingKey(
    ecbDecrypt: (Key, Block) -> Option<Block>, encrypt: (Key, Block) -> Block, key: Key, tagged: Block)
    requires ecbDecrypt(key, encrypt(key, tagged)) == Some(tagged)
    requires tagged[..2] == DecryptMagicItg2
    ensures VerifyCryptMetadata(ecbDecrypt, encrypt(key, tagged), key) == Ok(true)
  {
  }

  // ------------------------------------------------------------ decrypt

  /** One result of `src.read(&mut cur_cipher)`. */
  datatype ReadEvent = Read(chunk: Chunk) | ReadFailure

  /** The two ways decrypt_file fails: "I/O error during read" and "Write error". */
  datatype DecryptError = ReadError | WriteError

  /** How many bytes of the chained block one iteration writes. `AsWritten` is
      the source's `min(file_size, last_read_count)`; `DeclaredSize` bounds the
      output by the bytes of the declared size not yet written. */
  datatype EmitPolicy = AsWritten | DeclaredSize

  function EmitCount(policy: EmitPolicy, fileSize: u32, emitted: nat, readCount: nat): (n: nat)
    ensures n <= readCount
    ensures policy == DeclaredSize ==> emitted + n <= fileSize || n == 0
  {
    match policy
    case AsWritten => Min(fileSize, readCount)
    case DeclaredSize => if emitted >= fileSize then 0 else Min(fileSize - emitted, readCount)
  }

  /** What the loop leaves behind: its return value and the bytes written. */
  datatype Run = Run(result: Result<nat, DecryptError>, written: seq<u8>)

  /** What one iteration hands to the next: `prev_block`, `cur_cipher` and
      `total_bytes`. */
  datatype LoopState = LoopState(prev: Block, cipher: Block, total: nat)

  /** The loop's state at the start of decrypt_file. */
  const InitialState := LoopState(ZeroBlock, ZeroBlock, 0)

  /** One block: the read overwrites the front of the cipher buffer, the
      count grows, the chain is zeroed when the count reaches a multiple of
      4080, and the decrypted buffer is chained into `prev`. */
  function Absorb(aes: (Key, Block) -> Block, key: Key, s: LoopState, chunk: Chunk): LoopState
  {
    var cipher := chunk + s.cipher[|chunk|..];
    var total := s.total + |chunk|;
    var base := if total % ResetPeriod == 0 then ZeroBlock else s.prev;
    LoopState(ChainXor(base, aes(key, cipher)), cipher, total)
  }

  lemma AbsorbParts(aes: (Key, Block) -> Block, key: Key, s: LoopState, chunk: Chunk, cipher: Block, base: Block)
    requires cipher == chunk + s.cipher[|chunk|..]
    requires base == if (s.total + |chunk|) % ResetPeriod == 0 then ZeroBlock else s.prev
    ensures Absorb(aes, key, s, chunk) == LoopState(ChainXor(base, aes(key, cipher)), cipher, s.total + |chunk|)
  {
  }

  /** The loop of decrypt_file from state `s`, the destination holding
      `written` so far. */
  function DecryptLoop(
    aes: (Key, Block) -> Block, key: Key, fileSize: u32, policy: EmitPolicy,
    src: seq<ReadEvent>, capacity: nat, s: LoopState, written: seq<u8>): (run: Run)
    requires |written| <= capacity
    decreases |src|
  {
    if src == [] then Run(Ok(fileSize), written)
    else match src[0]
      case ReadFailure => Run(Err(ReadError), written)
      case Read(chunk) =>
        if |chunk| == 0 then Run(Ok(fileSize), written)
        else
          var s' := Absorb(aes, key, s, chunk);
          var toWrite := EmitCount(policy, fileSize, |written|, |chunk|);
          if |written| + toWrite > capacity then Run(Err(WriteError), written + s'.prev[..capacity - |written|])
          else if toWrite < 16 then Run(Ok(fileSize), written + s'.prev[..toWrite])
          else DecryptLoop(aes, key, fileSize, policy, src[1..], capacity, s', written + s'.prev[..toWrite])
  }

  /** decrypt_file: the loop from a zero chain, a zero cipher buffer and no output. */
  function DecryptFileSpec(aes: (Key, Block) -> Block, key: Key, fileSize: u32, src: seq<ReadEvent>, capacity: nat): Run
  {
    DecryptLoop(aes, key, fileSize, AsWritten, src, capacity, InitialState, [])
  }

  /** decrypt_file over arrays, as the source runs it. */
  method DecryptFile(aes: (Key, Block) -> Block, key: Key, fileSize: u32, src: seq<ReadEvent>, capacity: nat)
    returns (result: Result<nat, DecryptError>, written: seq<u8>)
    ensures Run(result, written) == DecryptFileSpec(aes, key, fileSize, src, capacity)
  {
    var prevBlock := new u8[16](_ => 0);
    var curCipher := new u8[16](_ => 0);
    var totalBytes: nat := 0;
    var lastReadCount: nat := 0;
    var next := 0;
    written := [];
    assert prevBlock[..] == ZeroBlock && curCipher[..] == ZeroBlock;
    while true
      invariant prevBlock.Length == 16 && curCipher.Length == 16 && prevBlock != curCipher
      invariant next <= |src| && |written| <= capacity
      invariant DecryptLoop(aes, key, fileSize, AsWritten, src[next..], capacity,
                            LoopState(prevBlock[..], curCipher[..], totalBytes), written)
             == DecryptFileSpec(aes, key, fileSize, src, capacity)
      decreases |src| - next
    {
      ghost var s := LoopState(prevBlock[..], curCipher[..], totalBytes);
      ghost var rest := src[next..];
      // an exhausted source reads 0 bytes
      var event := if next < |src| then src[next] else Read([]);
      if next < |src| {
        assert rest[0] == event && rest[1..] == src[next + 1..];
        next := next + 1;
      }
      var bytesWritten: nat;
      match event {
        case ReadFailure =>
          result := Err(ReadError);
          return;
        case Read(chunk) =>
          if |chunk| == 0 {
            bytesWritten := 0;
          } else {
            lastReadCount := |chunk|;
            totalBytes := DecryptBlock(aes, key, prevBlock, curCipher, totalBytes, chunk);
            var toWrite := Min(fileSize, lastReadCount);
            if |written| + toWrite > capacity {
              written := written + prevBlock[..capacity - |written|];
              result := Err(WriteError);
              return;
            }
            written := written + prevBlock[..toWrite];
            bytesWritten := toWrite;
          }
      }
      if bytesWritten < 16 {
        break;
      }
    }
    result := Ok(fileSize);
  }

  /** The body of the read closure for a read of `chunk`: count the bytes,
      decrypt the cipher buffer, zero the chain on a 4080-byte boundary,
      then chain the decrypted block into `prevBlock`. */
  method DecryptBlock(
    aes: (Key, Block) -> Block, key: Key, prevBlock: array<u8>, curCipher: array<u8>, totalBytes: nat, chunk: Chunk)
    returns (newTotal: nat)
    requires prevBlock.Length == 16 && curCipher.Length == 16 && prevBlock != curCipher
    modifies prevBlock, curCipher
    ensures LoopState(prevBlock[..], curCipher[..], newTotal)
         == Absorb(aes, key, LoopState(old(prevBlock[..]), old(curCipher[..]), totalBytes), chunk)
  {
    ghost var s := LoopState(prevBlock[..], curCipher[..], totalBytes);
    newTotal := totalBytes + |chunk|;
    ReadInto(curCipher, chunk);
    ghost var cipher: Block := curCipher[..];
    var decBlock := aes(key, curCipher[..]);
    if newTotal % ResetPeriod == 0 {
      Zero(prevBlock);
    }
    ghost var base: Block := prevBlock[..];
    XorChain(prevBlock, decBlock);
    AbsorbParts(aes, key, s, chunk, cipher, base);
  }

  /** The per-index loop `prev_block[i] = dec_block[i] ^ prev_block[i].wrapping_sub(i)`. */
  method XorChain(prevBlock: array<u8>, decBlock: Block)
    requires prevBlock.Length == 16
    modifies prevBlock
    ensures prevBlock[..] == ChainXor(old(prevBlock[..]), decBlock)
  {
    ghost var base: Block := prevBlock[..];
    ghost var chained := ChainXor(base, decBlock);
    for i := 0 to 16
      invariant forall k :: 0 <= k < i ==> prevBlock[k] == chained[k]
      invariant forall k :: i <= k < 16 ==> prevBlock[k] == base[k]
    {
      prevBlock[i] := ChainByte(decBlock[i], prevBlock[i], i as u8);
    }
    assert prevBlock[..] == chained;
  }

  // ------------------------------------------------- properties of the loop

  /** The reads a regular file holding `data` answers: 16 bytes at a time,
      a shorter last read, then 0 bytes. */
  function FileReads(data: seq<u8>): (events: seq<ReadEvent>)
    decreases |data|
  {
    if |data| == 0 then []
    else if |data| <= 16 then [Read(data)]
    else [Read(data[..16])] + FileReads(data[16..])
  }

  lemma FileReadsOfBlock(c: Block, rest: seq<u8>)
    ensures FileReads(c + rest) == [Read(c)] + FileReads(rest)
  {
    if rest != [] {
      assert (c + rest)[..16] == c && (c + rest)[16..] == rest;
    } else {
      assert c + rest == c;
    }
  }

  /** A source that delivers `blocks` whole, one per read: read `i` is
      block `i`. */
  function BlockReads(blocks: seq<Block>): (events: seq<ReadEvent>)
    ensures |events| == |blocks|
    ensures forall i :: 0 <= i < |blocks| ==> events[i] == Read(blocks[i])
    decreases |blocks|
  {
    if blocks == [] then [] else [Read(blocks[0])] + BlockReads(blocks[1..])
  }

  /** A reference encryptor for this chaining, block by block from state
      (`prev`, `total`): zero the chain on the same 4080-byte boundaries,
      chain the plaintext block, encrypt it; the plaintext becomes the chain. */
  function EncryptBlocks(encrypt: (Key, Block) -> Block, key: Key, plain: seq<u8>, prev: Block, total: nat)
    : (c: seq<u8>)
    requires |plain| % 16 == 0
    ensures |c| == |plain|
    decreases |plain|
  {
    if |plain| == 0 then []
    else
      var p: Block := plain[..16];
      var base := if (total + 16) % ResetPeriod == 0 then ZeroBlock else prev;
      encrypt(key, ChainXor(base, p)) + EncryptBlocks(encrypt, key, plain[16..], p, total + 16)
  }

  /** A whole block read while the output has room for it: the loop writes
      the new chain and goes on with the next read. */
  lemma WholeBlockStep(
    aes: (Key, Block) -> Block, key: Key, fileSize: u32, policy: EmitPolicy, c: Block,
    rest: seq<ReadEvent>, capacity: nat, s: LoopState, written: seq<u8>)
    requires |written| + 16 <= capacity && EmitCount(policy, fileSize, |written|, 16) == 16
    ensures var s' := Absorb(aes, key, s, c);
      && s' == LoopState(s'.prev, c, s.total + 16)
      && DecryptLoop(aes, key, fileSize, policy, [Read(c)] + rest, capacity, s, written)
      == DecryptLoop(aes, key, fileSize, policy, rest, capacity, s', written + s'.prev)
  {
    var src := [Read(c)] + rest;
    assert src[0] == Read(c) && src[1..] == rest;
    assert c + s.cipher[16..] == c;
    var s' := Absorb(aes, key, s, c);
    assert s'.prev[..16] == s'.prev;
  }

  lemma PrefixAfterBlock(written: seq<u8>, plain: seq<u8>, m: int)
    requires 16 <= m <= |plain|
    ensures written + plain[..16] + plain[16..][..m - 16] == written + plain[..m]
  {
    assert plain[16..][..m - 16] == plain[16..m];
    assert plain[..16] + plain[16..m] == plain[..m];
  }

  lemma DropBlockKeepsAlignment(n: int)
    requires n % 16 == 0 && n >= 16
    ensures (n - 16) % 16 == 0
  {
  }

  lemma EncryptBlocksCons(encrypt: (Key, Block) -> Block, key: Key, plain: seq<u8>, prev: Block, total: nat)
    requires |plain| % 16 == 0 && |plain| > 0
    ensures var p: Block := plain[..16];
      var base := if (total + 16) % ResetPeriod == 0 then ZeroBlock else prev;
      EncryptBlocks(encrypt, key, plain, prev, total)
      == encrypt(key, ChainXor(base, p)) + EncryptBlocks(encrypt, key, plain[16..], p, total + 16)
  {
  }

  /** One step of the round trip: the first ciphertext block the reference
      encryptor made from `plain` decrypts to its first plaintext block, which
      becomes the chain. */
  lemma EncryptedBlockStep(
    aes: (Key, Block) -> Block, encrypt: (Key, Block) -> Block, key: Key, fileSize: u32, policy: EmitPolicy,
    plain: seq<u8>, capacity: nat, s: LoopState, written: seq<u8>)
    requires |plain| % 16 == 0 && |plain| > 0
    requires var base := if (s.total + 16) % ResetPeriod == 0 then ZeroBlock else s.prev;
      aes(key, encrypt(key, ChainXor(base, plain[..16]))) == ChainXor(base, plain[..16])
    requires |written| + 16 <= capacity && EmitCount(policy, fileSize, |written|, 16) == 16
    ensures var p: Block := plain[..16];
      var base := if (s.total + 16) % ResetPeriod == 0 then ZeroBlock else s.prev;
      var c := encrypt(key, ChainXor(base, p));
      DecryptLoop(aes, key, fileSize, policy, FileReads(EncryptBlocks(encrypt, key, plain, s.prev, s.total)), capacity, s, written)
      == DecryptLoop(aes, key, fileSize, policy, FileReads(EncryptBlocks(encrypt, key, plain[16..], p, s.total + 16)),
                     capacity, LoopState(p, c, s.total + 16), written + p)
  {
    var p: Block := plain[..16];
    var base := if (s.total + 16) % ResetPeriod == 0 then ZeroBlock else s.prev;
    var c := encrypt(key, ChainXor(base, p));
    var rest := EncryptBlocks(encrypt, key, plain[16..], p, s.total + 16);
    assert FileReads(EncryptBlocks(encrypt, key, plain, s.prev, s.total)) == [Read(c)] + FileReads(rest) by {
      EncryptBlocksCons(encrypt, key, plain, s.prev, s.total);
      FileReadsOfBlock(c, rest);
    }
    assert Absorb(aes, key, s, c) == LoopState(p, c, s.total + 16) by {
      assert c + s.cipher[16..] == c;
      AbsorbParts(aes, key, s, c, c, base);
      ChainXorInvolution(base, p);
    }
    WholeBlockStep(aes, key, fileSize, policy, c, FileReads(rest), capacity, s, written);
  }

  /** Whatever happens, a successful run returns the declared size, the
      destination only grows, never past its capacity, and by at most 16
      bytes per read. */
  lemma {:induction false} DecryptLoopOutcome(
    aes: (Key, Block) -> Block, key: Key, fileSize: u32, policy: EmitPolicy,
    src: seq<ReadEvent>, capacity: nat, s: LoopState, written: seq<u8>)
    requires |written| <= capacity
    ensures var run := DecryptLoop(aes, key, fileSize, policy, src, capacity, s, written);
      && (run.result.Ok? ==> run.result.value == fileSize)
      && |written| <= |run.written| <= capacity
      && |run.written| <= |written| + 16 * |src|
      && run.written[..|written|] == written
    decreases |src|
  {
    if src != [] && src[0].Read? && |src[0].chunk| > 0 {
      var chunk := src[0].chunk;
      var s' := Absorb(aes, key, s, chunk);
      var toWrite := EmitCount(policy, fileSize, |written|, |chunk|);
      if |written| + toWrite <= capacity && toWrite >= 16 {
        var w' := written + s'.prev[..toWrite];
        DecryptLoopOutcome(aes, key, fileSize, policy, src[1..], capacity, s', w');
        var run := DecryptLoop(aes, key, fileSize, policy, src[1..], capacity, s', w');
        assert run.written[..|written|] == run.written[..|w'|][..|written|];
      }
    }
  }

  /** One iteration: a read of 0 bytes ends the run with the declared size
      and nothing written; otherwise the iteration writes the first
      `min(file_size, n)` bytes of the new chain (at most 16), and a write
      shorter than a block is the run's last. */
  lemma OneIteration(
    aes: (Key, Block) -> Block, key: Key, fileSize: u32, chunk: Chunk, rest: seq<ReadEvent>,
    capacity: nat, s: LoopState, written: seq<u8>)
    requires |written| <= capacity
    ensures var run := DecryptLoop(aes, key, fileSize, AsWritten, [Read(chunk)] + rest, capacity, s, written);
      var k, chain := Min(fileSize, |chunk|), Absorb(aes, key, s, chunk).prev;
      && (|chunk| == 0 ==> run == Run(Ok(fileSize), written))
      && (0 < |chunk| && |written| + k <= capacity ==>
            && k <= 16
            && |run.written| >= |written| + k
            && run.written[..|written| + k] == written + chain[..k]
            && (k < 16 ==> run == Run(Ok(fileSize), written + chain[..k])))
  {
    var src := [Read(chunk)] + rest;
    assert src[0] == Read(chunk) && src[1..] == rest;
    var k, s' := Min(fileSize, |chunk|), Absorb(aes, key, s, chunk);
    if 0 < |chunk| && |written| + k <= capacity && k >= 16 {
      var w' := written + s'.prev[..k];
      DecryptLoopOutcome(aes, key, fileSize, AsWritten, rest, capacity, s', w');
    }
  }

  /** The chain starts as zero bytes: the first whole block written is the
      first decrypted block chained with a zero accumulator. */
  lemma FirstBlockChainsFromZero(
    aes: (Key, Block) -> Block, key: Key, fileSize: u32, c: Block, rest: seq<ReadEvent>, capacity: nat)
    requires fileSize >= 16 && capacity >= 16
    ensures var run := DecryptFileSpec(aes, key, fileSize, [Read(c)] + rest, capacity);
      |run.written| >= 16 && run.written[..16] == ChainXor(ZeroBlock, aes(key, c))
  {
    var s' := Absorb(aes, key, InitialState, c);
    WholeBlockStep(aes, key, fileSize, AsWritten, c, rest, capacity, InitialState, []);
    assert s'.prev == ChainXor(ZeroBlock, aes(key, c));
    DecryptLoopOutcome(aes, key, fileSize, AsWritten, rest, capacity, s', [] + s'.prev);
  }

  /** On a block that brings the byte count to a multiple of 4080 the chain
      is zeroed first, so the rest of the run does not depend on the chain
      the previous blocks left. */
  lemma ResetForgetsChain(
    aes: (Key, Block) -> Block, key: Key, fileSize: u32, policy: EmitPolicy, src: seq<ReadEvent>,
    capacity: nat, prev1: Block, prev2: Block, cipher: Block, total: nat, written: seq<u8>)
    requires |written| <= capacity
    requires src != [] && src[0].Read? && |src[0].chunk| > 0
    requires (total + |src[0].chunk|) % ResetPeriod == 0
    ensures DecryptLoop(aes, key, fileSize, policy, src, capacity, LoopState(prev1, cipher, total), written)
         == DecryptLoop(aes, key, fileSize, policy, src, capacity, LoopState(prev2, cipher, total), written)
  {
    var chunk := src[0].chunk;
    assert Absorb(aes, key, LoopState(prev1, cipher, total), chunk)
        == Absorb(aes, key, LoopState(prev2, cipher, total), chunk) by {
      var c := chunk + cipher[|chunk|..];
      AbsorbParts(aes, key, LoopState(prev1, cipher, total), chunk, c, ZeroBlock);
      AbsorbParts(aes, key, LoopState(prev2, cipher, total), chunk, c, ZeroBlock);
    }
  }

  /** A failed read ends the run with a read error: the blocks read before it
      are written and nothing after it is read. */
  lemma {:induction false} ReadFailureStopsDecryption(
    aes: (Key, Block) -> Block, key: Key, fileSize: u32, blocks: seq<Block>, rest: seq<ReadEvent>,
    capacity: nat, s: LoopState, written: seq<u8>)
    requires fileSize >= 16 && |written| + 16 * |blocks| <= capacity
    ensures var run := DecryptLoop(aes, key, fileSize, AsWritten, BlockReads(blocks) + [ReadFailure] + rest, capacity, s, written);
      && run == DecryptLoop(aes, key, fileSize, AsWritten, BlockReads(blocks) + [ReadFailure], capacity, s, written)
      && run.result == Err(ReadError)
      && |run.written| == |written| + 16 * |blocks|
    decreases |blocks|
  {
    var src := BlockReads(blocks) + [ReadFailure] + rest;
    var short := BlockReads(blocks) + [ReadFailure];
    if blocks == [] {
      assert src[0] == ReadFailure && short[0] == ReadFailure;
    } else {
      assert src[0] == short[0] == Read(blocks[0]);
      assert src[1..] == BlockReads(blocks[1..]) + [ReadFailure] + rest;
      assert short[1..] == BlockReads(blocks[1..]) + [ReadFailure];
      var s' := Absorb(aes, key, s, blocks[0]);
      ReadFailureStopsDecryption(aes, key, fileSize, blocks[1..], rest, capacity, s', written + s'.prev[..16]);
    }
  }

  /** A destination that runs out of room ends the run with a write error,
      after being filled to its capacity. */
  lemma {:induction false} WriteFailureStopsDecryption(
    aes: (Key, Block) -> Block, key: Key, fileSize: u32, blocks: seq<Block>, rest: seq<ReadEvent>,
    capacity: nat, s: LoopState, written: seq<u8>)
    requires fileSize >= 16 && |written| <= capacity < |written| + 16 * |blocks|
    ensures var run := DecryptLoop(aes, key, fileSize, AsWritten, BlockReads(blocks) + rest, capacity, s, written);
      run.result == Err(WriteError) && |run.written| == capacity
    decreases |blocks|
  {
    var src := BlockReads(blocks) + rest;
    assert src[0] == Read(blocks[0]);
    var s' := Absorb(aes, key, s, blocks[0]);
    if |written| + 16 <= capacity {
      assert src[1..] == BlockReads(blocks[1..]) + rest;
      WriteFailureStopsDecryption(aes, key, fileSize, blocks[1..], rest, capacity, s', written + s'.prev[..16]);
    }
  }

  /** Whatever the reads and the policy, a run that ends in a write error
      has filled the destination to its capacity. */
  lemma {:induction false} WriteErrorFillsCapacity(
    aes: (Key, Block) -> Block, key: Key, fileSize: u32, policy: EmitPolicy,
    src: seq<ReadEvent>, capacity: nat, s: LoopState, written: seq<u8>)
    requires |written| <= capacity
    ensures var run := DecryptLoop(aes, key, fileSize, policy, src, capacity, s, written);
      run.result == Err(WriteError) ==> |run.written| == capacity
    decreases |src|
  {
    if src != [] && src[0].Read? && |src[0].chunk| > 0 {
      var chunk := src[0].chunk;
      var s' := Absorb(aes, key, s, chunk);
      var toWrite := EmitCount(policy, fileSize, |written|, |chunk|);
      if |written| + toWrite <= capacity && toWrite >= 16 {
        WriteErrorFillsCapacity(aes, key, fileSize, policy, src[1..], capacity, s', written + s'.prev[..toWrite]);
      }
    }
  }

  /** A read whose `min(file_size, n)` bytes do not fit in the destination
      ends the run with a write error, after writing the part that fits. */
  lemma OverfullWriteFails(
    aes: (Key, Block) -> Block, key: Key, fileSize: u32, chunk: Chunk, rest: seq<ReadEvent>,
    capacity: nat, s: LoopState, written: seq<u8>)
    requires |written| <= capacity
    requires 0 < |chunk| && |written| + Min(fileSize, |chunk|) > capacity
    ensures DecryptLoop(aes, key, fileSize, AsWritten, [Read(chunk)] + rest, capacity, s, written)
         == Run(Err(WriteError), written + Absorb(aes, key, s, chunk).prev[..capacity - |written|])
  {
    var src := [Read(chunk)] + rest;
    assert src[0] == Read(chunk);
  }

  /** Decrypting what the reference encryptor produced from whole blocks
      gives the plaintext back, when the declared size is at least a block. */
  lemma {:induction false} DecryptInvertsEncrypt(
    aes: (Key, Block) -> Block, encrypt: (Key, Block) -> Block, key: Key, fileSize: u32,
    plain: seq<u8>, capacity: nat, s: LoopState, written: seq<u8>)
    requires forall b: Block :: aes(key, encrypt(key, b)) == b
    requires |plain| % 16 == 0 && fileSize >= 16
    requires |written| + |plain| <= capacity
    ensures DecryptLoop(aes, key, fileSize, AsWritten, FileReads(EncryptBlocks(encrypt, key, plain, s.prev, s.total)),
                        capacity, s, written)
         == Run(Ok(fileSize), written + plain)
    decreases |plain|
  {
    if |plain| > 0 {
      var p: Block := plain[..16];
      var base := if (s.total + 16) % ResetPeriod == 0 then ZeroBlock else s.prev;
      var c := encrypt(key, ChainXor(base, p));
      EncryptedBlockStep(aes, encrypt, key, fileSize, AsWritten, plain, capacity, s, written);
      assert (|plain| - 16) % 16 == 0 by {
        DropBlockKeepsAlignment(|plain|);
      }
      DecryptInvertsEncrypt(aes, encrypt, key, fileSize, plain[16..], capacity, LoopState(p, c, s.total + 16), written + p);
      AppendSplit(written, plain, 16);
    } else {
      assert FileReads(EncryptBlocks(encrypt, key, plain, s.prev, s.total)) == [];
      assert written + plain == written;
    }
  }

  /** A declared size below one block: the first block writes `file_size`
      plaintext bytes, fewer than 16, and the loop stops after it. */
  lemma SmallFileFirstBlock(
    aes: (Key, Block) -> Block, encrypt: (Key, Block) -> Block, key: Key, fileSize: u32,
    plain: seq<u8>, capacity: nat)
    requires |plain| % 16 == 0 && |plain| > 0 && fileSize < 16 && fileSize <= capacity
    requires aes(key, encrypt(key, ChainXor(ZeroBlock, plain[..16]))) == ChainXor(ZeroBlock, plain[..16])
    ensures DecryptFileSpec(aes, key, fileSize, FileReads(EncryptBlocks(encrypt, key, plain, ZeroBlock, 0)), capacity)
         == Run(Ok(fileSize), plain[..fileSize])
  {
    var s := InitialState;
    var p: Block := plain[..16];
    var c := encrypt(key, ChainXor(ZeroBlock, p));
    var rest := EncryptBlocks(encrypt, key, plain[16..], p, 16);
    EncryptBlocksCons(encrypt, key, plain, ZeroBlock, 0);
    FileReadsOfBlock(c, rest);
    var src := [Read(c)] + FileReads(rest);
    assert src[0] == Read(c);
    ChainXorInvolution(ZeroBlock, p);
    assert c + s.cipher[16..] == c;
    assert Absorb(aes, key, s, c).prev == p;
    assert EmitCount(AsWritten, fileSize, 0, 16) == fileSize;
    assert p[..fileSize] == plain[..fileSize];
  }

  /** The whole of decrypt_file undoes the reference encryptor: every
      plaintext byte comes back when the declared size is at least a block,
      and only the first `file_size` bytes when it is less. */
  lemma DecryptFileRoundTrip(
    aes: (Key, Block) -> Block, encrypt: (Key, Block) -> Block, key: Key, fileSize: u32,
    plain: seq<u8>, capacity: nat)
    requires forall b: Block :: aes(key, encrypt(key, b)) == b
    requires |plain| % 16 == 0 && |plain| <= capacity
    ensures DecryptFileSpec(aes, key, fileSize, FileReads(EncryptBlocks(encrypt, key, plain, ZeroBlock, 0)), capacity)
         == Run(Ok(fileSize), if fileSize >= 16 then plain else plain[..Min(fileSize, |plain|)])
  {
    if fileSize >= 16 {
      DecryptInvertsEncrypt(aes, encrypt, key, fileSize, plain, capacity, InitialState, []);
    } else if |plain| == 0 {
      assert FileReads(EncryptBlocks(encrypt, key, plain, ZeroBlock, 0)) == [];
    } else {
      SmallFileFirstBlock(aes, encrypt, key, fileSize, plain, capacity);
    }
  }

  /** With a declared size of at least one block, the loop writes every
      ciphertext byte's worth of output, whatever the declared size. */
  lemma {:induction false} DecryptLengthFollowsCiphertext(
    aes: (Key, Block) -> Block, key: Key, fileSize: u32, data: seq<u8>, capacity: nat, s: LoopState, written: seq<u8>)
    requires fileSize >= 16 && |written| + |data| <= capacity
    ensures var run := DecryptLoop(aes, key, fileSize, AsWritten, FileReads(data), capacity, s, written);
      run.result == Ok(fileSize) && |run.written| == |written| + |data|
    decreases |data|
  {
    if |data| > 16 {
      var c := data[..16];
      assert FileReads(data) == [Read(c)] + FileReads(data[16..]);
      var s' := Absorb(aes, key, s, c);
      DecryptLengthFollowsCiphertext(aes, key, fileSize, data[16..], capacity, s', written + s'.prev[..16]);
    } else if |data| == 16 {
      assert FileReads(data) == [Read(data)];
    }
  }

  /** A 17-byte plaintext stored in two ciphertext blocks decrypts to 32
      bytes: the declared size does not bound the output. */
  lemma DecryptWritesPastDeclaredSize(aes: (Key, Block) -> Block, key: Key, data: seq<u8>)
    requires |data| == 32
    ensures |DecryptFileSpec(aes, key, 17, FileReads(data), 32).written| == 32
  {
    DecryptLengthFollowsCiphertext(aes, key, 17, data, 32, InitialState, []);
  }

  /** With the output bounded by the declared size, decrypting the reference
      encryptor's output gives exactly the declared number of plaintext
      bytes (all of them, when the plaintext is shorter). */
  lemma {:induction false} BoundedDecryptInvertsEncrypt(
    aes: (Key, Block) -> Block, encrypt: (Key, Block) -> Block, key: Key, fileSize: u32,
    plain: seq<u8>, capacity: nat, s: LoopState, written: seq<u8>)
    requires forall b: Block :: aes(key, encrypt(key, b)) == b
    requires |plain| % 16 == 0 && |written| <= fileSize
    requires |written| + Min(fileSize - |written|, |plain|) <= capacity
    ensures DecryptLoop(aes, key, fileSize, DeclaredSize, FileReads(EncryptBlocks(encrypt, key, plain, s.prev, s.total)),
                        capacity, s, written)
         == Run(Ok(fileSize), written + plain[..Min(fileSize - |written|, |plain|)])
    decreases |plain|
  {
    var src := FileReads(EncryptBlocks(encrypt, key, plain, s.prev, s.total));
    var m := Min(fileSize - |written|, |plain|);
    if |plain| == 0 {
      assert src == [];
      assert written + plain[..0] == written;
    } else if fileSize - |written| >= 16 {
      var p: Block := plain[..16];
      var base := if (s.total + 16) % ResetPeriod == 0 then ZeroBlock else s.prev;
      var c := encrypt(key, ChainXor(base, p));
      assert (|plain| - 16) % 16 == 0 by {
        DropBlockKeepsAlignment(|plain|);
      }
      BoundedDecryptInvertsEncrypt(aes, encrypt, key, fileSize, plain[16..], capacity, LoopState(p, c, s.total + 16), written + p);
      BoundedRoundTripStep(aes, encrypt, key, fileSize, plain, capacity, s, written);
    } else {
      assert DecryptLoop(aes, key, fileSize, DeclaredSize, src, capacity, s, written)
          == Run(Ok(fileSize), written + plain[..fileSize - |written|]) by {
        BoundedLastBlock(aes, encrypt, key, fileSize, plain, capacity, s, written);
      }
      assert m == fileSize - |written|;
    }
  }

  /** One whole block of the bounded round trip, given the round trip of
      the blocks after it. */
  lemma BoundedRoundTripStep(
    aes: (Key, Block) -> Block, encrypt: (Key, Block) -> Block, key: Key, fileSize: u32,
    plain: seq<u8>, capacity: nat, s: LoopState, written: seq<u8>)
    requires |plain| % 16 == 0 && |plain| > 0 && |written| + 16 <= fileSize
    requires var base := if (s.total + 16) % ResetPeriod == 0 then ZeroBlock else s.prev;
      aes(key, encrypt(key, ChainXor(base, plain[..16]))) == ChainXor(base, plain[..16])
    requires |written| + Min(fileSize - |written|, |plain|) <= capacity
    requires var p: Block := plain[..16];
      var base := if (s.total + 16) % ResetPeriod == 0 then ZeroBlock else s.prev;
      var c := encrypt(key, ChainXor(base, p));
      (|plain| - 16) % 16 == 0 &&
      DecryptLoop(aes, key, fileSize, DeclaredSize, FileReads(EncryptBlocks(encrypt, key, plain[16..], p, s.total + 16)),
                  capacity, LoopState(p, c, s.total + 16), written + p)
      == Run(Ok(fileSize), written + p + plain[16..][..Min(fileSize - |written + p|, |plain[16..]|)])
    ensures DecryptLoop(aes, key, fileSize, DeclaredSize, FileReads(EncryptBlocks(encrypt, key, plain, s.prev, s.total)),
                        capacity, s, written)
         == Run(Ok(fileSize), written + plain[..Min(fileSize - |written|, |plain|)])
  {
    var m := Min(fileSize - |written|, |plain|);
    EncryptedBlockStep(aes, encrypt, key, fileSize, DeclaredSize, plain, capacity, s, written);
    assert Min(fileSize - |written + plain[..16]|, |plain[16..]|) == m - 16;
    PrefixAfterBlock(written, plain, m);
  }

  /** The block in which the declared size runs out: its first bytes are
      written and the run ends. */
  lemma BoundedLastBlock(
    aes: (Key, Block) -> Block, encrypt: (Key, Block) -> Block, key: Key, fileSize: u32,
    plain: seq<u8>, capacity: nat, s: LoopState, written: seq<u8>)
    requires |plain| % 16 == 0 && |plain| > 0 && |written| <= fileSize < |written| + 16
    requires var base := if (s.total + 16) % ResetPeriod == 0 then ZeroBlock else s.prev;
      aes(key, encrypt(key, ChainXor(base, plain[..16]))) == ChainXor(base, plain[..16])
    requires fileSize <= capacity
    ensures DecryptLoop(aes, key, fileSize, DeclaredSize, FileReads(EncryptBlocks(encrypt, key, plain, s.prev, s.total)),
                        capacity, s, written)
         == Run(Ok(fileSize), written + plain[..fileSize - |written|])
  {
    var p: Block := plain[..16];
    var base := if (s.total + 16) % ResetPeriod == 0 then ZeroBlock else s.prev;
    var c := encrypt(key, ChainXor(base, p));
    var rest := EncryptBlocks(encrypt, key, plain[16..], p, s.total + 16);
    EncryptBlocksCons(encrypt, key, plain, s.prev, s.total);
    FileReadsOfBlock(c, rest);
    var src := [Read(c)] + FileReads(rest);
    assert src[0] == Read(c);
    ChainXorInvolution(base, p);
    assert c + s.cipher[16..] == c;
    assert Absorb(aes, key, s, c).prev == p;
    assert p[..fileSize - |written|] == plain[..fileSize - |written|];
  }

  /** The corrected loop emits exactly the declared size when the ciphertext
      covers it. */
  lemma BoundedDecryptFileRoundTrip(
    aes: (Key, Block) -> Block, encrypt: (Key, Block) -> Block, key: Key, fileSize: u32,
    plain: seq<u8>, capacity: nat)
    requires forall b: Block :: aes(key, encrypt(key, b)) == b
    requires |plain| % 16 == 0 && fileSize <= |plain| && fileSize <= capacity
    ensures DecryptLoop(aes, key, fileSize, DeclaredSize, FileReads(EncryptBlocks(encrypt, key, plain, ZeroBlock, 0)),
                        capacity, InitialState, [])
         == Run(Ok(fileSize), plain[..fileSize])
  {
    BoundedDecryptInvertsEncrypt(aes, encrypt, key, fileSize, plain, capacity, InitialState, []);
  }
}
