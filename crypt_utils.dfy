/**
 * go/src/spigwitmer/smactools/crypt_utils.go: the Go variant of key
 * derivation and of the payload decryptor. Its chaining differs from the
 * Rust one: the accumulator carried to the next block is the previous
 * CIPHERTEXT block, every processed block is written whole, and the
 * accumulator is zeroed AFTER the block that brings the byte count to a
 * multiple of 4080 has been written.
 *
 * The reader is a script of `Read` results (the bytes delivered and the
 * error returned with them); an exhausted script answers 0 bytes and
 * io.EOF, as a regular file does. Writes are unchecked in the source, so
 * the destination is the sequence of bytes written. `log.Fatalf` ends the
 * process: the model records it as the outcome `Fatal`.
 */
module CryptUtils {
  import opened Primitives
  import opened Chaining
  import Crypt

  // ---------------------------------------------------------------- key

  /** The error of the unimplemented DS1963S dongle reader. */
  const DongleError: string := "dongle connected to boxor became loose or however that meme went"

  /** GetSubkeyFromDS1963S: not implemented, always fails. */
  function GetSubkeyFromDS1963S(): (r: Result<seq<u8>, string>)
    ensures r.Err?
  {
    Err(DongleError)
  }

  /** DeriveCipherKey: a nil subkey (`None`) is fetched from the dongle,
      which fails; otherwise the key is the first 24 bytes of
      SHA-512(subkey ++ salt), the same key the Rust variant derives.
      `aes.NewCipher` accepts any 24-byte key, so it cannot fail here. */
  function DeriveCipherKey(sha512: seq<u8> -> Digest, subkey: Option<seq<u8>>, salt: seq<u8>)
    : (r: Result<Key, string>)
    ensures subkey.None? <==> r.Err?
    ensures subkey.None? ==> r == Err(DongleError)
    ensures subkey.Some? ==> r == Ok(Crypt.DeriveAesKey(sha512, subkey.value, salt))
  {
    var fetched := if subkey.None? then GetSubkeyFromDS1963S() else Ok(subkey.value);
    match fetched
    case Err(e) => Err(e)
    case Ok(k) =>
      var hashKey: Key := sha512(k + salt)[..24];
      Ok(hashKey)
  }

  /** The key depends on nothing but the subkey and the salt: the same
      inputs give the same key, and an empty subkey is not a nil one. */
  lemma EmptySubkeyIsNotNil(sha512: seq<u8> -> Digest, salt: seq<u8>)
    ensures var r := DeriveCipherKey(sha512, Some([]), salt);
      r.Ok? && r.value == sha512(salt)[..24]
  {
    assert [] + salt == salt;
  }

  // ------------------------------------------------------------- decrypt

  /** The error a Go `Read` returns with its byte count. */
  datatype ReadErr = NoErr | EOF | OtherErr

  /** One `src.Read(scratch_block)`: the bytes delivered and the error. */
  datatype GoRead = GoRead(chunk: Chunk, err: ReadErr)

  /** How DecryptFile ends: it returns an error value, or `log.Fatalf`
      ends the process. */
  datatype Outcome = Returned(err: ReadErr) | Fatal

  datatype GoRun = GoRun(outcome: Outcome, written: seq<u8>)

  /** What one iteration hands to the next: `last_block`, `scratch_block`
      and `total_bytes_read`. */
  datatype GoState = GoState(last: Block, scratch: Block, total: nat)

  const GoInitial := GoState(ZeroBlock, ZeroBlock, 0)

  /** The 16 bytes one processed read writes: the decrypted scratch buffer
      (its front overwritten by the read) chained with `last_block`. */
  function GoOutput(aes: (Key, Block) -> Block, key: Key, s: GoState, chunk: Chunk): Block
  {
    ChainXor(s.last, aes(key, chunk + s.scratch[|chunk|..]))
  }

  /** The state after a processed read: the scratch buffer becomes the
      chain, and is dropped for zeros once the count reaches a multiple of
      4080. */
  function GoAdvance(s: GoState, chunk: Chunk): (s': GoState)
  {
    var scratch := chunk + s.scratch[|chunk|..];
    var total := s.total + |chunk|;
    GoState(if total % ResetPeriod == 0 then ZeroBlock else scratch, scratch, total)
  }

  /** The loop `for err != io.EOF` from state `s`, `written` already sent. */
  function GoDecryptLoop(aes: (Key, Block) -> Block, key: Key, src: seq<GoRead>, s: GoState, written: seq<u8>): GoRun
    decreases |src|
  {
    if src == [] then GoRun(Returned(EOF), written)
    else
      var r := src[0];
      if |r.chunk| == 0 || r.err == EOF then
        if r.err == EOF then GoRun(Returned(EOF), written)
        else GoDecryptLoop(aes, key, src[1..], s, written)
      else if r.err != NoErr then GoRun(Fatal, written)
      else GoDecryptLoop(aes, key, src[1..], GoAdvance(s, r.chunk), written + GoOutput(aes, key, s, r.chunk))
  }

  function GoDecryptFileSpec(aes: (Key, Block) -> Block, key: Key, src: seq<GoRead>): GoRun
  {
    GoDecryptLoop(aes, key, src, GoInitial, [])
  }

  /** DecryptFile over arrays, as the source runs it. */
  method DecryptFile(aes: (Key, Block) -> Block, key: Key, src: seq<GoRead>)
    returns (outcome: Outcome, written: seq<u8>)
    ensures GoRun(outcome, written) == GoDecryptFileSpec(aes, key, src)
  {
    var totalBytesRead: nat := 0;
    var lastBlock := new u8[16](_ => 0);
    var scratchBlock := new u8[16](_ => 0);
    var decBlock := new u8[16](_ => 0);
    var err := NoErr;
    var next := 0;
    written := [];
    assert lastBlock[..] == ZeroBlock && scratchBlock[..] == ZeroBlock;
    while err != EOF
      invariant lastBlock.Length == 16 && scratchBlock.Length == 16 && decBlock.Length == 16
      invariant lastBlock != scratchBlock && lastBlock != decBlock && scratchBlock != decBlock
      invariant next <= |src|
      invariant err != EOF ==>
        GoDecryptLoop(aes, key, src[next..], GoState(lastBlock[..], scratchBlock[..], totalBytesRead), written)
        == GoDecryptFileSpec(aes, key, src)
      invariant err == EOF ==> GoRun(Returned(EOF), written) == GoDecryptFileSpec(aes, key, src)
      decreases |src| - next + (if err == EOF then 0 else 1)
    {
      ghost var s := GoState(lastBlock[..], scratchBlock[..], totalBytesRead);
      ghost var rest := src[next..];
      // an exhausted reader answers 0 bytes and io.EOF
      var r := if next < |src| then src[next] else GoRead([], EOF);
      if next < |src| {
        assert rest[0] == r && rest[1..] == src[next + 1..];
        next := next + 1;
      }
      var bytesRead := |r.chunk|;
      err := r.err;
      ReadInto(scratchBlock, r.chunk);
      if bytesRead == 0 || err == EOF {
        if err != EOF {
          assert scratchBlock[..] == s.scratch;
          assert GoDecryptLoop(aes, key, rest, s, written) == GoDecryptLoop(aes, key, src[next..], s, written);
        } else {
          assert GoDecryptLoop(aes, key, rest, s, written) == GoRun(Returned(EOF), written);
        }
        continue;
      }
      if err != NoErr {
        assert GoDecryptLoop(aes, key, rest, s, written) == GoRun(Fatal, written);
        outcome := Fatal;
        return;
      }
      assert GoDecryptLoop(aes, key, rest, s, written)
          == GoDecryptLoop(aes, key, src[next..], GoAdvance(s, r.chunk), written + GoOutput(aes, key, s, r.chunk));
      totalBytesRead := ProcessBlock(aes, key, decBlock, lastBlock, scratchBlock, totalBytesRead, bytesRead, s, r.chunk);
      written := written + decBlock[..];
    }
    outcome := Returned(if err != EOF then NoErr else err);
  }

  /** The body of the loop once a read of `bytesRead` > 0 bytes succeeded:
      decrypt the scratch buffer, chain it with `last_block` while carrying
      the scratch buffer into `last_block`, count the bytes, and zero
      `last_block` on a 4080-byte boundary. */
  method ProcessBlock(
    aes: (Key, Block) -> Block, key: Key, decBlock: array<u8>, lastBlock: array<u8>, scratchBlock: array<u8>,
    totalBytesRead: nat, bytesRead: nat, ghost s: GoState, ghost chunk: Chunk)
    returns (newTotal: nat)
    requires decBlock.Length == 16 && lastBlock.Length == 16 && scratchBlock.Length == 16
    requires decBlock != lastBlock && decBlock != scratchBlock && lastBlock != scratchBlock
    requires lastBlock[..] == s.last && totalBytesRead == s.total && bytesRead == |chunk|
    requires scratchBlock[..] == chunk + s.scratch[|chunk|..]
    modifies decBlock, lastBlock
    ensures decBlock[..] == GoOutput(aes, key, s, chunk)
    ensures GoState(lastBlock[..], scratchBlock[..], newTotal) == GoAdvance(s, chunk)
  {
    ghost var scratch: Block := scratchBlock[..];
    DecryptInto(aes, key, decBlock, scratchBlock);
    ghost var dec := decBlock[..];
    assert dec == aes(key, scratch) && lastBlock[..] == s.last;
    ChainAndCarry(decBlock, lastBlock, scratchBlock);
    assert decBlock[..] == GoOutput(aes, key, s, chunk) by {
      assert decBlock[..] == ChainXor(s.last, dec);
    }
    newTotal := totalBytesRead + bytesRead;
    if newTotal % ResetPeriod == 0 {
      Zero(lastBlock);
    }
  }

  /** `block.Decrypt(dec_block, scratch_block)`. */
  method DecryptInto(aes: (Key, Block) -> Block, key: Key, dst: array<u8>, src: array<u8>)
    requires dst.Length == 16 && src.Length == 16 && dst != src
    modifies dst
    ensures dst[..] == aes(key, src[..])
  {
    var dec := aes(key, src[..]);
    forall j | 0 <= j < 16 {
      dst[j] := dec[j];
    }
    assert dst[..] == dec;
    assert src[..] == old(src[..]);
  }

  /** The per-index loop: `dec_block[i] ^= last_block[i] - i`, then
      `last_block[i] = scratch_block[i]`. */
  method ChainAndCarry(decBlock: array<u8>, lastBlock: array<u8>, scratchBlock: array<u8>)
    requires decBlock.Length == 16 && lastBlock.Length == 16 && scratchBlock.Length == 16
    requires decBlock != lastBlock && decBlock != scratchBlock && lastBlock != scratchBlock
    modifies decBlock, lastBlock
    ensures decBlock[..] == ChainXor(old(lastBlock[..]), old(decBlock[..]))
    ensures lastBlock[..] == scratchBlock[..]
  {
    ghost var last: Block := lastBlock[..];
    ghost var dec: Block := decBlock[..];
    ghost var chained := ChainXor(last, dec);
    for i := 0 to 16
      invariant forall k :: 0 <= k < i ==> decBlock[k] == chained[k]
      invariant forall k :: 0 <= k < i ==> lastBlock[k] == scratchBlock[k]
      invariant forall k :: i <= k < 16 ==> decBlock[k] == dec[k]
      invariant forall k :: i <= k < 16 ==> lastBlock[k] == last[k]
    {
      assert chained[i] == ChainByte(dec[i], last[i], i as u8);
      decBlock[i] := ChainByte(decBlock[i], lastBlock[i], i as u8);
      lastBlock[i] := scratchBlock[i];
    }
    assert decBlock[..] == chained;
    assert lastBlock[..] == scratchBlock[..];
  }

  // ------------------------------------------------- properties of the loop

  /** The reads a regular file holding `data` answers: 16 bytes at a time
      with no error, a shorter last read; then 0 bytes and io.EOF. */
  function GoFileReads(data: seq<u8>): (events: seq<GoRead>)
    decreases |data|
  {
    if |data| == 0 then []
    else if |data| <= 16 then [GoRead(data, NoErr)]
    else [GoRead(data[..16], NoErr)] + GoFileReads(data[16..])
  }

  lemma GoFileReadsOfBlock(c: Block, rest: seq<u8>)
    ensures GoFileReads(c + rest) == [GoRead(c, NoErr)] + GoFileReads(rest)
  {
    if rest != [] {
      assert (c + rest)[..16] == c && (c + rest)[16..] == rest;
    } else {
      assert c + rest == c;
    }
  }

  /** A reference encryptor for the Go chaining: chain the plaintext block
      with the carried block, encrypt it, and carry the CIPHERTEXT, zeroed
      once the count reaches a multiple of 4080. */
  function GoEncryptBlocks(encrypt: (Key, Block) -> Block, key: Key, plain: seq<u8>, last: Block, total: nat)
    : (c: seq<u8>)
    requires |plain| % 16 == 0
    ensures |c| == |plain|
    decreases |plain|
  {
    if |plain| == 0 then []
    else
      var c: Block := encrypt(key, ChainXor(last, plain[..16]));
      var next := if (total + 16) % ResetPeriod == 0 then ZeroBlock else c;
      c + GoEncryptBlocks(encrypt, key, plain[16..], next, total + 16)
  }

  /** One step of the round trip: the first block the reference encryptor
      made decrypts to the first plaintext block, and the ciphertext is
      carried. */
  lemma GoEncryptedBlockStep(
    aes: (Key, Block) -> Block, encrypt: (Key, Block) -> Block, key: Key, plain: seq<u8>, s: GoState, written: seq<u8>)
    requires |plain| % 16 == 0 && |plain| > 0
    requires aes(key, encrypt(key, ChainXor(s.last, plain[..16]))) == ChainXor(s.last, plain[..16])
    ensures var c: Block := encrypt(key, ChainXor(s.last, plain[..16]));
      (|plain| - 16) % 16 == 0 &&
      GoDecryptLoop(aes, key, GoFileReads(GoEncryptBlocks(encrypt, key, plain, s.last, s.total)), s, written)
      == GoDecryptLoop(aes, key, GoFileReads(GoEncryptBlocks(encrypt, key, plain[16..], GoAdvance(s, c).last, s.total + 16)),
                       GoAdvance(s, c), written + plain[..16])
  {
    var p: Block := plain[..16];
    var c: Block := encrypt(key, ChainXor(s.last, p));
    Crypt.DropBlockKeepsAlignment(|plain|);
    var rest := GoEncryptBlocks(encrypt, key, plain[16..], GoAdvance(s, c).last, s.total + 16);
    assert c + s.scratch[16..] == c;
    assert GoFileReads(GoEncryptBlocks(encrypt, key, plain, s.last, s.total)) == [GoRead(c, NoErr)] + GoFileReads(rest) by {
      assert GoEncryptBlocks(encrypt, key, plain, s.last, s.total) == c + rest;
      GoFileReadsOfBlock(c, rest);
    }
    assert GoOutput(aes, key, s, c) == p by {
      ChainXorInvolution(s.last, p);
    }
    GoLoopProcessesRead(aes, key, GoRead(c, NoErr), GoFileReads(rest), s, written);
  }

  /** A read that delivers bytes with no error is processed, and the loop
      goes on with the reads after it. */
  lemma GoLoopProcessesRead(aes: (Key, Block) -> Block, key: Key, r: GoRead, tail: seq<GoRead>, s: GoState, written: seq<u8>)
    requires |r.chunk| > 0 && r.err == NoErr
    ensures GoDecryptLoop(aes, key, [r] + tail, s, written)
         == GoDecryptLoop(aes, key, tail, GoAdvance(s, r.chunk), written + GoOutput(aes, key, s, r.chunk))
  {
    assert ([r] + tail)[0] == r && ([r] + tail)[1..] == tail;
  }

  lemma GoRoundTripStep(
    aes: (Key, Block) -> Block, encrypt: (Key, Block) -> Block, key: Key, plain: seq<u8>, s: GoState, written: seq<u8>)
    requires |plain| % 16 == 0 && |plain| > 0
    requires aes(key, encrypt(key, ChainXor(s.last, plain[..16]))) == ChainXor(s.last, plain[..16])
    requires var c: Block := encrypt(key, ChainXor(s.last, plain[..16]));
      (|plain| - 16) % 16 == 0 &&
      GoDecryptLoop(aes, key, GoFileReads(GoEncryptBlocks(encrypt, key, plain[16..], GoAdvance(s, c).last, s.total + 16)),
                    GoAdvance(s, c), written + plain[..16])
      == GoRun(Returned(EOF), written + plain[..16] + plain[16..])
    ensures GoDecryptLoop(aes, key, GoFileReads(GoEncryptBlocks(encrypt, key, plain, s.last, s.total)), s, written)
         == GoRun(Returned(EOF), written + plain)
  {
    GoEncryptedBlockStep(aes, encrypt, key, plain, s, written);
    AppendSplit(written, plain, 16);
  }

  /** Decrypting what the reference encryptor produced gives the plaintext
      back, and the loop ends on io.EOF. */
  lemma {:induction false} GoDecryptInvertsEncrypt(
    aes: (Key, Block) -> Block, encrypt: (Key, Block) -> Block, key: Key, plain: seq<u8>, s: GoState, written: seq<u8>)
    requires forall b: Block :: aes(key, encrypt(key, b)) == b
    requires |plain| % 16 == 0
    ensures GoDecryptLoop(aes, key, GoFileReads(GoEncryptBlocks(encrypt, key, plain, s.last, s.total)), s, written)
         == GoRun(Returned(EOF), written + plain)
    decreases |plain|
  {
    if |plain| > 0 {
      var c: Block := encrypt(key, ChainXor(s.last, plain[..16]));
      var s' := GoAdvance(s, c);
      assert s'.total == s.total + 16;
      assert aes(key, c) == ChainXor(s.last, plain[..16]);
      assert (|plain| - 16) % 16 == 0 by {
        Crypt.DropBlockKeepsAlignment(|plain|);
      }
      GoDecryptInvertsEncrypt(aes, encrypt, key, plain[16..], s', written + plain[..16]);
      GoRoundTripStep(aes, encrypt, key, plain, s, written);
    } else {
      assert GoFileReads(GoEncryptBlocks(encrypt, key, plain, s.last, s.total)) == [];
      assert written + plain == written;
    }
  }

  /** The whole of DecryptFile undoes the reference encryptor. */
  lemma GoDecryptFileRoundTrip(aes: (Key, Block) -> Block, encrypt: (Key, Block) -> Block, key: Key, plain: seq<u8>)
    requires forall b: Block :: aes(key, encrypt(key, b)) == b
    requires |plain| % 16 == 0
    ensures GoDecryptFileSpec(aes, key, GoFileReads(GoEncryptBlocks(encrypt, key, plain, ZeroBlock, 0)))
         == GoRun(Returned(EOF), plain)
  {
    GoDecryptInvertsEncrypt(aes, encrypt, key, plain, GoInitial, []);
  }

  /** The reads the loop decrypts: those before the first io.EOF or failed
      read that deliver at least one byte without an error. */
  function ProcessedReads(src: seq<GoRead>): (n: nat)
    ensures n <= |src|
    decreases |src|
  {
    if src == [] then 0
    else if src[0].err == EOF then 0
    else if |src[0].chunk| == 0 then ProcessedReads(src[1..])
    else if src[0].err != NoErr then 0
    else 1 + ProcessedReads(src[1..])
  }

  /** A read that makes DecryptFile call `log.Fatalf`: bytes with an error
      other than io.EOF. */
  predicate FailedRead(r: GoRead)
  {
    |r.chunk| > 0 && r.err == OtherErr
  }

  /** Whatever the reads, DecryptFile never returns nil: it returns io.EOF,
      or the process ends, and only on a read that failed after delivering
      bytes. Every processed read writes a whole block of 16 bytes, however
      few bytes it delivered, and writes only add. */
  lemma {:induction false} GoRunShape(aes: (Key, Block) -> Block, key: Key, src: seq<GoRead>, s: GoState, written: seq<u8>)
    ensures var run := GoDecryptLoop(aes, key, src, s, written);
      && (run.outcome == Returned(EOF) || run.outcome == Fatal)
      && (run.outcome == Fatal ==> exists i :: 0 <= i < |src| && FailedRead(src[i]))
      && |run.written| == |written| + 16 * ProcessedReads(src)
      && run.written[..|written|] == written
    decreases |src|
  {
    if src != [] && src[0].err != EOF {
      var r := src[0];
      var next := if |r.chunk| == 0 then s else GoAdvance(s, r.chunk);
      var w := if |r.chunk| == 0 then written else written + GoOutput(aes, key, s, r.chunk);
      if |r.chunk| == 0 || r.err == NoErr {
        GoRunShape(aes, key, src[1..], next, w);
        var run := GoDecryptLoop(aes, key, src[1..], next, w);
        assert run.written[..|written|] == run.written[..|w|][..|written|];
        if run.outcome == Fatal {
          var i :| 0 <= i < |src[1..]| && FailedRead(src[1..][i]);
          assert FailedRead(src[i + 1]);
        }
      } else {
        assert FailedRead(src[0]);
      }
    }
  }

  /** Reads that deliver no bytes and no io.EOF are skipped: the loop reads
      again with its state untouched. */
  lemma {:induction false} EmptyReadsAreSkipped(
    aes: (Key, Block) -> Block, key: Key, errs: seq<ReadErr>, rest: seq<GoRead>, s: GoState, written: seq<u8>)
    requires forall i :: 0 <= i < |errs| ==> errs[i] != EOF
    ensures var empties := seq(|errs|, i requires 0 <= i < |errs| => GoRead([], errs[i]));
      GoDecryptLoop(aes, key, empties + rest, s, written) == GoDecryptLoop(aes, key, rest, s, written)
    decreases |errs|
  {
    var empties := seq(|errs|, i requires 0 <= i < |errs| => GoRead([], errs[i]));
    if errs != [] {
      var tail := seq(|errs| - 1, i requires 0 <= i < |errs| - 1 => GoRead([], errs[1..][i]));
      assert (empties + rest)[0] == GoRead([], errs[0]);
      assert (empties + rest)[1..] == tail + rest;
      EmptyReadsAreSkipped(aes, key, errs[1..], rest, s, written);
    } else {
      assert empties + rest == rest;
    }
  }

  /** Bytes delivered together with io.EOF are dropped: the loop stops
      without decrypting them. */
  lemma {:induction false} EofDropsItsBytes(
    aes: (Key, Block) -> Block, key: Key, blocks: seq<Block>, last: Chunk, rest: seq<GoRead>, s: GoState, written: seq<u8>)
    ensures var src := seq(|blocks|, i requires 0 <= i < |blocks| => GoRead(blocks[i], NoErr)) + [GoRead(last, EOF)] + rest;
      var run := GoDecryptLoop(aes, key, src, s, written);
      run.outcome == Returned(EOF) && |run.written| == |written| + 16 * |blocks|
    decreases |blocks|
  {
    var src := seq(|blocks|, i requires 0 <= i < |blocks| => GoRead(blocks[i], NoErr)) + [GoRead(last, EOF)] + rest;
    if blocks == [] {
      assert src[0] == GoRead(last, EOF);
    } else {
      var tail := seq(|blocks| - 1, i requires 0 <= i < |blocks| - 1 => GoRead(blocks[1..][i], NoErr));
      assert src[0] == GoRead(blocks[0], NoErr);
      assert src[1..] == tail + [GoRead(last, EOF)] + rest;
      EofDropsItsBytes(aes, key, blocks[1..], last, rest, GoAdvance(s, blocks[0]), written + GoOutput(aes, key, s, blocks[0]));
    }
  }
}
