/**
 * The non-standard chaining step shared by both decryptor variants: each
 * byte of an AES-decrypted block is xored with the matching byte of a 16-byte
 * accumulator from which the byte's index has been subtracted with 8-bit
 * wrap-around. The variants differ only in what becomes the next
 * accumulator and when it is zeroed.
 */
module Chaining {
  import opened Primitives

  /** Ciphertext bytes read between two zeroings of the accumulator (255 blocks). */
  const ResetPeriod: nat := 4080

  /** One byte of the step: `b ^ (acc - index)`, the subtraction wrapping modulo 256. */
  function ChainByte(b: u8, acc: u8, index: u8): (r: u8)
    ensures r ^ b == acc - index
    ensures acc == index ==> r == b
  {
    b ^ (acc - index)
  }

  /** `out[i] == block[i] ^ (acc[i] - i)` at every index i: the same byte
      step, applied to the output with the same accumulator byte and index,
      gives the decrypted byte back. */
  function ChainXor(acc: Block, block: Block): (out: Block)
    ensures forall i {:trigger ChainByte(out[i], acc[i], i as u8)} :: 0 <= i < 16 ==> ChainByte(out[i], acc[i], i as u8) == block[i]
  {
    seq(16, i requires 0 <= i < 16 => ChainByte(block[i], acc[i], i as u8))
  }

  lemma ChainByteInvolution(b: u8, acc: u8, index: u8)
    ensures ChainByte(ChainByte(b, acc, index), acc, index) == b
  {
  }

  /** The step is its own inverse for a fixed accumulator, so an encryptor
      applies the same step before the block cipher. */
  lemma ChainXorInvolution(acc: Block, block: Block)
    ensures ChainXor(acc, ChainXor(acc, block)) == block
  {
    var once := ChainXor(acc, block);
    var twice := ChainXor(acc, once);
    forall i | 0 <= i < 16
      ensures twice[i] == block[i]
    {
      ChainByteInvolution(block[i], acc[i], i as u8);
    }
  }

  /** For a fixed accumulator the step is injective: distinct decrypted
      blocks never chain to the same output. */
  lemma ChainXorInjective(acc: Block, b1: Block, b2: Block)
    requires ChainXor(acc, b1) == ChainXor(acc, b2)
    ensures b1 == b2
  {
    ChainXorInvolution(acc, b1);
    ChainXorInvolution(acc, b2);
  }

  // ------------------------------------------------ block buffers

  /** A read delivering `chunk` into a 16-byte buffer overwrites its front only. */
  method ReadInto(buf: array<u8>, chunk: Chunk)
    requires buf.Length == 16
    modifies buf
    ensures buf[..] == chunk + old(buf[..])[|chunk|..]
  {
    forall j | 0 <= j < |chunk| {
      buf[j] := chunk[j];
    }
    assert buf[..] == chunk + old(buf[..])[|chunk|..];
  }

  /** Zeroing a 16-byte buffer. */
  method Zero(buf: array<u8>)
    requires buf.Length == 16
    modifies buf
    ensures buf[..] == ZeroBlock
  {
    forall j | 0 <= j < 16 {
      buf[j] := 0;
    }
  }
}
