/**
 * The input both header readers consume: a regular file read from a cursor.
 * One read call asking for `n` bytes delivers as many as are left, up to
 * `n`; at the end of the file it delivers none.
 */
module Stream {
  import opened Primitives

  class Reader {
    /** The file's bytes. */
    const data: seq<u8>
    /** The read position. */
    var pos: nat

    ghost predicate Valid()
      reads this
    {
      pos <= |data|
    }

    /** The bytes not read yet. */
    function Remaining(): seq<u8>
      reads this
      requires Valid()
    {
      data[pos..]
    }

    constructor (data: seq<u8>)
      ensures Valid() && this.data == data && pos == 0
    {
      this.data := data;
      pos := 0;
    }

    /** One read call into a buffer of `n` bytes. */
    method Read(n: nat) returns (got: seq<u8>)
      requires Valid()
      modifies this
      ensures Valid()
      ensures got == old(Remaining())[..Min(n, |old(Remaining())|)]
      ensures Remaining() == old(Remaining())[|got|..]
    {
      var k := Min(n, |data| - pos);
      got := data[pos..pos + k];
      pos := pos + k;
    }

    /** One read call into the tail `buf[from..]` of a buffer: the bytes
        delivered land at `from`, the rest of the buffer is kept. */
    method ReadTo(buf: array<u8>, from: nat) returns (got: nat)
      requires Valid() && from <= buf.Length
      modifies this, buf
      ensures Valid()
      ensures got == Min(buf.Length - from, |old(Remaining())|)
      ensures Remaining() == old(Remaining())[got..]
      ensures buf[..from] == old(buf[..from])
      ensures buf[from..from + got] == old(Remaining())[..got]
      ensures buf[from + got..] == old(buf[from + got..])
    {
      var bytes := Read(buf.Length - from);
      got := |bytes|;
      forall j | 0 <= j < got {
        buf[from + j] := bytes[j];
      }
    }
  }

  /** A buffer whose front matches `rem` up to `n`, after `got` more bytes
      of `rem` land at `n`, matches it up to `n + got`. */
  lemma FrontGrows(buf: seq<u8>, rem: seq<u8>, n: nat, got: nat)
    requires n + got <= |buf| && n + got <= |rem|
    requires buf[..n] == rem[..n] && buf[n..n + got] == rem[n..][..got]
    ensures buf[..n + got] == rem[..n + got]
  {
    assert buf[..n + got] == buf[..n] + buf[n..n + got];
    assert rem[..n + got] == rem[..n] + rem[n..][..got];
  }

  /** A buffer after a read of `rem` into it that stops when the buffer is
      full or the input ends: its front holds the bytes read, the rest keeps
      what the buffer held. */
  function FillFrom(rem: seq<u8>, buf: seq<u8>): (filled: seq<u8>)
    ensures |filled| == |buf|
    ensures |rem| >= |buf| ==> filled == rem[..|buf|]
    ensures |rem| < |buf| ==> filled[..|rem|] == rem && filled[|rem|..] == buf[|rem|..]
  {
    if |rem| >= |buf| then rem[..|buf|] else rem + buf[|rem|..]
  }

  /** A buffer filled from `rem` up to `n`, where the read stopped because
      the buffer was full or the input ran out, is `FillFrom(rem, before)`. */
  lemma FilledFront(buf: seq<u8>, before: seq<u8>, rem: seq<u8>, n: nat)
    requires |buf| == |before| && n <= |buf| && n <= |rem|
    requires buf[..n] == rem[..n] && buf[n..] == before[n..]
    requires n == |buf| || n == |rem|
    ensures buf == FillFrom(rem, before)
  {
    assert buf == buf[..n] + buf[n..];
  }
}
