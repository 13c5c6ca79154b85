/** A seekable byte stream, the role `BufferedReader`/`BytesIO` play for the archive codec. */
module Streams {
  import opened Bytes

  /** What `read(n)` returns when `rest` is still unread: at most `n` bytes, and everything
      that is left when `n` is negative (Python's `read(-1)`). */
  function Take(rest: seq<Byte>, n: int): (r: seq<Byte>)
    ensures |r| <= |rest|
    ensures 0 <= n <= |rest| ==> |r| == n
  {
    if 0 <= n <= |rest| then rest[..n] else rest
  }

  /** What is still unread after `read(n)`. */
  function Drop(rest: seq<Byte>, n: int): (r: seq<Byte>) {
    if 0 <= n <= |rest| then rest[n..] else []
  }

  /** `read(n)` splits the unread bytes: it returns their prefix and leaves the rest. */
  lemma TakeDrop(rest: seq<Byte>, n: int)
    ensures Take(rest, n) + Drop(rest, n) == rest
    ensures Take(rest, n) == rest[..|Take(rest, n)|]
    ensures (n < 0 || n >= |rest|) ==> Take(rest, n) == rest && Drop(rest, n) == []
  {
  }

  /** Reading exactly the length of a prefix returns that prefix and leaves the rest. */
  lemma TakePrefix(a: seq<Byte>, b: seq<Byte>, n: int)
    requires |a| == n
    ensures Take(a + b, n) == a && Drop(a + b, n) == b
  {
    assert (a + b)[..n] == a;
  }

  lemma AppendAssoc(a: seq<Byte>, b: seq<Byte>, c: seq<Byte>)
    ensures (a + b) + c == a + (b + c)
  {
  }

  /** Appending to a record made of four parts appends to its last part. */
  lemma Append4(a: seq<Byte>, b: seq<Byte>, c: seq<Byte>, d: seq<Byte>, tail: seq<Byte>)
    ensures (a + (b + (c + d))) + tail == a + (b + (c + (d + tail)))
  {
  }

  class Reader {
    const data: seq<Byte>
    var pos: nat

    constructor (data: seq<Byte>)
      ensures this.data == data && pos == 0
    {
      this.data := data;
      pos := 0;
    }

    /** The bytes from the current position to the end (empty past the end). */
    function Remaining(): (r: seq<Byte>)
      reads this
      ensures pos <= |data| ==> r == data[pos..]
      ensures pos > |data| ==> r == []
    {
      if pos <= |data| then data[pos..] else []
    }

    method Read(n: int) returns (bs: seq<Byte>)
      modifies this
      ensures bs == Take(old(Remaining()), n)
      ensures Remaining() == Drop(old(Remaining()), n)
    {
      bs := Take(Remaining(), n);
      if pos <= |data| {
        pos := pos + |bs|;
      }
    }

    method Seek(offset: nat)
      modifies this
      ensures pos == offset
    {
      pos := offset;
    }
  }
}
