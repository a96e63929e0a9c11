/** The readers and writers that the buffering types of package bufio sit on, as far
    as the contracts of package io bind them; everything else they are free to do. */
module IO {
  import opened Common

  datatype Error = EOF | ErrNoProgress | ErrShortWrite | ErrBufferFull | ErrTooLong
                 | ErrNegativeAdvance | ErrAdvanceTooFar | ErrFinalToken | ErrNegativeCount
                 | ErrInvalidUnreadByte | ErrInvalidUnreadRune | Other(code: int)

  /** An io.Reader up to its first error: the bytes rest, in chunks of any size, and
      then the error fin, alone or together with the last chunk, again and again.
      It makes at most mostIdle empty reads in a row. calls counts all its reads. */
  class Source {
    var rest: seq<byte>
    var calls: nat
    const fin: Error
    const mostIdle: nat
    var idle: nat

    constructor (rest: seq<byte>, fin: Error, mostIdle: nat)
      ensures this.rest == rest && this.fin == fin && this.mostIdle == mostIdle && Valid()
    {
      this.rest := rest;
      this.fin := fin;
      this.mostIdle := mostIdle;
      idle, calls := mostIdle, 0;
    }

    predicate Valid()
      reads this
    {
      idle <= mostIdle
    }

    /** Read into a buffer with room for limit bytes. */
    method Read(limit: nat) returns (chunk: seq<byte>, err: Option<Error>)
      requires Valid()
      modifies this
      ensures Valid()
      ensures chunk + rest == old(rest) && |chunk| <= limit && calls == old(calls) + 1
      ensures err.Some? ==> err.value == fin && rest == []
      ensures chunk == [] && err == None && limit > 0 ==> idle < old(idle)
    {
      var n: nat :| n <= limit && n <= |rest|;
      if n == 0 && idle == 0 && limit > 0 && rest != [] {
        n := 1;
      }
      chunk, rest, calls := rest[..n], rest[n..], calls + 1;
      var fails: bool :| true;
      if rest == [] && (fails || (n == 0 && idle == 0)) {
        err := Some(fin);
      } else {
        err := None;
      }
      if n == 0 && err == None && limit > 0 {
        idle := idle - 1;
      } else {
        var k: nat :| k <= mostIdle;
        idle := k;
      }
    }
  }

  /** The answer to one Write: n of the bytes asked for are taken. */
  datatype Reply = Reply(asked: nat, n: nat, err: Option<Error>) {
    /** The error of a caller that wants all of them taken. */
    function Fault(): (e: Option<Error>) { if err == None && n < asked then Some(ErrShortWrite) else err }
  }

  /** An io.Writer that may fail and may write short; without an error it takes at
      least one byte. It keeps its answers. */
  class Sink {
    var data: seq<byte>
    var replies: seq<Reply>

    method Write(p: seq<byte>) returns (n: nat, err: Option<Error>)
      modifies this
      ensures n <= |p| && data == old(data) + p[..n] && replies == old(replies) + [Reply(|p|, n, err)]
      ensures err == None && p != [] ==> n > 0
    {
      var k: nat :| k <= |p|;
      n := k;
      var fails: bool :| true;
      err := if fails || n == 0 then Some(Other(0)) else None;
      data := data + p[..n];
      replies := replies + [Reply(|p|, n, err)];
    }
  }

  /** The built-in copy; the source is taken as it was before. What stood from lo up
      to the place of the copy now ends in src. */
  method Copy(dst: array<byte>, at: nat, src: seq<byte>, ghost lo: nat)
    requires lo <= at && at + |src| <= dst.Length
    modifies dst
    ensures dst[at..at + |src|] == src && dst[..at] == old(dst[..at]) && dst[at + |src|..] == old(dst[at + |src|..])
    ensures dst[lo..at + |src|] == old(dst[lo..at]) + src
  {
    forall i | 0 <= i < |src| {
      dst[at + i] := src[i];
    }
  }

  /** The same to the front of an array. */
  method CopyTo(dst: array<byte>, src: seq<byte>)
    requires |src| <= dst.Length
    modifies dst
    ensures dst[..|src|] == src && dst[|src|..] == old(dst[|src|..])
  {
    Copy(dst, 0, src, 0);
  }
}
