/** Reading a message literal under a size cap. */
module Literal {
  import opened Octets
  import Envelope

  const MAX_HEADER: nat := 0x4000
  const MAX_LITERAL: nat := MAX_HEADER + Envelope.MAX_BODY + 1

  lemma LimitValue()
    ensures MAX_HEADER == 16 * 1024 && MAX_LITERAL == 1064961
  {
  }

  /** A literal on the wire; a broken one ends in an error instead of its end. */
  class Source {
    var rest: Bytes
    const broken: bool

    constructor (data: Bytes, broken: bool)
      ensures rest == data && this.broken == broken
    {
      this.rest := data;
      this.broken := broken;
    }

    /** Reads to the end, or n octets if there are that many. */
    method ReadAtMost(n: nat) returns (data: Bytes, ok: bool)
      modifies this
      ensures ok <==> n <= |old(rest)| || !broken
      ensures ok ==> data == old(rest)[..if n <= |old(rest)| then n else |old(rest)|]
      ensures ok ==> rest == old(rest)[|data|..]
    {
      if n <= |rest| {
        data, ok := rest[..n], true;
        rest := rest[n..];
      } else {
        data, ok := rest, !broken;
        rest := [];
      }
    }

    method Drain()
      modifies this
      ensures rest == []
    {
      rest := [];
    }
  }

  function Truncate(raw: Bytes, limit: nat): Bytes {
    if |raw| > limit then raw[..limit] else raw
  }

  /** On success the buffer holds at most `limit` octets and the source is fully drained, so
      the protocol stays in step however long the literal was. */
  method ReadLiteral(r: Source, limit: nat) returns (buf: Bytes, oversized: bool, ok: bool)
    modifies r
    ensures ok <==> !(r.broken && |old(r.rest)| <= limit)
    ensures ok ==> buf == Truncate(old(r.rest), limit) && r.rest == []
    ensures ok ==> (oversized <==> |old(r.rest)| > limit)
  {
    buf, ok := r.ReadAtMost(limit + 1);
    if !ok {
      return [], false, false;
    }
    if |buf| > limit {
      r.Drain();
      buf := buf[..limit];
      return buf, true, true;
    }
    return buf, false, true;
  }
}
