/** Byte sources with short reads and byte sinks with an optional ceiling. */
module Streams {
  import opened BigEndian
  import opened Outcomes

  /**
   A byte source. `Read` may deliver any positive number of the bytes asked for while some remain,
   so whatever is proved about its callers holds for every pattern of short reads.
   */
  class Reader {
    var rest: Bytes

    constructor (data: Bytes)
      ensures rest == data
    {
      rest := data;
    }

    /** Fills part of `buf`, starting at `from`. Zero means that the source is exhausted or there is no room. */
    method Read(buf: array<Byte>, from: nat) returns (n: nat)
      requires from <= buf.Length
      modifies this, buf
      ensures from + n <= buf.Length && n <= |old(rest)|
      ensures n == 0 <==> from == buf.Length || old(rest) == []
      ensures rest == old(rest)[n..]
      ensures buf[..] == old(buf[..from]) + old(rest[..n]) + old(buf[from + n..])
    {
      var most := if buf.Length - from < |rest| then buf.Length - from else |rest|;
      n := 0;
      if most > 0 {
        n :| 0 < n <= most;
      }
      forall i | from <= i < from + n {
        buf[i] := rest[i - from];
      }
      rest := rest[n..];
    }

    /** Reads exactly k bytes, or reports that the source ended first. */
    method ReadExact(k: nat) returns (r: Option<Bytes>)
      modifies this
      ensures r.Some? <==> k <= |old(rest)|
      ensures r.Some? ==> r.value == old(rest)[..k] && rest == old(rest)[k..]
    {
      var buf := new Byte[k](_ => 0);
      var n := 0;
      while n < k
        invariant n <= k && n <= |old(rest)|
        invariant buf[..n] == old(rest)[..n]
        invariant rest == old(rest)[n..]
        decreases k - n
      {
        ghost var had := buf[..n];
        var got := Read(buf, n);
        if got == 0 {
          return None;
        }
        assert buf[..n + got] == had + old(rest)[n..][..got];
        n := n + got;
      }
      assert buf[..] == buf[..k];
      r := Some(buf[..]);
    }

    /** Probes for the end of the source with a one-byte read. */
    method Probe() returns (b: Option<Byte>)
      modifies this
      ensures b == if old(rest) == [] then None else Some(old(rest)[0])
      ensures rest == if old(rest) == [] then [] else old(rest)[1..]
    {
      var buf := new Byte[1](_ => 0);
      var n := Read(buf, 0);
      b := if n == 0 then None else Some(buf[0]);
    }
  }

  /** Whether a sink with this ceiling may hold n bytes. */
  predicate Fits(limit: Option<nat>, n: nat) {
    limit.Some? ==> n <= limit.value
  }

  /** A byte sink. With a ceiling it is the vault's bounded buffer, without one a file or a vector. */
  class Sink {
    var written: Bytes
    const limit: Option<nat>

    ghost predicate Valid()
      reads this
    {
      Fits(limit, |written|)
    }

    constructor (limit: Option<nat>)
      ensures Valid() && written == [] && this.limit == limit
    {
      this.limit := limit;
      written := [];
    }

    /** Appends all of the data, or none of it when that would pass the ceiling. */
    method WriteAll(data: Bytes) returns (ok: bool)
      requires Valid()
      modifies this
      ensures Valid()
      ensures ok <==> Fits(limit, |old(written)| + |data|)
      ensures written == old(written) + if ok then data else []
    {
      ok := Fits(limit, |written| + |data|);
      if ok {
        written := written + data;
      }
    }
  }
}
