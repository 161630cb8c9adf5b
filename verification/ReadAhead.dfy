/** The read-ahead cache of ma_pvio.c over a transport that may deliver and accept bytes in
    pieces of any size, and may fail at any call unless it is reliable. */
module ReadAhead {
  import opened Basics

  const PVIO_READ_AHEAD_CACHE_SIZE: nat := 16384
  const PVIO_READ_AHEAD_CACHE_MIN_SIZE: nat := 2048

  /** `r` bytes went from the front of `from` to `to`, at position `at`, and nothing else
      changed; without a positive `r`, nothing at all. */
  ghost predicate Moved(from: seq<Byte>, from': seq<Byte>, to: seq<Byte>, to': seq<Byte>, at: nat, r: int) {
    if r <= 0 then
      from' == from && to' == to
    else
      r <= |from| && at + r <= |to| && from' == from[r..] && to' == to[..at] + from[..r] + to[at + r..]
  }

  lemma MovedFront(from: seq<Byte>, more: seq<Byte>, to: seq<Byte>, to': seq<Byte>, at: nat, r: nat)
    requires r <= |from| && at + r <= |to| && to' == to[..at] + from[..r] + to[at + r..]
    ensures Moved(from + more, from[r..] + more, to, to', at, r)
  {
    assert (from + more)[..r] == from[..r] && (from + more)[r..] == from[r..] + more;
  }

  lemma MovedFirst(from: seq<Byte>, from': seq<Byte>, to: seq<Byte>, to': seq<Byte>, r: nat)
    requires Moved(from, from', to, to', 0, r)
    ensures r <= |from| && from == from[..r] + from'
    ensures r > 0 ==> r <= |to| == |to'| && to'[..r] == from[..r]
  {
  }

  lemma NothingMoved(from: seq<Byte>, from': seq<Byte>, to: seq<Byte>, to': seq<Byte>, at: nat, r: int)
    requires r <= 0
    ensures Moved(from, from', to, to', at, r) <==> from == from' && to == to'
  {
  }

  lemma MovedCount(from: seq<Byte>, from': seq<Byte>, to: seq<Byte>, to': seq<Byte>, at: nat, r: nat)
    requires Moved(from, from', to, to', at, r)
    ensures |from| == r + |from'|
  {
  }

  /** Two moves in a row are one: nothing is lost or repeated between them. */
  lemma MovedTwice(p0: seq<Byte>, p1: seq<Byte>, p2: seq<Byte>, b0: seq<Byte>, b1: seq<Byte>, b2: seq<Byte>,
                   at: nat, m: nat, n: nat)
    requires Moved(p0, p1, b0, b1, at, m) && Moved(p1, p2, b1, b2, at + m, n)
    requires at + m + n <= |b0|
    ensures Moved(p0, p2, b0, b2, at, m + n)
  {
    if m > 0 && n > 0 {
      assert p0[..m + n] == p0[..m] + p1[..n];
      assert b1[..at + m] == b0[..at] + p0[..m] && b1[at + m + n..] == b0[at + m + n..];
    }
  }

  /** The far end: bytes still to come and bytes it has taken. */
  class Transport {
    var incoming: seq<Byte>
    var sent: seq<Byte>
    const reliable: bool

    constructor (bytes: seq<Byte>, reliable: bool)
      ensures incoming == bytes && sent == [] && this.reliable == reliable
    {
      incoming, sent, this.reliable := bytes, [], reliable;
    }

    /** Up to `length` bytes, into `buffer` from `at`; nothing on failure or at the end. */
    method Read(buffer: array<Byte>, at: nat, length: nat) returns (r: int)
      requires at + length <= buffer.Length
      modifies this, buffer
      ensures sent == old(sent) && r <= length
      ensures Moved(old(incoming), incoming, old(buffer[..]), buffer[..], at, r)
      ensures r <= 0 ==> !reliable || length == 0 || incoming == []
    {
      var fails: bool := *;
      if fails && !reliable {
        return -1;
      }
      if length == 0 || incoming == [] {
        return 0;
      }
      var n: nat :| 0 < n <= length && n <= |incoming|;
      r := n;
      ghost var before := buffer[..];
      forall i | 0 <= i < n {
        buffer[at + i] := incoming[i];
      }
      assert buffer[..] == before[..at] + incoming[..n] + before[at + n..];
      incoming := incoming[n..];
    }

    /** Takes some of the bytes, at least one, or fails. */
    method Write(bytes: seq<Byte>) returns (r: int)
      requires bytes != []
      modifies this
      ensures incoming == old(incoming) && r <= |bytes|
      ensures r <= 0 ==> sent == old(sent) && !reliable
      ensures r > 0 ==> sent == old(sent) + bytes[..r]
    {
      var fails: bool := *;
      if fails && !reliable {
        return -1;
      }
      var n: nat :| 0 < n <= |bytes|;
      r := n;
      sent := sent + bytes[..n];
    }
  }

  /** The network: what one end has sent since `from` arrives at the other. */
  method Carry(a: Transport, from: nat, b: Transport)
    requires a != b && from <= |a.sent|
    modifies b
    ensures b.incoming == old(b.incoming) + a.sent[from..] && b.sent == old(b.sent)
  {
    b.incoming := b.incoming + a.sent[from..];
  }

  class Pvio {
    const wire: Transport
    const cache: array?<Byte>
    var cachePos: nat
    var cacheSize: nat

    ghost predicate Valid()
      reads this
    {
      && cachePos <= cacheSize
      && if cache == null then cacheSize == 0 else cacheSize <= cache.Length == PVIO_READ_AHEAD_CACHE_SIZE
    }

    ghost function Repr(): set<object>
    {
      {this, wire} + if cache == null then {} else {cache}
    }

    /** The bytes not delivered yet, in order. */
    ghost function Pending(): seq<Byte>
      requires Valid()
      reads this, Repr()
    {
      (if cache == null then [] else cache[cachePos..cacheSize]) + wire.incoming
    }

    constructor (wire: Transport)
      ensures Valid() && this.wire == wire && fresh(Repr() - {wire}) && Pending() == wire.incoming
    {
      this.wire, cachePos, cacheSize := wire, 0, 0;
      cache := new Byte[PVIO_READ_AHEAD_CACHE_SIZE];
    }

    /** Delivers the next pending bytes, whichever of the three ways it takes to get them. */
    method CacheRead(buffer: array<Byte>, at: nat, length: nat) returns (r: int)
      requires Valid() && buffer != cache && at + length <= buffer.Length
      modifies Repr(), buffer
      ensures Valid() && r <= length && wire.sent == old(wire.sent)
      ensures Moved(old(Pending()), Pending(), old(buffer[..]), buffer[..], at, r)
      ensures r <= 0 ==> !wire.reliable || length == 0 || Pending() == []
    {
      hide Moved;
      if cache == null {
        r := wire.Read(buffer, at, length);
        assert Pending() == wire.incoming && old(Pending()) == old(wire.incoming);
      } else if cacheSize > cachePos {
        r := FromCache(buffer, at, length);
      } else if length >= PVIO_READ_AHEAD_CACHE_MIN_SIZE {
        r := wire.Read(buffer, at, length);
        assert Pending() == wire.incoming && old(Pending()) == old(wire.incoming);
      } else {
        r := Refill(buffer, at, length);
      }
    }

    method FromCache(buffer: array<Byte>, at: nat, length: nat) returns (r: nat)
      requires Valid() && cache != null && cacheSize > cachePos
      requires buffer != cache && at + length <= buffer.Length
      modifies `cachePos, buffer
      ensures Valid() && r <= length && (r == 0 ==> length == 0)
      ensures Moved(old(Pending()), Pending(), old(buffer[..]), buffer[..], at, r)
    {
      hide Moved;
      ghost var held, before, pos := cache[cachePos..cacheSize], buffer[..], cachePos;
      var remaining := cacheSize - cachePos;
      r := if length < remaining then length else remaining;
      assert cache[pos..pos + r] == held[..r];
      Deliver(buffer, at, cachePos, r);
      cachePos := cachePos + r;
      assert cache[cachePos..cacheSize] == held[r..];
      MovedFront(held, wire.incoming, before, buffer[..], at, r);
    }

    /** Fills the empty cache and takes from its front. A read that the new bytes just satisfy
        leaves the cache empty. */
    method Refill(buffer: array<Byte>, at: nat, length: nat) returns (r: int)
      requires Valid() && cache != null && cacheSize == cachePos
      requires buffer != cache && at + length <= buffer.Length
      modifies Repr(), buffer
      ensures Valid() && r <= length && wire.sent == old(wire.sent)
      ensures Moved(old(Pending()), Pending(), old(buffer[..]), buffer[..], at, r)
      ensures r <= 0 ==> !wire.reliable || length == 0 || Pending() == []
    {
      hide Moved;
      ghost var more, before := wire.incoming, buffer[..];
      assert Pending() == more;
      r := wire.Read(cache, 0, PVIO_READ_AHEAD_CACHE_SIZE);
      if r > 0 {
        ghost var got := more[..r];
        MovedFirst(more, wire.incoming, old(cache[..]), cache[..], r);
        assert cache[..r] == got;
        if length < r {
          cacheSize := r;
          cachePos := length;
          r := length;
        }
        Deliver(buffer, at, 0, r);
        assert cache[0..r] == got[..r];
        assert Pending() == got[r..] + wire.incoming;
        MovedFront(got, wire.incoming, before, buffer[..], at, r);
      } else {
        NothingMoved(more, wire.incoming, old(cache[..]), cache[..], 0, r);
        NothingMoved(more, Pending(), before, buffer[..], at, r);
      }
    }

    /** The copy out of the cache. */
    method Deliver(buffer: array<Byte>, at: nat, from: nat, n: nat)
      requires cache != null && buffer != cache && from + n <= cache.Length && at + n <= buffer.Length
      modifies buffer
      ensures buffer[..] == old(buffer[..at]) + cache[from..from + n] + old(buffer[at + n..])
    {
      forall i | 0 <= i < n {
        buffer[at + i] := cache[from + i];
      }
    }
  }
}
