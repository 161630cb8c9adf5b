/** ma_net.c without compression: packets are framed into a write buffer and read back through
    the read-ahead cache. */
module Nets {
  import opened Basics
  import opened Framing
  import opened ReadAhead

  const NET_BUFFER_LENGTH: nat := 8192
  const IO_SIZE: nat := 4096
  const COMP_HEADER_SIZE: nat := 3
  const PACKET_ERROR: nat := 0xFFFF_FFFF
  const SOCKET_DEAD: nat := 2

  /** Unsigned 32-bit increment. */
  function Next(nr: nat): nat {
    (nr + 1) % 0x1_0000_0000
  }

  lemma FullFrame(payload: seq<Byte>, first: seq<Byte>, rest: seq<Byte>, n: nat, nr: nat)
    requires payload == first + rest && n <= |rest| && |first| + n == MAX_PACKET_LENGTH
    ensures Frames(payload, nr)
         == Header(|first| + |rest[..n]|, nr) + (first + rest[..n]) + Frames(rest[n..], Next(nr))
    ensures FrameCount(payload) == FrameCount(rest[n..]) + 1
  {
    assert payload[..MAX_PACKET_LENGTH] == first + rest[..n] && payload[MAX_PACKET_LENGTH..] == rest[n..];
    FramesMod(rest[n..], nr + 1, Next(nr));
    CountStep(payload);
  }

  lemma LastFrame(payload: seq<Byte>, first: seq<Byte>, rest: seq<Byte>, nr: nat)
    requires payload == first + rest && |payload| < MAX_PACKET_LENGTH
    ensures Frames(payload, nr) == Header(|first| + |rest|, nr) + (first + rest) + []
    ensures FrameCount(payload) == 1
  {
    CountStep(payload);
  }

  /** `sent` is what `whole` starts with, however far a failed write got. */
  ghost predicate Began(sent: seq<Byte>, whole: seq<Byte>) {
    |sent| <= |whole| && sent == whole[..|sent|]
  }

  lemma BeganLonger(sent: seq<Byte>, part: seq<Byte>, rest: seq<Byte>)
    requires Began(sent, part)
    ensures Began(sent, part + rest)
  {
  }

  /** One frame was read to position `w` of the buffer. */
  ghost predicate FrameRead(from: seq<Byte>, from': seq<Byte>, to: seq<Byte>, to': seq<Byte>, w: nat, len: nat,
                            nr: nat) {
    && 4 <= |from| && len == ReadInt3(from) && 4 + len <= |from| && from' == from[4 + len..]
    && w <= |to| && w + len <= |to'| && to'[..w + len] == to[..w] + from[4..4 + len]
    && var last: int := from[3]; nr == last + 1
  }

  /** Nothing but a broken or ended transport or too long a packet makes reading fail. */
  ghost predicate FrameFails(from: seq<Byte>, w: nat, max: nat) {
    |from| < 4 || (var n := ReadInt3(from); |from| < 4 + n || (n > 0 && w + n >= max))
  }

  /** What came of the frame that `from` starts with. */
  ghost predicate Outcome(from: seq<Byte>, from': seq<Byte>, to: seq<Byte>, to': seq<Byte>, w: nat, len: nat, nr: nat,
                          broken: bool, max: nat)
  {
    if len == PACKET_ERROR then broken || FrameFails(from, w, max) else FrameRead(from, from', to, to', w, len, nr)
  }

  /** `whole` was read up to `from`, to the places of `was` from `keep` to `w`, and one frame more. */
  ghost predicate Joining(whole: seq<Byte>, keep: seq<Byte>, from: seq<Byte>, from': seq<Byte>, was: seq<Byte>,
                          to: seq<Byte>, w: nat, len: nat, nr: nat, broken: bool, max: nat)
  {
    && |keep| <= w <= |was| && was[..|keep|] == keep && Unframe(whole) == Prepend(was[|keep|..w], Unframe(from))
    && Outcome(from, from', was, to, w, len, nr, broken, max)
  }

  lemma JoinStart(whole: seq<Byte>, from': seq<Byte>, was: seq<Byte>, to: seq<Byte>, w: nat, len: nat, nr: nat,
                  broken: bool, max: nat)
    requires w <= |was| && Outcome(whole, from', was, to, w, len, nr, broken, max)
    ensures Joining(whole, was[..w], whole, from', was, to, w, len, nr, broken, max)
    ensures len != PACKET_ERROR ==> len <= MAX_PACKET_LENGTH && w <= |to|
  {
    hide Unframe, FrameFails;
    PrependNothing(Unframe(whole));
    assert was[w..w] == [];
  }

  /** A frame that was read does not depend on what the transport does later. */
  lemma JoinAgain(whole: seq<Byte>, keep: seq<Byte>, from: seq<Byte>, from': seq<Byte>, was: seq<Byte>, to: seq<Byte>,
                  w: nat, nr: nat, broken: bool, max: nat, limit: nat)
    requires Joining(whole, keep, from, from', was, to, w, MAX_PACKET_LENGTH, nr, broken, max)
    ensures Joining(whole, keep, from, from', was, to, w, MAX_PACKET_LENGTH, nr, true, limit)
    ensures Joining(whole, keep, from, from', was, to, w, MAX_PACKET_LENGTH, nr, false, limit)
    ensures FrameRead(from, from', was, to, w, MAX_PACKET_LENGTH, nr)
  {
  }

  /** After a full frame the next one is joined to it. */
  lemma JoinNext(whole: seq<Byte>, keep: seq<Byte>, from: seq<Byte>, from1: seq<Byte>, was: seq<Byte>, to: seq<Byte>,
                 w: nat, nr: nat, from2: seq<Byte>, to2: seq<Byte>, len: nat, nr2: nat, broken: bool, max: nat)
    requires Joining(whole, keep, from, from1, was, to, w, MAX_PACKET_LENGTH, nr, broken, max)
    requires Outcome(from1, from2, to, to2, w + MAX_PACKET_LENGTH, len, nr2, broken, max)
    ensures Joining(whole, keep, from1, from2, to, to2, w + MAX_PACKET_LENGTH, len, nr2, broken, max)
    ensures len != PACKET_ERROR ==> len <= MAX_PACKET_LENGTH && |from2| < |from1|
  {
    hide FrameFails;
    var M := MAX_PACKET_LENGTH;
    var joined, chunk := was[|keep|..w], from[4..4 + M];
    assert Unframe(from) == Prepend(chunk, Unframe(from1));
    assert to[|keep|..w + M] == joined + chunk by {
      assert to[|keep|..w + M] == to[..w + M][|keep|..];
    }
    assert to[..|keep|] == to[..w + M][..|keep|] == was[..w][..|keep|];
    hide Unframe;
    if Unframe(from1).Received? {
      assert joined + (chunk + Unframe(from1).payload) == (joined + chunk) + Unframe(from1).payload;
    }
  }

  /** A frame that is not full ends the payload; a failure means that there is none, or none that fits. */
  lemma JoinEnd(whole: seq<Byte>, keep: seq<Byte>, from: seq<Byte>, from': seq<Byte>, was: seq<Byte>, to: seq<Byte>,
                w: nat, len: nat, nr: nat, broken: bool, room: nat, max: nat, memory: nat)
    requires Joining(whole, keep, from, from', was, to, w, len, nr, broken, Limit(room, max, memory))
    requires len != MAX_PACKET_LENGTH && (len != PACKET_ERROR ==> Admits(w, len, room, max, memory))
    ensures len != PACKET_ERROR ==> |keep| <= w + len <= |to| && to[..|keep|] == keep
    ensures len != PACKET_ERROR ==> Unframe(whole) == Received(to[|keep|..w + len], nr, from')
    ensures len != PACKET_ERROR ==> Admitted(from, w, room, max, memory) == Some(Grown(w, len, room))
    ensures len == PACKET_ERROR ==> broken || Unframe(whole).Short? || Admitted(from, w, room, max, memory).None?
  {
    if len != PACKET_ERROR {
      AdmittedEnd(from, from', was, to, w, len, nr, room, max, memory);
      assert to[|keep|..w + len] == to[..w + len][|keep|..] == was[|keep|..w] + from[4..4 + len];
      assert to[..|keep|] == to[..w + len][..|keep|] == was[..w][..|keep|];
    } else if !broken {
      NotAdmitted(from, w, room, max, memory);
    }
  }

  lemma HeaderRead(from: seq<Byte>, from': seq<Byte>, to: seq<Byte>, to': seq<Byte>, w: nat)
    requires Moved(from, from', to, to', w, 4)
    ensures |from| >= 4 && from' == from[4..]
    ensures |to| == |to'| && to'[..w] == to[..w] && to'[w + 3] == from[3] && ReadInt3(to'[w..w + 3]) == ReadInt3(from)
  {
    assert to'[w..w + 4] == from[..4];
    assert to'[w] == from[0] && to'[w + 1] == from[1] && to'[w + 2] == from[2];
  }

  /** The first `n` bytes went to position `w` of the buffer, and those before it stayed. */
  ghost predicate Taken(from: seq<Byte>, from': seq<Byte>, to: seq<Byte>, to': seq<Byte>, w: nat, n: nat) {
    && n <= |from| && from' == from[n..]
    && w <= |to| && w + n <= |to'| && to'[..w + n] == to[..w] + from[..n]
  }

  lemma MovedTakes(from: seq<Byte>, from': seq<Byte>, to: seq<Byte>, was: seq<Byte>, to': seq<Byte>, w: nat, n: nat)
    requires Moved(from, from', was, to', w, n) && n > 0 && w <= |to| && w <= |was| && was[..w] == to[..w]
    ensures Taken(from, from', to, to', w, n)
  {
    assert to'[..w + n] == was[..w] + from[..n];
  }

  lemma NothingTaken(from: seq<Byte>, to: seq<Byte>, to': seq<Byte>, w: nat)
    requires w <= |to| && w <= |to'| && to'[..w] == to[..w]
    ensures Taken(from, from, to', to', w, 0)
  {
  }

  lemma BodyRead(from: seq<Byte>, from': seq<Byte>, to: seq<Byte>, was: seq<Byte>, to': seq<Byte>, w: nat,
                 len: nat, nr: nat)
    requires 4 <= |from| && len == ReadInt3(from) && w <= |to| && w <= |was| && was[..w] == to[..w]
    requires Taken(from[4..], from', was, to', w, len) && var last: int := from[3]; nr == last + 1
    ensures FrameRead(from, from', to, to', w, len, nr)
  {
    assert from[4..][len..] == from[4 + len..] && from[4..][..len] == from[4..4 + len];
  }

  lemma Fails(from: seq<Byte>, w: nat, max: nat)
    requires |from| < 4 || (var n := ReadInt3(from); |from[4..]| < n || (n > 0 && w + n >= max))
    ensures FrameFails(from, w, max)
  {
  }

  // ---- What the packet limit admits ----

  function Larger(a: nat, b: nat): nat {
    if a < b then b else a
  }

  /** Whole pages for `length` bytes. */
  function Pages(length: nat): nat {
    (length + IO_SIZE - 1) / IO_SIZE * IO_SIZE
  }

  /** How much of the buffer can be used: growing it takes memory, and the limit is only looked at
      then. */
  function Limit(room: nat, max: nat, memory: nat): nat {
    if memory == 0 then room else Larger(room, max)
  }

  /** A frame is admitted when it fits the buffer as it is, or when there is memory and it stays below
      the limit. */
  predicate Admits(w: nat, len: nat, room: nat, max: nat, memory: nat) {
    len == 0 || w + len < Limit(room, max, memory)
  }

  /** The memory that is left after such a frame, counted in buffers. */
  function Remaining(w: nat, len: nat, room: nat, max: nat, memory: nat): nat
    requires Admits(w, len, room, max, memory)
  {
    if len > 0 && w + len >= room then memory - 1 else memory
  }

  /** The room of the buffer after such a frame. */
  function Grown(w: nat, len: nat, room: nat): nat {
    if len > 0 && w + len >= room then Pages(w + len) else room
  }

  /** The room of the buffer after reading the payload at the front of a stream, if all its frames are
      admitted: what was grown for one frame counts for the next. */
  ghost function Admitted(from: seq<Byte>, w: nat, room: nat, max: nat, memory: nat): Option<nat>
    decreases |from|
  {
    if |from| < 4 then
      Some(room)
    else
      var n := ReadInt3(from);
      if !Admits(w, n, room, max, memory) then
        None
      else if |from| < 4 + n || n != MAX_PACKET_LENGTH then
        Some(Grown(w, n, room))
      else
        Admitted(from[4 + n..], w + n, Grown(w, n, room), max, Remaining(w, n, room, max, memory))
  }

  lemma AdmittedNext(from: seq<Byte>, from': seq<Byte>, to: seq<Byte>, to': seq<Byte>, w: nat, nr: nat,
                     room: nat, max: nat, memory: nat)
    requires FrameRead(from, from', to, to', w, MAX_PACKET_LENGTH, nr)
    requires Admits(w, MAX_PACKET_LENGTH, room, max, memory)
    ensures Admitted(from, w, room, max, memory)
         == Admitted(from', w + MAX_PACKET_LENGTH, Grown(w, MAX_PACKET_LENGTH, room), max,
                     Remaining(w, MAX_PACKET_LENGTH, room, max, memory))
  {
  }

  lemma AdmittedEnd(from: seq<Byte>, from': seq<Byte>, to: seq<Byte>, to': seq<Byte>, w: nat, len: nat, nr: nat,
                    room: nat, max: nat, memory: nat)
    requires FrameRead(from, from', to, to', w, len, nr) && len != MAX_PACKET_LENGTH
    requires Admits(w, len, room, max, memory)
    ensures Admitted(from, w, room, max, memory) == Some(Grown(w, len, room))
  {
  }

  lemma NotAdmitted(from: seq<Byte>, w: nat, room: nat, max: nat, memory: nat)
    requires FrameFails(from, w, Limit(room, max, memory))
    ensures Unframe(from).Short? || Admitted(from, w, room, max, memory).None?
  {
  }

  /** With memory for every frame, only payloads from the limit on are not admitted. */
  lemma {:induction false} OnlyTooLong(from: seq<Byte>, w: nat, room: nat, max: nat, memory: nat)
    requires Unframe(from).Received? && Admitted(from, w, room, max, memory).None?
    ensures w + |Unframe(from).payload| >= max || memory < FrameCount(Unframe(from).payload)
    decreases |from|
  {
    var n := ReadInt3(from);
    CountStep(Unframe(from).payload);
    if Admits(w, n, room, max, memory) {
      assert n == MAX_PACKET_LENGTH;
      var from' := from[4 + n..];
      var rest := Unframe(from').payload;
      assert Unframe(from).payload == from[4..4 + n] + rest && Unframe(from).payload[n..] == rest;
      hide Unframe, Admitted;
      OnlyTooLong(from', w + n, Grown(w, n, room), max, Remaining(w, n, room, max, memory));
    } else if w + n < max {
      hide Unframe, Admitted;
      assert memory == 0;
      AtLeastOne(Unframe(from).payload);
    }
  }

  lemma AtLeastOne(payload: seq<Byte>)
    ensures FrameCount(payload) > 0
  {
  }

  /** A payload in one frame. */
  lemma {:induction false} OneFrameAdmitted(payload: seq<Byte>, nr: nat, w: nat, room: nat, max: nat, memory: nat)
    requires 0 < |payload| < MAX_PACKET_LENGTH
    ensures Admitted(Frames(payload, nr), w, room, max, memory)
         == if w + |payload| < Limit(room, max, memory) then Some(Grown(w, |payload|, room)) else None
  {
    var n := |payload|;
    Int3RoundTrip(n, [nr % 256] + payload);
    assert Frames(payload, nr) == Int3(n) + ([nr % 256] + payload);
  }

  /** A limit of 10000 bytes refuses a payload of 11000 at first, but admits it after one of 9999, which
      made the buffer grow to 12288. */
  lemma LimitOverrun(p: seq<Byte>, q: seq<Byte>, nr: nat)
    requires |p| == 9999 && |q| == 11000
    ensures Admitted(Frames(q, nr), 0, NET_BUFFER_LENGTH, 10000, 1) == None
    ensures Admitted(Frames(p, nr), 0, NET_BUFFER_LENGTH, 10000, 1) == Some(12288)
    ensures Admitted(Frames(q, nr), 0, 12288, 10000, 0) == Some(12288)
  {
    hide Frames;
    OneFrameAdmitted(q, nr, 0, NET_BUFFER_LENGTH, 10000, 1);
    OneFrameAdmitted(p, nr, 0, NET_BUFFER_LENGTH, 10000, 1);
    OneFrameAdmitted(q, nr, 0, 12288, 10000, 0);
  }

  lemma PrependNothing(r: Received)
    ensures Prepend([], r) == r
  {
    if r.Received? { assert [] + r.payload == r.payload; }
  }

  class Net {
    const pvio: Pvio
    const maxPacketSize: nat
    var buff: array<Byte>
    var writePos: nat
    var maxPacket: nat
    var whereB: nat
    var readPos: nat
    var pktNr: nat
    var error: nat
    var pipelined: bool

    /** The first buffer has no room for a second header, but is too small to need it. */
    ghost predicate Valid()
      reads this, pvio
    {
      && pvio.Valid() && buff != pvio.cache && writePos <= maxPacket && 0 < maxPacket
      && (buff.Length == maxPacket + NET_HEADER_SIZE + COMP_HEADER_SIZE
          || buff.Length == maxPacket == NET_BUFFER_LENGTH)
    }

    ghost function Repr(): set<object>
      reads this
    {
      {this, buff} + pvio.Repr()
    }

    /** All bytes that were requested to be written: sent ones, then buffered ones. */
    ghost function Stream(): seq<Byte>
      requires Valid()
      reads this, pvio, Repr()
    {
      pvio.wire.sent + buff[..writePos]
    }

    constructor (pvio: Pvio, maxAllowedPacket: nat)
      requires pvio.Valid()
      ensures Valid() && this.pvio == pvio && fresh(buff) && writePos == 0 && pktNr == 0 && error == 0 && whereB == 0
      ensures maxPacketSize == if NET_BUFFER_LENGTH < maxAllowedPacket then maxAllowedPacket else NET_BUFFER_LENGTH
      ensures maxPacket == NET_BUFFER_LENGTH <= maxPacketSize && !pipelined
    {
      this.pvio := pvio;
      maxPacketSize := if NET_BUFFER_LENGTH < maxAllowedPacket then maxAllowedPacket else NET_BUFFER_LENGTH;
      buff := new Byte[NET_BUFFER_LENGTH](_ => 0);
      maxPacket := NET_BUFFER_LENGTH;
      writePos, whereB, readPos, pktNr, error, pipelined := 0, 0, 0, 0, 0, false;
    }

    /** Hands bytes to the transport until it has taken them all or failed. */
    method RealWrite(packet: seq<Byte>) returns (failed: bool)
      modifies `error, pvio.wire
      ensures pvio.wire.incoming == old(pvio.wire.incoming)
      ensures !failed ==> pvio.wire.sent == old(pvio.wire.sent) + packet && error == old(error)
      ensures failed ==> error == SOCKET_DEAD && (old(error) == SOCKET_DEAD || !pvio.wire.reliable)
      ensures failed ==> Began(pvio.wire.sent, old(pvio.wire.sent) + packet)
      ensures old(error) == SOCKET_DEAD ==> failed && pvio.wire.sent == old(pvio.wire.sent)
    {
      ghost var start := pvio.wire.sent;
      if error == SOCKET_DEAD {
        return true;
      }
      var pos := 0;
      while pos != |packet|
        invariant pos <= |packet| && pvio.wire.sent == start + packet[..pos] && error == old(error)
        invariant pvio.wire.incoming == old(pvio.wire.incoming)
        decreases |packet| - pos
      {
        var length := pvio.wire.Write(packet[pos..]);
        if length <= 0 {
          error := SOCKET_DEAD;
          return true;
        }
        assert packet[..pos] + packet[pos..][..length] == packet[..pos + length];
        pos := pos + length;
      }
      failed := false;
    }

    /** Buffers the bytes, or sends the buffer when they do not fit in it. */
    method WriteBuff(packet: seq<Byte>) returns (failed: bool)
      requires Valid()
      modifies `error, `writePos, buff, pvio.wire
      ensures Valid() && pvio.wire.incoming == old(pvio.wire.incoming)
      ensures !failed ==> Stream() == old(Stream()) + packet && error == old(error)
      ensures failed ==> error == SOCKET_DEAD && Began(pvio.wire.sent, old(Stream()) + packet)
      ensures failed ==> old(error) == SOCKET_DEAD || !pvio.wire.reliable
    {
      if |packet| == 0 {
        return false;
      }
      hide Began;
      ghost var sent, held := pvio.wire.sent, buff[..writePos];
      var rest := packet;
      var left := maxPacket - writePos;
      if |packet| > left {
        if writePos != 0 {
          Store(packet[..left]);
          assert buff[..maxPacket] == held + packet[..left];
          failed := RealWrite(buff[..maxPacket]);
          Regroup(sent, held, packet, left);
          if failed {
            BeganLonger(pvio.wire.sent, sent + (held + packet[..left]), packet[left..]);
            return;
          }
          rest := packet[left..];
          writePos := 0;
        }
        if |rest| > maxPacket {
          failed := RealWrite(rest);
          return;
        }
      }
      ghost var kept := buff[..writePos];
      Store(rest);
      writePos := writePos + |rest|;
      assert buff[..writePos] == kept + rest;
      failed := false;
    }

    /** The copy to the write position. */
    method Store(bytes: seq<Byte>)
      requires writePos + |bytes| <= buff.Length
      modifies buff
      ensures buff[..writePos + |bytes|] == old(buff[..writePos]) + bytes
    {
      forall i | 0 <= i < |bytes| {
        buff[writePos + i] := bytes[i];
      }
    }

    /** Sends what is buffered, unless commands are being pipelined. */
    method Flush() returns (failed: bool)
      requires Valid()
      modifies `error, `writePos, pvio.wire
      ensures Valid() && pvio.wire.incoming == old(pvio.wire.incoming)
      ensures !failed ==> Stream() == old(Stream()) && (pipelined || writePos == 0)
      ensures failed ==> error == SOCKET_DEAD && Began(pvio.wire.sent, old(Stream())) && !pipelined
      ensures failed ==> old(error) == SOCKET_DEAD || !pvio.wire.reliable
      ensures !failed ==> error == old(error)
    {
      failed := false;
      if pipelined {
        return;
      }
      if writePos != 0 {
        failed := RealWrite(buff[..writePos]);
        writePos := 0;
      }
    }

    /** Frames one payload. */
    method Write(payload: seq<Byte>) returns (failed: bool)
      requires Valid() && pktNr < 0x1_0000_0000
      modifies `error, `writePos, `pktNr, buff, pvio.wire
      ensures Valid() && pvio.wire.incoming == old(pvio.wire.incoming) && pktNr < 0x1_0000_0000
      ensures !failed ==> Stream() == old(Stream()) + Frames(payload, old(pktNr)) && error == old(error)
      ensures !failed ==> pktNr % 256 == (old(pktNr) + FrameCount(payload)) % 256
      ensures failed ==> error == SOCKET_DEAD && Began(pvio.wire.sent, old(Stream()) + Frames(payload, old(pktNr)))
      ensures failed ==> old(error) == SOCKET_DEAD || !pvio.wire.reliable
    {
      hide Began, Frames, Header, FrameCount;
      ghost var whole := Stream() + Frames(payload, pktNr);
      var rest := payload;
      while |rest| >= MAX_PACKET_LENGTH
        invariant Valid() && pvio.wire.incoming == old(pvio.wire.incoming) && pktNr < 0x1_0000_0000
        invariant Stream() + Frames(rest, pktNr) == whole && error == old(error)
        invariant (pktNr + FrameCount(rest)) % 256 == (old(pktNr) + FrameCount(payload)) % 256
        decreases |rest|
      {
        FullFrame(rest, [], rest, MAX_PACKET_LENGTH, pktNr);
        failed := WriteFrame([], rest[..MAX_PACKET_LENGTH], Frames(rest[MAX_PACKET_LENGTH..], Next(pktNr)));
        if failed {
          return;
        }
        rest := rest[MAX_PACKET_LENGTH..];
      }
      LastFrame(rest, [], rest, pktNr);
      failed := WriteFrame([], rest, []);
      assert Stream() + [] == Stream();
    }

    /** A header with the next number, and the bytes of one frame. `ghost after` are the frames
        that the caller has still to write. */
    method WriteFrame(command: seq<Byte>, bytes: seq<Byte>, ghost after: seq<Byte>) returns (failed: bool)
      requires Valid() && pktNr < 0x1_0000_0000 && |command| + |bytes| <= MAX_PACKET_LENGTH
      modifies `error, `writePos, `pktNr, buff, pvio.wire
      ensures Valid() && pvio.wire.incoming == old(pvio.wire.incoming) && pktNr == Next(old(pktNr))
      ensures var frame := Header(|command| + |bytes|, old(pktNr)) + (command + bytes);
        if failed then error == SOCKET_DEAD && Began(pvio.wire.sent, old(Stream()) + (frame + after))
        else error == old(error) && Stream() + after == old(Stream()) + (frame + after)
      ensures failed ==> old(error) == SOCKET_DEAD || !pvio.wire.reliable
    {
      hide Began;
      ghost var before := Stream();
      var head := Header(|command| + |bytes|, pktNr) + command;
      ghost var whole := before + (Header(|command| + |bytes|, pktNr) + (command + bytes) + after);
      pktNr := Next(pktNr);
      assert whole == before + head + (bytes + after) == before + head + bytes + after;
      failed := WriteBuff(head);
      if failed {
        BeganLonger(pvio.wire.sent, before + head, bytes + after);
        return;
      }
      failed := WriteBuff(bytes);
      if failed {
        BeganLonger(pvio.wire.sent, before + head + bytes, after);
      }
    }

    /** Frames a command byte and its arguments as one payload, and sends it unless told not to. */
    method WriteCommand(command: Byte, args: seq<Byte>, disableFlush: bool) returns (failed: bool)
      requires Valid() && pktNr < 0x1_0000_0000
      modifies `error, `writePos, `pktNr, buff, pvio.wire
      ensures Valid() && pvio.wire.incoming == old(pvio.wire.incoming) && pktNr < 0x1_0000_0000
      ensures !failed ==> Stream() == old(Stream()) + Frames([command] + args, old(pktNr))
      ensures !failed ==> pktNr % 256 == (old(pktNr) + FrameCount([command] + args)) % 256
      ensures !failed && !disableFlush && !pipelined ==> writePos == 0
      ensures failed ==> error == SOCKET_DEAD && (old(error) == SOCKET_DEAD || !pvio.wire.reliable)
      ensures !failed ==> error == old(error)
      ensures failed ==> Began(pvio.wire.sent, old(Stream()) + Frames([command] + args, old(pktNr)))
    {
      hide Began, Frames, Header, FrameCount;
      ghost var whole := Stream() + Frames([command] + args, pktNr);
      var first, rest, length := [command], args, 1 + |args|;
      while length >= MAX_PACKET_LENGTH
        invariant Valid() && pvio.wire.incoming == old(pvio.wire.incoming) && pktNr < 0x1_0000_0000
        invariant |first| <= 1 && length == |first + rest|
        invariant Stream() + Frames(first + rest, pktNr) == whole && error == old(error)
        invariant (pktNr + FrameCount(first + rest)) % 256 == (old(pktNr) + FrameCount([command] + args)) % 256
        decreases length
      {
        var len := MAX_PACKET_LENGTH - |first|;
        FullFrame(first + rest, first, rest, len, pktNr);
        failed := WriteFrame(first, rest[..len], Frames(rest[len..], Next(pktNr)));
        if failed {
          return;
        }
        assert [] + rest[len..] == rest[len..];
        first, rest, length := [], rest[len..], length - MAX_PACKET_LENGTH;
      }
      LastFrame(first + rest, first, rest, pktNr);
      failed := WriteFrame(first, rest, []);
      assert Stream() + [] == Stream();
      if !failed && !disableFlush {
        failed := Flush();
      }
    }

    /** Room for `length` bytes and two headers, if there is `memory`; what was read so far stays. */
    method Realloc(length: nat, memory: bool) returns (failed: bool)
      requires Valid() && length > 0
      modifies `error, `buff, `writePos, `maxPacket
      ensures Valid() && (failed <==> length >= maxPacketSize || !memory)
      ensures failed ==> buff == old(buff) && writePos == old(writePos) && maxPacket == old(maxPacket) && error == 1
      ensures !failed ==> fresh(buff) && maxPacket % IO_SIZE == 0 && length <= maxPacket < length + IO_SIZE
      ensures !failed ==> maxPacket == Pages(length)
      ensures !failed ==> buff.Length == maxPacket + NET_HEADER_SIZE + COMP_HEADER_SIZE && error == old(error)
      ensures !failed ==> forall i :: 0 <= i < old(buff).Length && i < buff.Length ==> buff[i] == old(buff[i])
    {
      if length >= maxPacketSize {
        error := 1;
        return true;
      }
      if !memory {
        error := 1;
        return true;
      }
      var pktLength := (length + IO_SIZE - 1) / IO_SIZE * IO_SIZE;
      var was := buff;
      buff := new Byte[pktLength + NET_HEADER_SIZE + COMP_HEADER_SIZE]
        (i requires 0 <= i reads was => if i < was.Length then was[i] else 0);
      writePos, maxPacket := 0, pktLength;
      failed := false;
    }

    /** Reads until `n` bytes have come. */
    method ReadFully(at: nat, n: nat) returns (failed: bool)
      requires Valid() && at + n <= buff.Length
      modifies `error, buff, pvio.Repr()
      ensures Valid() && pvio.wire.sent == old(pvio.wire.sent)
      ensures !failed ==> error == old(error)
      ensures !failed ==> Moved(old(pvio.Pending()), pvio.Pending(), old(buff[..]), buff[..], at, n)
      ensures failed ==> error == SOCKET_DEAD && (!pvio.wire.reliable || |old(pvio.Pending())| < n)
    {
      hide Moved;
      ghost var p0, b0 := pvio.Pending(), buff[..];
      var remain := n;
      NothingMoved(p0, p0, b0, b0, at, 0);
      while remain > 0
        invariant Valid() && 0 <= remain <= n && error == old(error)
        invariant pvio.wire.sent == old(pvio.wire.sent)
        invariant Moved(p0, pvio.Pending(), b0, buff[..], at, n - remain)
        decreases remain
      {
        ghost var p1, b1 := pvio.Pending(), buff[..];
        var done := n - remain;
        var length := pvio.CacheRead(buff, at + done, remain);
        if length <= 0 {
          error := SOCKET_DEAD;
          NothingMoved(p1, pvio.Pending(), b1, buff[..], at + done, length);
          MovedCount(p0, p1, b0, b1, at, done);
          return true;
        }
        MovedTwice(p0, p1, pvio.Pending(), b0, b1, buff[..], at, done, length);
        remain := remain - length;
      }
      failed := false;
    }

    /** Reads the 3-byte length and the sequence number, from which the next one is counted. */
    method ReadHeader() returns (failed: bool, len: nat)
      requires Valid() && whereB + NET_HEADER_SIZE <= buff.Length
      modifies `error, `pktNr, buff, pvio.Repr()
      ensures Valid() && pvio.wire.sent == old(pvio.wire.sent)
      ensures failed ==> !pvio.wire.reliable || |old(pvio.Pending())| < 4
      ensures !failed ==> var from := old(pvio.Pending());
        4 <= |from| && len == ReadInt3(from) && pvio.Pending() == from[4..] && pktNr == from[3] as int + 1
      ensures !failed ==> error == old(error) && buff[..whereB] == old(buff[..whereB])
    {
      hide Moved, ReadInt3;
      ghost var from, was := pvio.Pending(), buff[..];
      failed := ReadFully(whereB, NET_HEADER_SIZE);
      len := 0;
      if !failed {
        HeaderRead(from, pvio.Pending(), was, buff[..], whereB);
        assert buff[..][..whereB] == buff[..whereB] && was[..whereB] == old(buff[..whereB]);
        pktNr := buff[whereB + 3] as int + 1;
        len := ReadInt3(buff[whereB..whereB + 3]);
      }
    }

    /** Makes room for the bytes of a frame and reads them. `memory` is how many more buffers there is
        memory for. */
    method ReadBody(len: nat, memory: nat) returns (failed: bool, left: nat)
      requires Valid() && whereB + NET_HEADER_SIZE <= buff.Length && whereB <= maxPacket && 0 < len <= MAX_PACKET_LENGTH
      modifies `error, `buff, `writePos, `maxPacket, buff, pvio.Repr()
      ensures Valid() && pvio.wire.sent == old(pvio.wire.sent)
      ensures buff == old(buff) || fresh(buff)
      ensures failed ==> !pvio.wire.reliable || |old(pvio.Pending())| < len
                         || !Admits(whereB, len, old(maxPacket), maxPacketSize, memory)
      ensures !failed ==> Admits(whereB, len, old(maxPacket), maxPacketSize, memory)
      ensures !failed ==> left == Remaining(whereB, len, old(maxPacket), maxPacketSize, memory)
      ensures !failed ==> maxPacket == Grown(whereB, len, old(maxPacket))
      ensures !failed ==> whereB + len <= maxPacket && whereB + len < buff.Length && error == old(error)
      ensures !failed ==> Taken(old(pvio.Pending()), pvio.Pending(), old(buff[..]), buff[..], whereB, len)
      ensures old(maxPacket) <= maxPacketSize && maxPacketSize % IO_SIZE == 0
        ==> maxPacket <= maxPacketSize && (!failed ==> whereB + len < maxPacketSize)
    {
      hide Moved, Taken;
      ghost var p0, b0, w := pvio.Pending(), buff[..], whereB;
      var helping := len + whereB;
      left := memory;
      if helping >= maxPacket {
        failed := Realloc(helping, memory > 0);
        if failed {
          return;
        }
        left := memory - 1;
      }
      ghost var was := buff[..];
      assert was[..w] == b0[..w];
      failed := ReadFully(whereB, len);
      if !failed {
        MovedTakes(p0, pvio.Pending(), b0, was, buff[..], w, len);
      }
    }

    /** Reads one frame: its header, then as many bytes as the header says. */
    method RealRead(memory: nat) returns (len: nat, left: nat)
      requires Valid() && whereB + NET_HEADER_SIZE <= buff.Length && whereB <= maxPacket
      modifies `error, `buff, `writePos, `maxPacket, `pktNr, buff, pvio.Repr()
      ensures Valid() && pvio.wire.sent == old(pvio.wire.sent)
      ensures buff == old(buff) || fresh(buff)
      ensures len == PACKET_ERROR ==>
        !pvio.wire.reliable || FrameFails(old(pvio.Pending()), whereB, Limit(old(maxPacket), maxPacketSize, memory))
      ensures len != PACKET_ERROR ==> Admits(whereB, len, old(maxPacket), maxPacketSize, memory)
      ensures len != PACKET_ERROR ==> left == Remaining(whereB, len, old(maxPacket), maxPacketSize, memory)
      ensures len != PACKET_ERROR ==> maxPacket == Grown(whereB, len, old(maxPacket))
      ensures len != PACKET_ERROR ==>
        FrameRead(old(pvio.Pending()), pvio.Pending(), old(buff[..]), buff[..], whereB, len, pktNr)
      ensures len != PACKET_ERROR ==> whereB + len <= maxPacket && whereB + len < buff.Length && error == old(error)
      ensures old(maxPacket) <= maxPacketSize && maxPacketSize % IO_SIZE == 0
        ==> maxPacket <= maxPacketSize && (0 < len != PACKET_ERROR ==> whereB + len < maxPacketSize)
    {
      hide FrameRead, FrameFails, ReadInt3, Taken;
      ghost var p0, b0, w, limit := pvio.Pending(), buff[..], whereB, Limit(maxPacket, maxPacketSize, memory);
      var failed;
      left := memory;
      failed, len := ReadHeader();
      if failed {
        if |p0| < 4 { Fails(p0, w, limit); }
        len := PACKET_ERROR;
        return;
      }
      if len == 0 {
        NothingTaken(p0[4..], b0, buff[..], w);
        BodyRead(p0, p0[4..], b0, buff[..], buff[..], w, 0, pktNr);
        return;
      }
      ghost var was := buff[..];
      failed, left := ReadBody(len, memory);
      if failed {
        if pvio.wire.reliable { Fails(p0, w, limit); }
        len := PACKET_ERROR;
        return;
      }
      BodyRead(p0, pvio.Pending(), b0, was, buff[..], w, len, pktNr);
    }

    /** Reads one payload to the place where the buffer is used up to, joining full frames with
        the frames after them. `memory` is how often the buffer can be replaced by a larger one. */
    method Read(memory: nat) returns (len: nat)
      requires Valid() && whereB + NET_HEADER_SIZE <= buff.Length && whereB <= maxPacket
      modifies `error, `buff, `writePos, `maxPacket, `pktNr, `whereB, `readPos, buff, pvio.Repr()
      ensures Valid() && whereB == old(whereB) && pvio.wire.sent == old(pvio.wire.sent)
      ensures len != PACKET_ERROR ==> var r := Unframe(old(pvio.Pending()));
        && r.Received? && whereB + len < buff.Length && readPos == whereB && buff[..whereB] == old(buff[..whereB])
        && buff[whereB..whereB + len] == r.payload && buff[whereB + len] == 0
        && pvio.Pending() == r.rest && pktNr == r.next && error == old(error)
      ensures len == PACKET_ERROR ==> !pvio.wire.reliable || var r := Unframe(old(pvio.Pending()));
        || r.Short? || whereB + |r.payload| >= maxPacketSize || memory < FrameCount(r.payload)
        || |r.payload| == PACKET_ERROR
      ensures len != PACKET_ERROR ==>
        Admitted(old(pvio.Pending()), whereB, old(maxPacket), maxPacketSize, memory) == Some(maxPacket)
      ensures len == PACKET_ERROR ==> !pvio.wire.reliable || var r := Unframe(old(pvio.Pending()));
        || r.Short? || Admitted(old(pvio.Pending()), whereB, old(maxPacket), maxPacketSize, memory).None?
        || |r.payload| == PACKET_ERROR
      ensures buff == old(buff) || fresh(buff)
      ensures old(maxPacket) <= maxPacketSize && maxPacketSize % IO_SIZE == 0
        ==> maxPacket <= maxPacketSize && (0 < len != PACKET_ERROR ==> whereB + len < maxPacketSize)
    {
      hide Unframe, Joining, Pvio.Pending, Pvio.Repr, Admitted, Grown, Admits, Limit, Remaining, FrameCount;
      ghost var whole, from, was, keep := pvio.Pending(), pvio.Pending(), buff[..], buff[..whereB];
      ghost var err, capped := error, maxPacket <= maxPacketSize && maxPacketSize % IO_SIZE == 0;
      ghost var room0, room, stock := maxPacket, maxPacket, memory;
      var left;
      len, left := ReadFirst(memory);
      var length: nat, lastPos := 0, whereB;
      while len == MAX_PACKET_LENGTH
        invariant Joined(whole, keep, from, was, length, len, err, capped, room0, memory, room, stock, left)
        invariant pvio.wire.sent == old(pvio.wire.sent)
        invariant buff == old(buff) || fresh(buff)
        invariant lastPos == old(whereB)
        decreases if len == MAX_PACKET_LENGTH then 1 + |pvio.Pending()| else 0
      {
        ghost var from', was', room', stock' := pvio.Pending(), buff[..], maxPacket, left;
        length := length + len;
        len, left := ReadNext(whole, keep, from, was, length, err, capped, room0, memory, room, stock, left);
        from, was, room, stock := from', was', room', stock';
      }
      len := FinishRead(whole, keep, from, was, length, len, lastPos, err, capped, room0, memory, room, stock, left);
    }

    /** The state of the reading loop: `room0` and `memory0` were the room of the buffer and the memory at
        the start, `room` and `memory` before the last frame, and `left` is left after it. */
    ghost predicate Joined(whole: seq<Byte>, keep: seq<Byte>, from: seq<Byte>, was: seq<Byte>, length: nat, len: nat,
                           err: nat, capped: bool, room0: nat, memory0: nat, room: nat, memory: nat, left: nat)
      reads this, buff, pvio, pvio.Repr()
    {
      && Valid() && whereB == |keep| + length
      && Joining(whole, keep, from, pvio.Pending(), was, buff[..], whereB, len, pktNr, !pvio.wire.reliable,
                 Limit(room, maxPacketSize, memory))
      && Admitted(whole, |keep|, room0, maxPacketSize, memory0) == Admitted(from, whereB, room, maxPacketSize, memory)
      && (len != PACKET_ERROR ==>
          && Admits(whereB, len, room, maxPacketSize, memory) && maxPacket == Grown(whereB, len, room)
          && left == Remaining(whereB, len, room, maxPacketSize, memory))
      && (len != PACKET_ERROR ==> whereB + len <= maxPacket && whereB + len < buff.Length && error == err)
      && (capped ==> maxPacketSize % IO_SIZE == 0 && maxPacket <= maxPacketSize
                     && (length > 0 ==> whereB < maxPacketSize)
                     && (0 < len != PACKET_ERROR ==> whereB + len < maxPacketSize))
    }

    method ReadFirst(memory: nat) returns (len: nat, left: nat)
      requires Valid() && whereB + NET_HEADER_SIZE <= buff.Length && whereB <= maxPacket
      modifies `error, `buff, `writePos, `maxPacket, `pktNr, buff, pvio.Repr()
      ensures pvio.wire.sent == old(pvio.wire.sent)
      ensures buff == old(buff) || fresh(buff)
      ensures Joined(old(pvio.Pending()), old(buff[..whereB]), old(pvio.Pending()), old(buff[..]), 0, len, old(error),
                     old(maxPacket) <= maxPacketSize && maxPacketSize % IO_SIZE == 0,
                     old(maxPacket), memory, old(maxPacket), memory, left)
    {
      hide FrameRead, FrameFails, Joining, Admitted, Grown, Admits, Limit, Remaining;
      ghost var whole, was, limit := pvio.Pending(), buff[..], Limit(maxPacket, maxPacketSize, memory);
      len, left := RealRead(memory);
      JoinStart(whole, pvio.Pending(), was, buff[..], whereB, len, pktNr, !pvio.wire.reliable, limit);
      assert was[..whereB] == old(buff[..whereB]);
    }

    /** Goes past a full frame and reads the next one. */
    method ReadNext(ghost whole: seq<Byte>, ghost keep: seq<Byte>, ghost from: seq<Byte>, ghost was: seq<Byte>,
                    ghost length: nat, ghost err: nat, ghost capped: bool, ghost room0: nat, ghost memory0: nat,
                    ghost room: nat, ghost stock: nat, memory: nat)
      returns (len: nat, left: nat)
      requires length >= MAX_PACKET_LENGTH
      requires Joined(whole, keep, from, was, length - MAX_PACKET_LENGTH, MAX_PACKET_LENGTH, err, capped,
                      room0, memory0, room, stock, memory)
      modifies `error, `buff, `writePos, `maxPacket, `pktNr, `whereB, buff, pvio.Repr()
      ensures pvio.wire.sent == old(pvio.wire.sent)
      ensures buff == old(buff) || fresh(buff)
      ensures Joined(whole, keep, old(pvio.Pending()), old(buff[..]), length, len, err, capped,
                     room0, memory0, old(maxPacket), memory, left)
      ensures len == MAX_PACKET_LENGTH ==> |pvio.Pending()| < |old(pvio.Pending())|
    {
      hide FrameRead, FrameFails, Unframe, Prepend, Joining, Admitted, Grown, Admits, Limit, Remaining;
      ghost var from', was', nr, w := pvio.Pending(), buff[..], pktNr, whereB;
      ghost var before, limit := Limit(room, maxPacketSize, stock), Limit(maxPacket, maxPacketSize, memory);
      JoinAgain(whole, keep, from, from', was, was', w, nr, !pvio.wire.reliable, before, limit);
      AdmittedNext(from, from', was, was', w, nr, room, maxPacketSize, stock);
      whereB := whereB + MAX_PACKET_LENGTH;
      len, left := RealRead(memory);
      JoinNext(whole, keep, from, from', was, was', w, nr, pvio.Pending(), buff[..], len, pktNr, !pvio.wire.reliable,
               limit);
    }

    /** Goes back to the start of the payload. */
    method FinishRead(ghost whole: seq<Byte>, ghost keep: seq<Byte>, ghost from: seq<Byte>, ghost was: seq<Byte>,
                      length: nat, last: nat, lastPos: nat, ghost err: nat, ghost capped: bool,
                      ghost room0: nat, ghost memory0: nat, ghost room: nat, ghost memory: nat, ghost left: nat)
      returns (len: nat)
      requires Joined(whole, keep, from, was, length, last, err, capped, room0, memory0, room, memory, left)
      requires last != MAX_PACKET_LENGTH
      requires lastPos == |keep|
      modifies `whereB, `readPos, buff
      ensures Valid() && whereB == lastPos
      ensures len != PACKET_ERROR ==> var r := Unframe(whole);
        && r.Received? && whereB + len < buff.Length && readPos == whereB && buff[..whereB] == keep
        && buff[whereB..whereB + len] == r.payload && buff[whereB + len] == 0
        && pvio.Pending() == r.rest && pktNr == r.next && error == err
      ensures len == PACKET_ERROR ==> !pvio.wire.reliable || var r := Unframe(whole);
        || r.Short? || whereB + |r.payload| >= maxPacketSize || memory0 < FrameCount(r.payload)
        || |r.payload| == PACKET_ERROR
      ensures len != PACKET_ERROR ==> Admitted(whole, whereB, room0, maxPacketSize, memory0) == Some(maxPacket)
      ensures len == PACKET_ERROR ==> !pvio.wire.reliable || var r := Unframe(whole);
        || r.Short? || Admitted(whole, whereB, room0, maxPacketSize, memory0).None?
        || |r.payload| == PACKET_ERROR
      ensures capped ==> maxPacket <= maxPacketSize && (0 < len != PACKET_ERROR ==> whereB + len < maxPacketSize)
    {
      hide FrameRead, FrameFails, Unframe, Prepend, Joining, Admitted, Grown, Admits, FrameCount, Limit, Remaining;
      JoinEnd(whole, keep, from, pvio.Pending(), was, buff[..], whereB, last, pktNr, !pvio.wire.reliable, room,
              maxPacketSize, memory);
      if last == PACKET_ERROR && pvio.wire.reliable && Unframe(whole).Received? {
        OnlyTooLong(whole, |keep|, room0, maxPacketSize, memory0);
      }
      ghost var to, w := buff[..], whereB;
      if last != PACKET_ERROR {
        assert to[lastPos..w + last] == buff[lastPos..w + last] && to[..lastPos] == buff[..lastPos];
      }
      whereB := lastPos;
      len := last;
      if len != PACKET_ERROR {
        len := len + length;
      }
      readPos := whereB;
      if len != PACKET_ERROR {
        Safeguard(readPos, len);
      }
    }

    /** The zero behind the payload. */
    method Safeguard(at: nat, len: nat)
      requires at + len < buff.Length
      modifies buff
      ensures buff[at + len] == 0 && buff[at..at + len] == old(buff[at..at + len]) && buff[..at] == old(buff[..at])
    {
      buff[at + len] := 0;
    }
  }

  /** ma_net_init: fails when there is no `memory` for the first buffer, or no `extension`. */
  method NewNet(pvio: Pvio, maxAllowedPacket: nat, memory: bool, extension: bool) returns (failed: bool, net: Net?)
    requires pvio.Valid()
    ensures (failed <==> !memory || !extension) && (failed <==> net == null)
    ensures !failed ==> fresh(net) && net.Valid() && net.pvio == pvio && fresh(net.buff)
    ensures !failed ==> net.writePos == 0 && net.pktNr == 0 && net.error == 0 && net.whereB == 0
    ensures !failed ==> net.maxPacketSize == Larger(NET_BUFFER_LENGTH, maxAllowedPacket)
    ensures !failed ==> net.maxPacket == NET_BUFFER_LENGTH <= net.maxPacketSize && !net.pipelined
  {
    failed, net := true, null;
    if memory && extension {
      failed := false;
      net := new Net(pvio, maxAllowedPacket);
    }
  }

  lemma Regroup(sent: seq<Byte>, held: seq<Byte>, packet: seq<Byte>, n: nat)
    requires n <= |packet|
    ensures sent + (held + packet[..n]) + packet[n..] == sent + held + packet
  {
    assert packet[..n] + packet[n..] == packet;
  }
}
