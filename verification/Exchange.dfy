/** Two connections: one writes payloads, the other one reads them. */
module Exchange {
  import opened Basics
  import opened Framing
  import opened Nets
  import opened ReadAhead

  lemma {:induction false} ConversationSnoc(payloads: seq<seq<Byte>>, nrs: seq<nat>, payload: seq<Byte>, nr: nat)
    requires |payloads| == |nrs|
    ensures Conversation(payloads + [payload], nrs + [nr]) == Conversation(payloads, nrs) + Frames(payload, nr)
  {
    hide Frames;
    if payloads != [] {
      ConversationSnoc(payloads[1..], nrs[1..], payload, nr);
      assert (payloads + [payload])[1..] == payloads[1..] + [payload] && (nrs + [nr])[1..] == nrs[1..] + [nr];
    }
  }

  /** Writes payloads one after another, and sends what is buffered. */
  method Send(a: Net, payloads: seq<seq<Byte>>) returns (failed: bool, ghost nrs: seq<nat>)
    requires a.Valid() && a.pktNr < 0x1_0000_0000 && a.writePos == 0 && !a.pipelined
    modifies a`error, a`writePos, a`pktNr, a.buff, a.pvio.wire
    ensures a.Valid() && (failed ==> old(a.error) == SOCKET_DEAD || !a.pvio.wire.reliable)
    ensures !failed ==> |nrs| == |payloads| && a.pvio.wire.sent == old(a.pvio.wire.sent) + Conversation(payloads, nrs)
  {
    hide Conversation, Frames, FrameCount, Began;
    ghost var start := a.pvio.wire.sent;
    failed, nrs := false, [];
    NoPayloads();
    for i := 0 to |payloads|
      invariant a.Valid() && a.pktNr < 0x1_0000_0000 && |nrs| == i && !failed && !a.pipelined
      invariant a.Stream() == start + Conversation(payloads[..i], nrs) && a.error == old(a.error)
    {
      ConversationSnoc(payloads[..i], nrs, payloads[i], a.pktNr);
      assert payloads[..i] + [payloads[i]] == payloads[..i + 1];
      nrs := nrs + [a.pktNr];
      failed := a.Write(payloads[i]);
      if failed {
        return;
      }
    }
    assert payloads[..|payloads|] == payloads;
    failed := a.Flush();
    assert !failed ==> a.Stream() == a.pvio.wire.sent;
  }

  lemma NoPayloads()
    ensures Conversation([], []) == []
  {
  }

  /** The reader takes payloads below its limit if it has memory for each frame, and one length means
      an error. */
  ghost predicate TooLong(payload: seq<Byte>, b: Net, memory: nat) {
    |payload| >= b.maxPacketSize || memory < FrameCount(payload) || |payload| == PACKET_ERROR
  }

  /** Reads payloads until as many came as were sent. `memory` is how often each of them may find a
      larger buffer. */
  method Receive(b: Net, ghost payloads: seq<seq<Byte>>, ghost nrs: seq<nat>, count: nat, memory: nat)
    returns (failed: bool, got: seq<seq<Byte>>)
    requires b.Valid() && b.whereB == 0 && count == |payloads| == |nrs|
    requires b.pvio.Pending() == Conversation(payloads, nrs)
    modifies b.Repr()
    ensures b.Valid() && (!failed ==> got == payloads && b.pvio.Pending() == [])
    ensures failed ==> !b.pvio.wire.reliable || exists i :: 0 <= i < count && TooLong(payloads[i], b, memory)
  {
    hide Unframe, Frames, FrameCount, Conversation, Pvio.Pending;
    failed, got := false, [];
    assert payloads[0..] == payloads && nrs[0..] == nrs;
    for i := 0 to count
      invariant b.Valid() && b.whereB == 0 && fresh(b.Repr() - old(b.Repr()))
      invariant b.pvio.Pending() == Conversation(payloads[i..], nrs[i..]) && got == payloads[..i] && !failed
    {
      FirstPayload(payloads, nrs, i);
      var len := b.Read(memory);
      if len == PACKET_ERROR {
        failed := true;
        return;
      }
      got := got + [b.buff[b.readPos..b.readPos + len]];
    }
    assert payloads[count..] == [] && nrs[count..] == [] && payloads[..count] == payloads;
    NoPayloads();
  }

  lemma FirstPayload(payloads: seq<seq<Byte>>, nrs: seq<nat>, i: nat)
    requires i < |payloads| == |nrs|
    ensures var r := Unframe(Conversation(payloads[i..], nrs[i..]));
      r.Received? && r.payload == payloads[i] && r.rest == Conversation(payloads[i + 1..], nrs[i + 1..])
  {
    RoundTrip(payloads[i], nrs[i], Conversation(payloads[i + 1..], nrs[i + 1..]));
    assert payloads[i..][1..] == payloads[i + 1..] && nrs[i..][1..] == nrs[i + 1..];
  }

  /** What one connection writes another one reads, payload by payload, however the transports cut
      the bytes. It fails only on a connection that was dead before, when a transport is not reliable, or
      when a payload is too long for the reader or its memory. */
  method Converse(a: Net, b: Net, payloads: seq<seq<Byte>>, memory: nat) returns (failed: bool, got: seq<seq<Byte>>)
    requires a.Valid() && a.pktNr < 0x1_0000_0000 && a.writePos == 0 && !a.pipelined
    requires b.Valid() && b.whereB == 0 && b.pvio.Pending() == [] && a.Repr() !! b.Repr()
    modifies a.Repr(), b.Repr()
    ensures !failed ==> got == payloads && b.pvio.wire.incoming == []
    ensures failed ==> || old(a.error) == SOCKET_DEAD || !a.pvio.wire.reliable || !b.pvio.wire.reliable
                       || exists i :: 0 <= i < |payloads| && TooLong(payloads[i], b, memory)
  {
    hide Conversation;
    var from := |a.pvio.wire.sent|;
    ghost var nrs;
    got := [];
    failed, nrs := Send(a, payloads);
    if !failed {
      Carry(a.pvio.wire, from, b.pvio.wire);
      failed, got := Receive(b, payloads, nrs, |payloads|, memory);
    }
  }
}
