/** The packet format of ma_net.c: every frame has a 3-byte little-endian length and a sequence
    number, and a full frame announces that another one follows. */
module Framing {
  import opened Arith
  import opened Basics

  const MAX_PACKET_LENGTH: nat := 0xFF_FFFF
  const NET_HEADER_SIZE: nat := 4

  function Int3(n: nat): (s: seq<Byte>)
    requires n <= MAX_PACKET_LENGTH
    ensures |s| == 3
  {
    [n % 256, n / 256 % 256, n / 0x1_0000]
  }

  function ReadInt3(s: seq<Byte>): (n: nat)
    requires |s| >= 3
    ensures n <= MAX_PACKET_LENGTH
  {
    var a: int, b: int, c: int := s[0], s[1], s[2];
    a + b * 256 + c * 0x1_0000
  }

  lemma Int3RoundTrip(n: nat, rest: seq<Byte>)
    requires n <= MAX_PACKET_LENGTH
    ensures ReadInt3(Int3(n) + rest) == n
  {
    assert n == n / 256 * 256 + n % 256;
    assert n / 256 == n / 0x1_0000 * 256 + n / 256 % 256;
  }

  /** The bytes are the digits to the base of 256, the lowest first. */
  lemma Int3Digit(n: nat, i: nat)
    requires n <= MAX_PACKET_LENGTH && i < 3
    ensures Int3(n)[i] == n / Exp(256, i) % 256
  {
    assert Exp(256, 1) == 256;
    if i == 2 {
      assert Exp(256, 2) == 0x1_0000;
    }
  }

  /** A frame of 515 bytes with number 260 starts with 3, 2, 0 and 4. */
  lemma HeaderSample()
    ensures Header(515, 260) == [3, 2, 0, 4] && ReadInt3([3, 2, 0]) == 515
  {
  }

  function Header(n: nat, nr: nat): (h: seq<Byte>)
    requires n <= MAX_PACKET_LENGTH
    ensures |h| == NET_HEADER_SIZE
  {
    Int3(n) + [nr % 256]
  }

  /** The bytes that carry `payload`, numbered from `nr`. A payload that fills its last frame is
      followed by an empty one. */
  ghost function Frames(payload: seq<Byte>, nr: nat): seq<Byte> {
    if |payload| >= MAX_PACKET_LENGTH then
      Header(MAX_PACKET_LENGTH, nr) + payload[..MAX_PACKET_LENGTH] + Frames(payload[MAX_PACKET_LENGTH..], nr + 1)
    else
      Header(|payload|, nr) + payload
  }

  ghost function FrameCount(payload: seq<Byte>): nat {
    |payload| / MAX_PACKET_LENGTH + 1
  }

  datatype Received = Short | Received(payload: seq<Byte>, next: nat, rest: seq<Byte>)

  ghost function Prepend(done: seq<Byte>, r: Received): Received {
    match r
    case Short => Short
    case Received(payload, next, rest) => Received(done + payload, next, rest)
  }

  /** What a reader makes of a byte stream: one payload, the sequence number that comes next and
      the bytes left, or `Short` when the stream ends too early. */
  ghost function Unframe(stream: seq<Byte>): Received
    decreases |stream|
  {
    if |stream| < 4 then
      Short
    else
      var n, nr: int := ReadInt3(stream), stream[3];
      if |stream| < 4 + n then
        Short
      else if n == MAX_PACKET_LENGTH then
        Prepend(stream[4..4 + n], Unframe(stream[4 + n..]))
      else
        Received(stream[4..4 + n], nr + 1, stream[4 + n..])
  }

  lemma UnframeHeader(n: nat, nr: nat, body: seq<Byte>, rest: seq<Byte>)
    requires n == |body| <= MAX_PACKET_LENGTH
    ensures Unframe(Header(n, nr) + body + rest)
         == if n == MAX_PACKET_LENGTH then Prepend(body, Unframe(rest)) else Received(body, nr % 256 + 1, rest)
  {
    var stream := Header(n, nr) + body + rest;
    Int3RoundTrip(n, stream[3..]);
    assert stream == Int3(n) + stream[3..];
    assert stream[4..4 + n] == body && stream[4 + n..] == rest;
  }

  /** Reading undoes writing, for every payload and whatever follows it, also at exact multiples
      of the largest frame; the sequence numbers continue where the writer stopped. */
  lemma {:induction false} RoundTrip(payload: seq<Byte>, nr: nat, rest: seq<Byte>)
    ensures Unframe(Frames(payload, nr) + rest)
         == Received(payload, (nr + FrameCount(payload) - 1) % 256 + 1, rest)
    decreases |payload|
  {
    hide Unframe, FrameCount;
    var M := MAX_PACKET_LENGTH;
    if |payload| >= M {
      var head, tail := payload[..M], payload[M..];
      RoundTrip(tail, nr + 1, rest);
      UnframeHeader(M, nr, head, Frames(tail, nr + 1) + rest);
      assert Frames(payload, nr) + rest == Header(M, nr) + head + (Frames(tail, nr + 1) + rest);
      assert head + tail == payload;
      CountStep(payload);
    } else {
      UnframeHeader(|payload|, nr, payload, rest);
      CountStep(payload);
    }
  }

  lemma CountStep(payload: seq<Byte>)
    ensures |payload| < MAX_PACKET_LENGTH ==> FrameCount(payload) == 1
    ensures |payload| >= MAX_PACKET_LENGTH
        ==> FrameCount(payload) == FrameCount(payload[MAX_PACKET_LENGTH..]) + 1
  {
  }

  /** No framed payload is a proper prefix of another one, so a reader never guesses. */
  lemma FramesSelfDelimiting(p: seq<Byte>, m: nat, r: seq<Byte>, q: seq<Byte>, n: nat, s: seq<Byte>)
    requires Frames(p, m) + r == Frames(q, n) + s
    ensures p == q && r == s && (m - n) % 256 == 0
  {
    hide *;
    RoundTrip(p, m, r);
    RoundTrip(q, n, s);
    SameShift(m, n, FrameCount(p) - 1);
  }

  lemma SameShift(m: int, n: int, c: int)
    requires (m + c) % 256 == (n + c) % 256
    ensures (m - n) % 256 == 0
  {
  }

  lemma {:induction false} FramesLength(payload: seq<Byte>, nr: nat)
    ensures |Frames(payload, nr)| == |payload| + 4 * FrameCount(payload)
    decreases |payload|
  {
    var M := MAX_PACKET_LENGTH;
    if |payload| >= M {
      FramesLength(payload[M..], nr + 1);
    }
    CountStep(payload);
  }

  /** Only the low byte of a sequence number is sent. */
  lemma {:induction false} FramesMod(payload: seq<Byte>, m: nat, n: nat)
    requires m % 256 == n % 256
    ensures Frames(payload, m) == Frames(payload, n)
    decreases |payload|
  {
    if |payload| >= MAX_PACKET_LENGTH {
      FramesMod(payload[MAX_PACKET_LENGTH..], m + 1, n + 1);
    }
  }

  /** The frames of several payloads sent one after another, each numbered from its own start. */
  ghost function Conversation(payloads: seq<seq<Byte>>, nrs: seq<nat>): seq<Byte>
    requires |payloads| == |nrs|
  {
    if payloads == [] then [] else Frames(payloads[0], nrs[0]) + Conversation(payloads[1..], nrs[1..])
  }

  ghost function ReadAll(stream: seq<Byte>, n: nat): seq<seq<Byte>>
    decreases n
  {
    if n == 0 then [] else
      match Unframe(stream)
      case Short => []
      case Received(payload, _, rest) => [payload] + ReadAll(rest, n - 1)
  }

  lemma {:induction false} ConversationRoundTrip(payloads: seq<seq<Byte>>, nrs: seq<nat>)
    requires |payloads| == |nrs|
    ensures ReadAll(Conversation(payloads, nrs), |payloads|) == payloads
  {
    if payloads != [] {
      RoundTrip(payloads[0], nrs[0], Conversation(payloads[1..], nrs[1..]));
      ConversationRoundTrip(payloads[1..], nrs[1..]);
    }
  }
}
