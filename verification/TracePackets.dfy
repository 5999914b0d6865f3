/** Trace packets as the host sees them (app_trace_membufs_proto.c): a four-byte
    header holding the payload size twice, then the payload. */
module TracePackets {
  import opened Bytes

  datatype RawPacket = Packet(core: nat, payload: seq<byte>)

  type Packet = p: RawPacket | p.core < 2 && |p.payload| < 0x1_0000 witness Packet(0, [])

  /** ESP_APPTRACE_USR_BLOCK_CORE(core) | size: the core number is bit 15. */
  function BlockSize(p: Packet): (n: nat)
    ensures n < 0x1_0000
  {
    if p.core == 1 && |p.payload| < 0x8000 then |p.payload| + 0x8000 else |p.payload|
  }

  function Encode(p: Packet): (bytes: seq<byte>)
    ensures |bytes| == 4 + |p.payload|
  {
    var lo, hi := BlockSize(p) % 256, BlockSize(p) / 256;
    [lo, hi, lo, hi] + p.payload
  }

  /** The header: both size fields are the same, the core number is bit 15, and the
      rest is the payload size where that leaves bit 15 free. */
  lemma HeaderFields(p: Packet)
    ensures var s := Encode(p);
            && s[0..2] == s[2..4] && s[4..] == p.payload
            && var field: nat := s[0] as int + 256 * s[1] as int;
               && (p.core == 0 ==> field == |p.payload|)
               && (p.core == 1 && |p.payload| < 0x8000 ==> field == 0x8000 + |p.payload|)
               && (p.core == 1 && |p.payload| >= 0x8000 ==> field == |p.payload|)
  {
  }

  function Frames(packets: seq<Packet>): seq<seq<byte>> {
    seq(|packets|, i requires 0 <= i < |packets| => Encode(packets[i]))
  }

  lemma FramesAppend(packets: seq<Packet>, p: Packet)
    ensures Frames(packets + [p]) == Frames(packets) + [Encode(p)]
  {
  }

  function Payloads(packets: seq<Packet>): seq<seq<byte>> {
    seq(|packets|, i requires 0 <= i < |packets| => packets[i].payload)
  }

  /** The size field of a header. ESP_APPTRACE_USR_BLOCK_LEN masks bit 15 out. */
  function Size(s: seq<byte>): nat
    requires |s| >= 4
  {
    (s[0] as int + 256 * s[1] as int) % 0x8000
  }

  /** The host's side: cuts a byte stream into the payloads of its complete
      packets. */
  function Decode(s: seq<byte>): seq<seq<byte>> {
    if |s| < 4 || |s| < 4 + Size(s) then [] else [s[4..4 + Size(s)]] + Decode(s[4 + Size(s)..])
  }

  ghost predicate IsFrame(frame: seq<byte>, payload: seq<byte>) {
    |frame| == 4 + |payload| && Size(frame) == |payload| && frame[4..] == payload
  }

  lemma DecodeHead(frame: seq<byte>, payload: seq<byte>, rest: seq<byte>)
    requires IsFrame(frame, payload)
    ensures Decode(frame + rest) == [payload] + Decode(rest)
  {
    var s := frame + rest;
    assert Size(s) == Size(frame);
    assert s[4..|frame|] == payload && s[|frame|..] == rest;
  }

  /** The first k frames, and no more, lie in s entirely. */
  ghost predicate Covers(frames: seq<seq<byte>>, s: seq<byte>, k: nat) {
    k <= |frames| && Flatten(frames[..k]) <= s && (k < |frames| ==> |s| < |Flatten(frames[..k + 1])|)
  }

  /** Whatever part of a stream of frames the host has seen, it recovers the
      payloads of the frames that lie in it entirely, in order. */
  lemma {:induction false} DecodePrefix(frames: seq<seq<byte>>, payloads: seq<seq<byte>>, s: seq<byte>) returns (k: nat)
    requires |frames| == |payloads|
    requires forall i | 0 <= i < |frames| :: IsFrame(frames[i], payloads[i])
    requires s <= Flatten(frames)
    ensures Covers(frames, s, k) && Decode(s) == payloads[..k]
    decreases |frames|
  {
    if frames == [] {
      return 0;
    }
    var head, rest := frames[0], Flatten(frames[1..]);
    FlattenFront(frames);
    if |s| < |head| {
      FlattenSome(frames, 0);
      DecodeShort(head, payloads[0], s);
      return 0;
    }
    var tail := s[|head|..];
    assert s == head + tail && tail <= rest;
    var m := DecodePrefix(frames[1..], payloads[1..], tail);
    DecodeNext(head, payloads, tail, m);
    CoverMore(frames, tail, m);
    k := m + 1;
  }

  lemma DecodeNext(head: seq<byte>, payloads: seq<seq<byte>>, tail: seq<byte>, m: nat)
    requires m < |payloads| && IsFrame(head, payloads[0])
    requires Decode(tail) == payloads[1..][..m]
    ensures Decode(head + tail) == payloads[..m + 1]
  {
    DecodeHead(head, payloads[0], tail);
    assert [payloads[0]] + payloads[1..][..m] == payloads[..m + 1];
  }

  /** Adding the first frame in front of both sides. */
  lemma CoverMore(frames: seq<seq<byte>>, tail: seq<byte>, m: nat)
    requires frames != [] && Covers(frames[1..], tail, m)
    ensures Covers(frames, frames[0] + tail, m + 1)
  {
    FlattenSome(frames, m);
    PrefixAfter(frames[0], Flatten(frames[1..][..m]), tail);
    if m + 1 < |frames| {
      FlattenSome(frames, m + 1);
    }
  }

  lemma PrefixAfter(head: seq<byte>, a: seq<byte>, b: seq<byte>)
    requires a <= b
    ensures head + a <= head + b
  {
  }

  lemma DecodeShort(frame: seq<byte>, payload: seq<byte>, s: seq<byte>)
    requires IsFrame(frame, payload)
    requires |s| < |frame| && s <= frame
    ensures Decode(s) == []
  {
    assert |s| >= 4 ==> Size(s) == Size(frame);
  }

  /** The host recovers every granted packet whose size leaves bit 15 free. */
  lemma DecodeFrames(packets: seq<Packet>)
    requires AllSmall(packets)
    ensures Decode(Flatten(Frames(packets))) == Payloads(packets)
  {
    var frames, payloads := Frames(packets), Payloads(packets);
    var k := DecodePrefix(frames, payloads, Flatten(frames));
    assert k < |frames| ==> |Flatten(frames)| < |Flatten(frames[..k + 1])|;
    if k < |frames| {
      FlattenMonotone(frames, k + 1);
    }
  }

  /** A packet whose size leaves bit 15 free. */
  predicate Small(p: Packet) {
    |p.payload| < 0x8000
  }

  ghost predicate AllSmall(packets: seq<Packet>) {
    forall i | 0 <= i < |packets| :: Small(packets[i])
  }

  /** From the bytes it has read, the host recovers the first packets. */
  lemma HostRecovers(host: seq<byte>, exposed: seq<byte>, current: seq<byte>, pending: seq<byte>, packets: seq<Packet>)
    requires host + exposed + current + pending == Flatten(Frames(packets))
    ensures AllSmall(packets) ==> Decode(host) <= Payloads(packets)
  {
    if AllSmall(packets) {
      assert host + exposed + current + pending == host + (exposed + current + pending);
      var k := DecodePrefix(Frames(packets), Payloads(packets), host);
    }
  }

  lemma {:induction false} FlattenMonotone(parts: seq<seq<byte>>, k: nat)
    requires k <= |parts|
    ensures |Flatten(parts[..k])| <= |Flatten(parts)|
  {
    if k < |parts| {
      assert parts[..|parts| - 1][..k] == parts[..k];
      FlattenMonotone(parts[..|parts| - 1], k);
    } else {
      assert parts[..k] == parts;
    }
  }
}
