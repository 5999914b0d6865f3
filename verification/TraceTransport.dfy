/** The memory-block transport of the application-trace component
    (app_trace_membufs_proto.c): two blocks shared with the host in ping-pong,
    a ring for packets that do not fit (pending) and a ring for bytes coming
    from the host (down). */
module TraceTransport {
  import opened Bytes
  import opened RingBuffer
  import opened TracePackets

  /** What the hardware layer answers to one swap_start: a refusal, with the
      verdict of the timeout check that follows it, or an acceptance, with the
      bytes the host left for the target in the block it gives back. */
  datatype Reply = Refuse(expired: bool) | Accept(hostData: seq<byte>)

  /** Whether a swap is accepted before the timeout fires. */
  ghost predicate Accepted(replies: seq<Reply>) {
    replies != [] && (replies[0].Accept? || (!replies[0].expired && Accepted(replies[1..])))
  }

  /** What a reply brings for the target: a part of the host's data, or nothing. */
  ghost predicate Brings(reply: Reply, part: seq<byte>) {
    match reply
    case Refuse(_) => part == []
    case Accept(hostData) => part <= hostData
  }

  /** The replies brought these bytes, part by part in order. */
  ghost predicate Came(replies: seq<Reply>, bytes: seq<byte>) {
    exists parts: seq<seq<byte>> :: BringParts(replies, parts) && Flatten(parts) == bytes
  }

  ghost predicate BringParts(replies: seq<Reply>, parts: seq<seq<byte>>) {
    |parts| == |replies| && forall i | 0 <= i < |parts| :: Brings(replies[i], parts[i])
  }

  lemma CameNone()
    ensures Came([], [])
  {
    assert BringParts([], []) && Flatten<byte>([]) == [];
  }

  lemma CameNext(script: seq<Reply>, k: nat, bytes: seq<byte>, part: seq<byte>)
    requires k < |script| && Came(script[..k], bytes) && Brings(script[k], part)
    ensures Came(script[..k + 1], bytes + part)
  {
    var parts: seq<seq<byte>> :| BringParts(script[..k], parts) && Flatten(parts) == bytes;
    FlattenAppend(parts, part);
    assert BringParts(script[..k + 1], parts + [part]);
  }

  /** The bytes the host has for the target. */
  function Total(replies: seq<Reply>): nat {
    if replies == [] then 0
    else (match replies[0] case Refuse(_) => 0 case Accept(hostData) => |hostData|) + Total(replies[1..])
  }

  lemma TotalNext(script: seq<Reply>, k: nat)
    requires k < |script| && script[k].Accept?
    ensures Total(script[k..]) == |script[k].hostData| + Total(script[k + 1..])
  {
    assert script[k..][1..] == script[k + 1..];
  }

  /** The host never refuses, each part of its data fits a block, and all of it the
      down ring. */
  ghost predicate FreeHand(replies: seq<Reply>, block: nat, ring: nat) {
    Total(replies) < ring && forall i | 0 <= i < |replies| :: replies[i].Accept? && 2 + |replies[i].hostData| <= block
  }

  /** One look at the host-data flag while waiting for host bytes, with the
      verdict of the timeout check made when the flag is down. */
  datatype Poll = Poll(pending: bool, expired: bool)

  /** The path from the host: the down ring and what went through it. */
  class DownPath {
    const ring: Ring
    /** All bytes ever stored in the ring, and those taken out again. */
    ghost var stored: seq<byte>
    ghost var taken: seq<byte>

    ghost predicate Valid()
      reads this, ring, ring.data
    {
      ring.Valid() && ring.curSize == ring.data.Length && stored == taken + ring.queue
    }

    constructor (size: nat)
      requires size <= UINT32_MAX
      ensures Valid() && fresh(ring) && fresh(ring.data) && ring.data.Length == size
      ensures stored == [] && taken == []
    {
      ring := new Ring(size);
      stored, taken := [], [];
    }

    ghost function Free(): nat
      requires Valid()
      reads this, ring, ring.data
    {
      ring.Bounded();
      if ring.data.Length == 0 then 0 else ring.data.Length - 1 - |ring.queue|
    }

    /** esp_apptrace_membufs_down_buffer_write_nolock: stores a prefix of data,
        all of it or as much as is free, and never shrinks the ring. */
    method Write(data: seq<byte>) returns (total: nat)
      requires Valid()
      modifies this`stored, ring, ring.data
      ensures Valid() && total == Min(|data|, old(Free())) && taken == old(taken)
      ensures total < |data| ==> |ring.queue| + 1 >= ring.data.Length
      ensures stored == old(stored) + data[..total]
    {
      total := Push(data);
      Associate(taken, old(ring.queue), data[..total]);
      stored := stored + data[..total];
    }

    method Push(data: seq<byte>) returns (total: nat)
      requires Valid()
      modifies ring, ring.data
      ensures ring.Valid() && ring.curSize == ring.data.Length
      ensures total == Min(|data|, old(Free()))
      ensures total < |data| ==> |ring.queue| + 1 >= ring.data.Length
      ensures ring.queue == old(ring.queue) + data[..total]
    {
      ghost var queue := ring.queue;
      total := 0;
      while total < |data|
        invariant total <= |data|
        invariant ring.Valid() && ring.curSize == ring.data.Length
        invariant ring.queue == queue + data[..total]
      {
        var size := ring.WriteSize();
        if size == 0 {
          break;
        }
        size := Min(size, |data| - total);
        var part := data[total..total + size];
        Associate(queue, data[..total], part);
        assert data[..total + size] == data[..total] + part;
        var ptr := ring.Store(part);
        assert ptr.Some?;
        total := total + size;
      }
      ring.Bounded();
    }

    /** Takes at most want bytes, as many as one region of the ring holds. */
    method Take(want: nat) returns (bytes: seq<byte>)
      requires Valid() && ring.queue != []
      modifies this`taken, ring
      ensures Valid() && stored == old(stored)
      ensures taken == old(taken) + bytes && |bytes| <= want
      ensures |bytes| == Min(want, old(ring.ReadSize())) && (want > 0 ==> bytes != [])
    {
      ghost var queue := ring.queue;
      var n := Min(want, ring.ReadSize());
      bytes := ring.Remove(n);
      Carry(taken, queue, n);
      taken := taken + bytes;
    }
  }

  /** One of the two memory blocks, with its fill marker. */
  class Block {
    const mem: array<byte>
    var marker: nat
    /** The block up to its marker. */
    ghost var text: seq<byte>

    ghost predicate Valid()
      reads this, mem
    {
      4 <= mem.Length <= 0xFFFF && marker <= mem.Length && text == mem[..marker]
    }

    constructor (size: nat)
      requires 4 <= size <= 0xFFFF
      ensures Valid() && fresh(mem) && mem.Length == size && marker == 0 && text == []
    {
      mem := new byte[size];
      marker, text := 0, [];
    }

    method Append(bytes: seq<byte>)
      requires Valid() && marker + |bytes| <= mem.Length
      modifies this, mem
      ensures Valid() && text == old(text) + bytes
    {
      Copy(mem, marker, bytes);
      assert mem[..marker] == text;
      assert mem[..marker + |bytes|] == mem[..marker] + mem[marker..marker + |bytes|];
      marker, text := marker + |bytes|, text + bytes;
    }

    /** The block comes back from the host, which left bytes for the target
        behind their size at its start; the target moves them to the down ring
        and clears the size. */
    method Receive(down: DownPath, hostData: seq<byte>) returns (n: nat)
      requires Valid() && 2 + |hostData| <= mem.Length && mem != down.ring.data
      requires down.Valid()
      modifies this, mem, down`stored, down.ring, down.ring.data
      ensures Valid() && text == []
      ensures down.Valid() && n <= |hostData| && down.taken == old(down.taken)
      ensures down.stored == old(down.stored) + hostData[..n]
      ensures hostData != [] ==> mem[0] == 0 && mem[1] == 0
      ensures n < |hostData| ==> |down.ring.queue| + 1 >= down.ring.data.Length
    {
      n := 0;
      marker, text := 0, [];
      if |hostData| > 0 {
        Copy(mem, 0, [|hostData| % 256, |hostData| / 256] + hostData);
        var size: nat := mem[0] as int + 256 * mem[1] as int;
        if size > 0 {
          assert mem[2..2 + size] == mem[..2 + size][2..] == hostData;
          n := down.Write(mem[2..2 + size]);
          mem[0], mem[1] := 0, 0;
        }
      }
    }

    /** Readies the block the host gave back. */
    method Refill(pend: Ring, down: DownPath, hostData: seq<byte>) returns (n: nat)
      requires Valid() && pend.Valid() && down.Valid()
      requires pend != down.ring && pend.data != down.ring.data && mem != down.ring.data && mem != pend.data
      modifies this, mem, pend`curSize, pend`rd, pend`queue, down`stored, down.ring, down.ring.data
      ensures Valid() && pend.Valid() && down.Valid()
      ensures n <= |hostData| && down.taken == old(down.taken)
      ensures n < |hostData| ==> n + 2 == mem.Length || |down.ring.queue| + 1 >= down.ring.data.Length
      ensures down.stored == old(down.stored) + hostData[..n]
      ensures text + pend.queue == old(pend.queue)
      ensures pend.queue == [] || marker == mem.Length
    {
      var left := hostData[..Min(|hostData|, mem.Length - 2)];
      n := Receive(down, left);
      assert left[..n] == hostData[..n];
      Pump(pend);
    }

    /** Moves pending bytes to the block until it is full or the ring is empty. */
    method Pump(pend: Ring)
      requires Valid() && pend.Valid() && mem != pend.data
      modifies this, mem, pend`curSize, pend`rd, pend`queue
      ensures Valid() && pend.Valid()
      ensures text + pend.queue == old(text + pend.queue)
      ensures pend.queue == [] || marker == mem.Length
    {
      ghost var all := text + pend.queue;
      while marker < mem.Length
        invariant Valid() && pend.Valid()
        invariant text + pend.queue == all
        decreases mem.Length - marker
      {
        var n := pend.ReadSize();
        if n == 0 {
          break;
        }
        n := Min(n, mem.Length - marker);
        ghost var filled, queue := text, pend.queue;
        var ptr := pend.Consume(n);
        assert ptr.Some?;
        Append(pend.data[ptr.value..ptr.value + n]);
        Carry(filled, queue, n);
      }
    }
  }

  /** in_block++ wraps at 32 bits, so the two blocks keep alternating. */
  function NextBlock(inBlock: nat): (next: nat)
    ensures next <= UINT32_MAX && next % 2 == 1 - inBlock % 2
  {
    (inBlock + 1) % (UINT32_MAX + 1)
  }

  /** A swap moves bytes along the stream without changing it. */
  lemma Shift(read: seq<byte>, exposed: seq<byte>, current: seq<byte>, pending: seq<byte>, pumped: seq<byte>, rest: seq<byte>)
    requires pumped + rest == pending
    ensures (read + exposed) + current + pumped + rest == read + exposed + current + pending
  {
  }

  lemma AppendToCurrent(read: seq<byte>, exposed: seq<byte>, current: seq<byte>, bytes: seq<byte>)
    ensures read + exposed + (current + bytes) + [] == read + exposed + current + [] + bytes
  {
  }

  function Extended(stream: seq<byte>, ok: bool, bytes: seq<byte>): seq<byte> {
    if ok then stream + bytes else stream
  }

  class Membufs {
    const b0: Block
    const b1: Block
    const pend: Ring
    const down: DownPath
    var inBlock: nat
    // the hardware and the host
    var replies: seq<Reply>
    var polls: seq<Poll>
    var exposed: nat
    var host: seq<byte>
    /** The bytes of the packets granted so far, in grant order. */
    ghost var granted: seq<byte>
    /** All replies the hardware will give. */
    ghost const script: seq<Reply>

    function Current(): Block
      reads `inBlock
    {
      if inBlock % 2 == 0 then b0 else b1
    }

    function Other(): Block
      reads `inBlock
    {
      if inBlock % 2 == 0 then b1 else b0
    }

    ghost predicate Apart() {
      && b0 != b1 && pend != down.ring
      && b0.mem != b1.mem && b0.mem != pend.data && b1.mem != pend.data
      && b0.mem != down.ring.data && b1.mem != down.ring.data && pend.data != down.ring.data
      && pend.data.Length <= UINT32_MAX - 0xFFFF
    }

    /** What came from the host is what the replies so far brought. */
    ghost predicate Arrived()
      reads `replies, down
    {
      && |replies| <= |script| && replies == script[|script| - |replies|..]
      && Came(script[..|script| - |replies|], down.stored)
      && (Generous() ==> |down.stored| + Total(replies) == Total(script))
    }

    /** The host never refuses, and all it has for the target fits the blocks and the
        down ring. */
    ghost predicate Generous() {
      FreeHand(script, Min(b0.mem.Length, b1.mem.Length), down.ring.data.Length)
    }

    /** Host data is seen at every look, and there are looks for all replies. */
    ghost predicate Watched()
      reads `replies, `polls
    {
      |polls| >= |replies| && forall i | 0 <= i < |polls| :: polls[i].pending
    }

    /** Everything but the account of the granted packets. */
    ghost predicate Shape()
      reads `replies, `inBlock, `exposed, b0, b0.mem, b1, b1.mem, pend, pend.data, down, down.ring, down.ring.data
    {
      Formed() && Arrived()
    }

    ghost predicate Formed()
      reads `inBlock, `exposed, b0, b0.mem, b1, b1.mem, pend, pend.data, down, down.ring, down.ring.data
    {
      && Apart()
      && b0.Valid() && b1.Valid() && pend.Valid() && down.Valid()
      && inBlock <= UINT32_MAX
      && exposed == Other().marker
    }

    /** All bytes on their way: those the host has read, those exposed to it,
        the block being filled up to its marker, then the pending ring. */
    ghost function Stream(): seq<byte>
      reads `inBlock, `host, b0, b1, pend
    {
      host + Other().text + Current().text + pend.queue
    }

    ghost predicate Valid()
      reads this, b0, b0.mem, b1, b1.mem, pend, pend.data, down, down.ring, down.ring.data
    {
      Shape() && Stream() == granted
    }

    constructor (size0: nat, size1: nat, pendSize: nat, downSize: nat, replies: seq<Reply>, polls: seq<Poll>)
      requires 4 <= size0 <= 0xFFFF && 4 <= size1 <= 0xFFFF
      requires pendSize <= UINT32_MAX - 0xFFFF && downSize <= UINT32_MAX
      ensures Valid() && granted == [] && down.stored == [] && down.taken == [] && host == []
      ensures fresh(b0) && fresh(b0.mem) && fresh(b1) && fresh(b1.mem)
      ensures fresh(pend) && fresh(pend.data) && fresh(down) && fresh(down.ring) && fresh(down.ring.data)
      ensures b0.mem.Length == size0 && b1.mem.Length == size1 && pend.data.Length == pendSize
      ensures down.ring.data.Length == downSize && script == replies && this.replies == replies && this.polls == polls
    {
      b0 := new Block(size0);
      b1 := new Block(size1);
      pend := new Ring(pendSize);
      down := new DownPath(downSize);
      inBlock, exposed, host := 0, 0, [];
      this.replies, this.polls, this.script := replies, polls, replies;
      granted := [];
      CameNone();
      assert replies[..0] == [] && replies[0..] == replies;
    }

    /** One attempt to hand the current block to the host. */
    method Swap() returns (ok: bool, expired: bool)
      requires Shape()
      modifies this`replies, this`host, this`inBlock, this`exposed
      modifies b0, b0.mem, b1, b1.mem, pend`curSize, pend`rd, pend`queue, down`stored, down.ring, down.ring.data
      ensures Shape() && Stream() == old(Stream())
      ensures old(down.stored) <= down.stored
      ensures if old(replies) == [] then replies == [] && !ok && expired
              else replies == old(replies)[1..] && (old(replies)[0].Refuse? ==> expired == old(replies)[0].expired)
      ensures ok <==> old(replies) != [] && old(replies)[0].Accept?
      ensures !ok ==> down.stored == old(down.stored)
      ensures ok ==> var bytes, n := old(replies)[0].hostData, |down.stored| - |old(down.stored)|;
                     && n <= |bytes| && down.stored == old(down.stored) + bytes[..n]
                     && (n < |bytes| ==> n + 2 == old(Other().mem.Length) || |down.ring.queue| + 1 >= down.ring.data.Length)
                     && (2 + |bytes| <= old(Other().mem.Length) && |bytes| + old(|down.ring.queue|) < down.ring.data.Length ==>
                           down.stored == old(down.stored) + bytes)
      ensures !ok ==> host == old(host) && Current() == old(Current()) && Other() == old(Other())
      ensures !ok ==> Current().text == old(Current().text) && Other().text == old(Other().text)
      ensures !ok ==> pend.queue == old(pend.queue) && pend.Offset() == old(pend.Offset())
      ensures ok ==> host == old(host + Other().text) && Current() == old(Other())
      ensures ok ==> Other() == old(Current()) && Other().text == old(Current().text)
      ensures ok ==> Current().text + pend.queue == old(pend.queue)
      ensures ok ==> pend.queue == [] || Current().marker == Current().mem.Length
    {
      if replies == [] {
        return false, true;
      }
      ghost var k := |script| - |replies|;
      var reply := replies[0];
      replies := replies[1..];
      assert script[k] == reply;
      if reply.Refuse? {
        CameNext(script, k, down.stored, []);
        assert down.stored + [] == down.stored;
        return false, reply.expired;
      }
      var n := Accept(reply.hostData, k);
      assert n == |reply.hostData| ==> reply.hostData[..n] == reply.hostData;
      return true, false;
    }

    /** The swap accepted with reply k. */
    method Accept(hostData: seq<byte>, ghost k: nat) returns (n: nat)
      requires Formed() && k < |script| && script[k] == Reply.Accept(hostData) && replies == script[k + 1..]
      requires Came(script[..k], down.stored)
      requires Generous() ==> |down.stored| + Total(script[k..]) == Total(script)
      modifies this`host, this`inBlock, this`exposed
      modifies b0, b0.mem, b1, b1.mem, pend`curSize, pend`rd, pend`queue, down`stored, down.ring, down.ring.data
      ensures Shape() && Stream() == old(Stream())
      ensures n <= |hostData| && down.stored == old(down.stored) + hostData[..n] && down.taken == old(down.taken)
      ensures n < |hostData| ==> n + 2 == old(Other().mem.Length) || |down.ring.queue| + 1 >= down.ring.data.Length
      ensures host == old(host + Other().text) && Current() == old(Other())
      ensures Other() == old(Current()) && Other().text == old(Current().text)
      ensures Current().text + pend.queue == old(pend.queue)
      ensures pend.queue == [] || Current().marker == Current().mem.Length
    {
      ghost var exposed, current, queue, stored := Other().text, Current().text, pend.queue, down.stored;
      n := Exchange(hostData);
      TotalNext(script, k);
      CameNext(script, k, stored, down.stored[|stored|..]);
      Shift(old(host), exposed, current, queue, Current().text, pend.queue);
    }

    /** The accepted swap: the host has read the block exposed to it and gets the
        current one instead. */
    method Exchange(hostData: seq<byte>) returns (n: nat)
      requires Formed()
      modifies this`host, this`inBlock, this`exposed
      modifies Other(), Other().mem, pend`curSize, pend`rd, pend`queue, down`stored, down.ring, down.ring.data
      ensures Formed()
      ensures n <= |hostData| && down.stored == old(down.stored) + hostData[..n] && down.taken == old(down.taken)
      ensures n < |hostData| ==> n + 2 == old(Other().mem.Length) || |down.ring.queue| + 1 >= down.ring.data.Length
      ensures host == old(host + Other().text) && Current() == old(Other()) && Other() == old(Current())
      ensures Current().text + pend.queue == old(pend.queue)
      ensures pend.queue == [] || Current().marker == Current().mem.Length
    {
      var prev, next := Current(), Other();
      host := host + next.mem[..exposed];
      n := next.Refill(pend, down, hostData);
      inBlock := NextBlock(inBlock);
      exposed := prev.marker;
    }

    method Look() returns (read: seq<byte>, handed: seq<byte>, current: seq<byte>, pending: seq<byte>)
      requires Shape()
      ensures read + handed + current + pending == Stream()
    {
      read := host;
      handed := Other().mem[..exposed];
      current := Current().mem[..Current().marker];
      pending := Queued(pend.data[..], pend.rd, pend.wr, pend.curSize);
    }

    /** The next attempt to swap is accepted. */
    ghost predicate Agreed()
      reads `replies
    {
      replies != [] && replies[0].Accept?
    }

    /** The host never refuses, and what the pending ring holds fits either block. */
    ghost predicate Easy() {
      && (forall i | 0 <= i < |script| :: script[i].Accept?)
      && pend.data.Length <= b0.mem.Length && pend.data.Length <= b1.mem.Length
    }

    method LookDown() returns (waiting: seq<byte>)
      requires Shape()
      ensures down.taken + waiting == down.stored
      ensures exists used :: 0 <= used <= |script| && Came(script[..used], down.taken + waiting)
    {
      waiting := Queued(down.ring.data[..], down.ring.rd, down.ring.wr, down.ring.curSize);
      ghost var used := |script| - |replies|;
      assert Came(script[..used], down.taken + waiting);
    }

    /** Attempts to swap until one is accepted or the timeout fires. */
    method SwapWait() returns (ok: bool)
      requires Shape()
      modifies this`replies, this`host, this`inBlock, this`exposed
      modifies b0, b0.mem, b1, b1.mem, pend`curSize, pend`rd, pend`queue, down`stored, down.ring, down.ring.data
      ensures Shape() && Stream() == old(Stream())
      ensures old(down.stored) <= down.stored && |replies| <= |old(replies)| && (ok <==> Accepted(old(replies)))
      ensures !ok ==> Current() == old(Current()) && Current().text == old(Current().text)
      ensures !ok ==> pend.queue == old(pend.queue) && pend.Offset() == old(pend.Offset())
      ensures ok ==> Current() == old(Other()) && Current().text + pend.queue == old(pend.queue)
      ensures ok ==> pend.queue == [] || Current().marker == Current().mem.Length
      ensures old(Agreed()) ==> ok && replies == old(replies)[1..]
      ensures old(replies) != [] ==> |replies| < |old(replies)|
    {
      while true
        invariant Shape() && Stream() == old(Stream())
        invariant old(down.stored) <= down.stored && |replies| <= |old(replies)| && Accepted(replies) == Accepted(old(replies))
        invariant Current() == old(Current()) && Other() == old(Other())
        invariant Current().text == old(Current().text) && pend.queue == old(pend.queue) && pend.Offset() == old(pend.Offset())
        invariant old(Agreed()) ==> replies == old(replies)
        decreases |replies|
      {
        var expired;
        ok, expired := Swap();
        if ok || expired {
          return;
        }
      }
    }

    /** Room for the bytes in the pending ring, filled at once. */
    method StorePending(bytes: seq<byte>) returns (ok: bool)
      requires Shape() && |bytes| <= 0xFFFF
      modifies pend, pend.data
      ensures Shape() && (ok <==> old(pend.CanGrant(|bytes|)))
      ensures !ok ==> pend.queue == old(pend.queue) && pend.Offset() == old(pend.Offset())
      ensures Stream() == Extended(old(Stream()), ok, bytes)
    {
      Associate(host + Other().text + Current().text, pend.queue, bytes);
      var ptr := pend.Store(bytes);
      ok := ptr.Some?;
    }

    /** Room for the bytes in the current block, filled at once. */
    method StoreInBlock(bytes: seq<byte>)
      requires Shape() && pend.queue == [] && Current().marker + |bytes| <= Current().mem.Length
      modifies Current(), Current().mem
      ensures Shape() && Stream() == old(Stream()) + bytes
    {
      var block := Current();
      AppendToCurrent(host, Other().text, block.text, bytes);
      block.Append(bytes);
    }

    /** esp_apptrace_membufs_wait4buf: swaps, then finds room in the ring or in
        the new block. */
    method WaitForBuffer(bytes: seq<byte>) returns (ok: bool)
      requires Shape() && |bytes| <= 0xFFFF
      modifies this`replies, this`host, this`inBlock, this`exposed
      modifies b0, b0.mem, b1, b1.mem, pend, pend.data, down`stored, down.ring, down.ring.data
      ensures Shape() && old(down.stored) <= down.stored && |replies| <= |old(replies)|
      ensures Stream() == Extended(old(Stream()), ok, bytes)
      ensures ok ==> Accepted(old(replies))
      ensures Accepted(old(replies)) && old(|pend.queue| + |bytes|) <= old(Other().mem.Length) ==> ok
      ensures !ok && (Accepted(old(replies)) || !old(pend.CanGrant(|bytes|))) ==> !pend.CanGrant(|bytes|)
      ensures old(Agreed()) ==> replies == old(replies)[1..]
    {
      ok := SwapWait();
      if !ok {
        return;
      }
      if pend.ReadSize() > 0 || Current().marker + |bytes| > Current().mem.Length {
        ok := StorePending(bytes);
      } else {
        StoreInBlock(bytes);
      }
    }

    /** Room for n bytes is found without waiting when nothing is pending: in the
        block, else in the pending ring. */
    ghost predicate HasRoom(n: nat)
      reads `inBlock, b0, b1, pend
    {
      pend.queue == [] && (Current().marker + n <= Current().mem.Length || pend.CanGrant(n))
    }

    /** A packet is granted room, filled and put in one step. */
    method Trace(packet: Packet) returns (ok: bool)
      requires Valid()
      modifies this`replies, this`host, this`inBlock, this`exposed, this`granted
      modifies b0, b0.mem, b1, b1.mem, pend, pend.data, down`stored, down.ring, down.ring.data
      ensures Valid() && old(down.stored) <= down.stored && |replies| <= |old(replies)|
      ensures granted == Extended(old(granted), ok, Encode(packet))
      ensures old(Current().mem.Length) < 4 + |packet.payload| ==> !ok
      ensures 4 + |packet.payload| <= old(Current().mem.Length) && old(HasRoom(4 + |packet.payload|)) ==> ok && host == old(host)
      ensures 4 + |packet.payload| <= old(Current().mem.Length) && !ok ==> !pend.CanGrant(4 + |packet.payload|)
      ensures Easy() && |old(replies)| >= 2 && 4 + |packet.payload| <= Min(b0.mem.Length, b1.mem.Length) ==>
                ok && |replies| + 2 >= |old(replies)|
    {
      if |packet.payload| > Current().mem.Length - 4 {
        return false;
      }
      var bytes := Encode(packet);
      ok := Place(bytes);
      granted := Extended(granted, ok, bytes);
    }

    /** esp_apptrace_membufs_up_buffer_get, the room filled at once. */
    method Place(bytes: seq<byte>) returns (ok: bool)
      requires Shape() && |bytes| <= 0xFFFF
      modifies this`replies, this`host, this`inBlock, this`exposed
      modifies b0, b0.mem, b1, b1.mem, pend, pend.data, down`stored, down.ring, down.ring.data
      ensures Shape() && old(down.stored) <= down.stored && |replies| <= |old(replies)|
      ensures Stream() == Extended(old(Stream()), ok, bytes)
      ensures old(HasRoom(|bytes|)) ==> ok && host == old(host) && replies == old(replies)
      ensures old(pend.queue) != [] && old(replies) != [] ==> |replies| < |old(replies)|
      ensures !ok ==> !pend.CanGrant(|bytes|)
      ensures old(pend.queue == [] && Current().marker + |bytes| <= Current().mem.Length) ==>
                pend.queue == [] && Current() == old(Current()) && Current().marker == old(Current().marker) + |bytes|
      ensures Easy() && |old(replies)| >= 2 && |bytes| <= Min(b0.mem.Length, b1.mem.Length) ==>
                ok && |replies| + 2 >= |old(replies)|
    {
      SwapPending();
      ok := PlaceNow(bytes);
    }

    /** One attempt to swap if anything is pending. */
    method SwapPending()
      requires Shape()
      modifies this`replies, this`host, this`inBlock, this`exposed
      modifies b0, b0.mem, b1, b1.mem, pend`curSize, pend`rd, pend`queue, down`stored, down.ring, down.ring.data
      ensures Shape() && Stream() == old(Stream()) && old(down.stored) <= down.stored && |replies| <= |old(replies)|
      ensures old(pend.queue) == [] ==>
                && host == old(host) && replies == old(replies) && pend.queue == [] && pend.Offset() == old(pend.Offset())
                && Current() == old(Current()) && Current().marker == old(Current().marker)
      ensures old(pend.queue) != [] && old(replies) != [] ==> |replies| < |old(replies)|
      ensures Easy() && old(replies) != [] ==> pend.queue == [] && |replies| + 1 >= |old(replies)|
    {
      if pend.ReadSize() > 0 {
        PendingFits();
        var _, _ := Swap();
      }
    }

    /** Room in the block or in the pending ring, else after a swap. */
    method PlaceNow(bytes: seq<byte>) returns (ok: bool)
      requires Shape() && |bytes| <= 0xFFFF
      modifies this`replies, this`host, this`inBlock, this`exposed
      modifies b0, b0.mem, b1, b1.mem, pend, pend.data, down`stored, down.ring, down.ring.data
      ensures Shape() && old(down.stored) <= down.stored && |replies| <= |old(replies)|
      ensures Stream() == Extended(old(Stream()), ok, bytes)
      ensures old(HasRoom(|bytes|)) ==> ok && host == old(host) && replies == old(replies)
      ensures !ok ==> !pend.CanGrant(|bytes|)
      ensures old(pend.queue == [] && Current().marker + |bytes| <= Current().mem.Length) ==>
                pend.queue == [] && Current() == old(Current()) && Current().marker == old(Current().marker) + |bytes|
      ensures Easy() && old(replies) != [] && old(pend.queue) == [] && |bytes| <= Min(b0.mem.Length, b1.mem.Length) ==>
                ok && |replies| + 1 >= |old(replies)|
    {
      if pend.ReadSize() > 0 || Current().marker + |bytes| > Current().mem.Length {
        ok := StorePending(bytes);
        if !ok {
          ok := WaitForBuffer(bytes);
        }
      } else {
        StoreInBlock(bytes);
        ok := true;
      }
    }

    /** What is pending is less than the ring. */
    lemma PendingFits()
      requires Shape()
      ensures |pend.queue| <= pend.data.Length
    {
      pend.Bounded();
    }

    /** Swaps while the current block holds more than minSz bytes. */
    method Flush(minSz: nat) returns (ok: bool)
      requires Shape()
      modifies this`replies, this`host, this`inBlock, this`exposed
      modifies b0, b0.mem, b1, b1.mem, pend`curSize, pend`rd, pend`queue, down`stored, down.ring, down.ring.data
      ensures Shape() && Stream() == old(Stream()) && old(down.stored) <= down.stored && |replies| <= |old(replies)|
      ensures old(Current().marker) <= minSz ==>
                ok && host == old(host) && Current() == old(Current()) && Current().text == old(Current().text)
                && pend.queue == old(pend.queue)
      ensures ok <==> Current().marker <= minSz
      ensures ok && old(Current().marker) > minSz && minSz < b0.mem.Length && minSz < b1.mem.Length ==> pend.queue == []
      ensures Easy() && |old(replies)| >= 2 ==> ok && |replies| + 2 >= |old(replies)|
    {
      if Current().marker < minSz {
        return true;
      }
      ghost var swaps := 0;
      while Current().marker > minSz
        invariant Shape() && Stream() == old(Stream()) && old(down.stored) <= down.stored && |replies| <= |old(replies)|
        invariant old(Current().marker) <= minSz ==>
                    host == old(host) && Current() == old(Current()) && Current().text == old(Current().text)
                    && pend.queue == old(pend.queue)
        invariant Current().marker <= minSz < old(Current().marker) ==>
                    pend.queue == [] || Current().marker == Current().mem.Length
        invariant Easy() && |old(replies)| >= 2 ==> Quick(swaps, |old(replies)|)
        decreases Current().marker + |pend.queue|
      {
        ok := FlushBlock(swaps, |old(replies)|);
        if !ok {
          return;
        }
        swaps := swaps + 1;
      }
      ok := true;
    }

    /** After at most two swaps, each accepted at once, nothing is left to flush. */
    ghost predicate Quick(swaps: nat, given: nat)
      reads `replies, `inBlock, b0, b1, pend
    {
      && swaps <= 2 <= given && |replies| + swaps == given
      && (swaps == 1 ==> pend.queue == []) && (swaps == 2 ==> Current().marker == 0)
    }

    /** One swap of a flush delivers the block: the marker and the pending bytes
        together decrease by what was in it. */
    method FlushBlock(ghost swaps: nat, ghost given: nat) returns (ok: bool)
      requires Shape() && Current().marker > 0
      modifies this`replies, this`host, this`inBlock, this`exposed
      modifies b0, b0.mem, b1, b1.mem, pend`curSize, pend`rd, pend`queue, down`stored, down.ring, down.ring.data
      ensures Shape() && Stream() == old(Stream()) && old(down.stored) <= down.stored && |replies| <= |old(replies)|
      ensures !ok ==> Current() == old(Current()) && Current().text == old(Current().text) && pend.queue == old(pend.queue)
      ensures ok ==> Current().marker + |pend.queue| == old(|pend.queue|)
      ensures ok ==> pend.queue == [] || Current().marker == Current().mem.Length
      ensures Easy() && old(Quick(swaps, given)) ==> ok && Quick(swaps + 1, given)
    {
      PendingFits();
      ok := SwapWait();
    }

    /** esp_apptrace_membufs_down_buffer_get: bytes from the down ring, waiting
        for the host's while the ring is empty. */
    method DownBufferGet(want: nat) returns (bytes: Option<seq<byte>>)
      requires Shape()
      modifies this`replies, this`polls, this`host, this`inBlock, this`exposed
      modifies b0, b0.mem, b1, b1.mem, pend`curSize, pend`rd, pend`queue, down, down.ring, down.ring.data
      ensures Shape() && Stream() == old(Stream()) && old(down.stored) <= down.stored
      ensures bytes.None? ==> down.taken == old(down.taken)
      ensures bytes.Some? ==> down.taken == old(down.taken) + bytes.value && |bytes.value| <= want
      ensures bytes.Some? && want > 0 ==> bytes.value != []
      ensures bytes.None? ==> down.ring.queue == []
      ensures old(Watched()) ==> Watched() && (Generous() && bytes.None? ==> |down.taken| == Total(script))
    {
      while true
        invariant Shape() && Stream() == old(Stream()) && old(down.stored) <= down.stored
        invariant down.taken == old(down.taken) && (old(Watched()) ==> Watched())
        decreases |polls|
      {
        if down.ring.ReadSize() != 0 {
          var taken := down.Take(want);
          return Some(taken);
        }
        var expired := AwaitHost();
        if expired {
          return None;
        }
      }
    }

    /** One round of waiting: a swap when the host has data, else a timeout
        check. */
    method AwaitHost() returns (expired: bool)
      requires Shape()
      modifies this`replies, this`polls, this`host, this`inBlock, this`exposed
      modifies b0, b0.mem, b1, b1.mem, pend`curSize, pend`rd, pend`queue, down`stored, down.ring, down.ring.data
      ensures Shape() && Stream() == old(Stream()) && old(down.stored) <= down.stored
      ensures !expired ==> |polls| < |old(polls)|
      ensures expired ==> down.stored == old(down.stored)
      ensures down.taken == old(down.taken)
      ensures old(Watched()) ==> Watched() && (expired ==> replies == [])
    {
      if polls == [] {
        return true;
      }
      var poll := polls[0];
      polls := polls[1..];
      if poll.pending {
        var _ := SwapWait();
        return false;
      }
      return poll.expired;
    }

    /** esp_apptrace_read, once the channel is known: reads into buf from offset
        at; 0 bytes for any error. */
    method Read(buf: array<byte>, at: nat) returns (n: nat)
      requires Shape() && at <= buf.Length
      requires buf != b0.mem && buf != b1.mem && buf != pend.data && buf != down.ring.data
      modifies buf
      modifies this`replies, this`polls, this`host, this`inBlock, this`exposed
      modifies b0, b0.mem, b1, b1.mem, pend`curSize, pend`rd, pend`queue, down, down.ring, down.ring.data
      ensures Shape() && Stream() == old(Stream()) && old(down.stored) <= down.stored
      ensures at + n <= buf.Length && buf[..at] == old(buf[..at])
      ensures down.taken == old(down.taken) + buf[at..at + n]
      ensures at < buf.Length && n == 0 ==> down.ring.queue == []
      ensures old(Watched()) ==> Watched() && (Generous() && at < buf.Length && n == 0 ==> |down.taken| == Total(script))
    {
      if at == buf.Length {
        return 0;
      }
      var bytes := DownBufferGet(buf.Length - at);
      if bytes.None? {
        return 0;
      }
      n := |bytes.value|;
      Copy(buf, at, bytes.value);
    }

    /** esp_apptrace_file_rsp_recv: reads until the buffer is full. The buffer
        holds the next bytes of the stored stream, however many reads it took. */
    method ReceiveResponse(buf: array<byte>) returns (ok: bool, total: nat)
      requires Shape()
      requires buf != b0.mem && buf != b1.mem && buf != pend.data && buf != down.ring.data
      modifies buf
      modifies this`replies, this`polls, this`host, this`inBlock, this`exposed
      modifies b0, b0.mem, b1, b1.mem, pend`curSize, pend`rd, pend`queue, down, down.ring, down.ring.data
      ensures Shape() && Stream() == old(Stream()) && old(down.stored) <= down.stored
      ensures total <= buf.Length && (ok <==> total == buf.Length)
      ensures down.taken == old(down.taken) + buf[..total]
      ensures old(Watched()) ==> Watched() && (Generous() && !ok ==> |down.taken| == Total(script))
    {
      total := 0;
      ghost var stream, stored, taken := Stream(), down.stored, down.taken;
      while total < buf.Length
        invariant Shape() && Stream() == stream && stored <= down.stored
        invariant total <= buf.Length && Received(buf, total, taken)
        invariant old(Watched()) ==> Watched()
      {
        var n := ReadNext(buf, total, taken);
        if n == 0 {
          return false, total;
        }
        total := total + n;
      }
      ok := true;
    }

    /** The first n bytes of the buffer are the bytes taken out since. */
    ghost predicate Received(buf: array<byte>, n: nat, taken: seq<byte>)
      requires n <= buf.Length
      reads buf, down
    {
      down.taken == taken + buf[..n]
    }

    /** One more read behind the bytes received so far. */
    method ReadNext(buf: array<byte>, at: nat, ghost taken: seq<byte>) returns (n: nat)
      requires Shape() && at <= buf.Length && Received(buf, at, taken)
      requires buf != b0.mem && buf != b1.mem && buf != pend.data && buf != down.ring.data
      modifies buf
      modifies this`replies, this`polls, this`host, this`inBlock, this`exposed
      modifies b0, b0.mem, b1, b1.mem, pend`curSize, pend`rd, pend`queue, down, down.ring, down.ring.data
      ensures Shape() && Stream() == old(Stream()) && old(down.stored) <= down.stored
      ensures at + n <= buf.Length && Received(buf, at + n, taken)
      ensures old(Watched()) ==> Watched() && (Generous() && at < buf.Length && n == 0 ==> |down.taken| == Total(script))
    {
      ghost var got := buf[..at];
      n := Read(buf, at);
      Associate(taken, got, buf[at..at + n]);
      assert buf[..at + n] == buf[..at] + buf[at..at + n];
    }
  }

  /** What a user of the transport can do. */
  datatype Step = Traced(packet: Packet) | Flushed(minSz: nat) | Responded(size: nat)

  /** The packets of a run whose grant succeeded, in order. */
  function Granted(steps: seq<Step>, oks: seq<bool>): seq<Packet>
    requires |steps| == |oks|
  {
    if steps == [] then [] else
      var last := |steps| - 1;
      Granted(steps[..last], oks[..last]) + (if steps[last].Traced? && oks[last] then [steps[last].packet] else [])
  }

  /** The bytes of the packets granted in the steps so far. */
  ghost predicate AreGranted(bytes: seq<byte>, steps: seq<Step>, oks: seq<bool>) {
    |oks| <= |steps| && bytes == Flatten(Frames(Granted(steps[..|oks|], oks)))
  }

  lemma GrantedStep(bytes: seq<byte>, steps: seq<Step>, oks: seq<bool>, ok: bool)
    requires |oks| < |steps| && AreGranted(bytes, steps, oks)
    ensures var step := steps[|oks|];
            AreGranted(if step.Traced? then Extended(bytes, ok, Encode(step.packet)) else bytes, steps, oks + [ok])
  {
    var k := |oks|;
    GrantedLast(steps, oks, ok);
    if steps[k].Traced? && ok {
      OneMore(Granted(steps[..k], oks), steps[k].packet);
    }
  }

  lemma OneMore(packets: seq<Packet>, p: Packet)
    ensures Flatten(Frames(packets + [p])) == Flatten(Frames(packets)) + Encode(p)
  {
    FramesAppend(packets, p);
    FlattenAppend(Frames(packets), Encode(p));
  }

  lemma GrantedLast(steps: seq<Step>, oks: seq<bool>, ok: bool)
    requires |oks| < |steps|
    ensures var k := |oks|;
            Granted(steps[..k + 1], oks + [ok])
              == if steps[k].Traced? && ok then Granted(steps[..k], oks) + [steps[k].packet] else Granted(steps[..k], oks)
  {
    var k := |oks|;
    assert steps[..k + 1][..k] == steps[..k] && (oks + [ok])[..k] == oks;
  }

  /** The result of a run: the bytes on their way to the host, where they are; which
      steps succeeded; what each step received from the host, and what of it is still
      waiting in the down ring. */
  datatype Outcome = Outcome(host: seq<byte>, exposed: seq<byte>, current: seq<byte>, pending: seq<byte>,
                             oks: seq<bool>, responses: seq<seq<byte>>, waiting: seq<byte>)

  /** Only responses receive bytes, and they succeed exactly when they get all they
      ask for. */
  predicate Answered(step: Step, ok: bool, got: seq<byte>) {
    if step.Responded? then |got| <= step.size && (ok <==> |got| == step.size) else got == []
  }

  /** A packet that fits blocks of the given size, or a flush. */
  predicate Simple(step: Step, block: nat) {
    (step.Traced? && 4 + |step.packet.payload| <= block) || step.Flushed?
  }

  /** A host that never refuses, two replies for every step, blocks as large as the
      pending ring, and simple steps. */
  ghost predicate MustSucceed(block: nat, pendSize: nat, replies: seq<Reply>, steps: seq<Step>) {
    && (forall i | 0 <= i < |replies| :: replies[i].Accept?)
    && 2 * |steps| <= |replies| && pendSize <= block
    && forall k | 0 <= k < |steps| :: Simple(steps[k], block)
  }

  /** The bytes asked for by the responses. */
  function Requested(steps: seq<Step>): nat {
    if steps == [] then 0 else
      var last := |steps| - 1;
      Requested(steps[..last]) + (if steps[last].Responded? then steps[last].size else 0)
  }

  lemma RequestedNext(steps: seq<Step>, k: nat)
    requires k < |steps|
    ensures Requested(steps[..k + 1]) == Requested(steps[..k]) + (if steps[k].Responded? then steps[k].size else 0)
  {
    assert steps[..k + 1][..k] == steps[..k];
  }

  /** The host's data is free to arrive, and looked for often enough. */
  ghost predicate Fed(block: nat, ring: nat, replies: seq<Reply>, polls: seq<Poll>) {
    FreeHand(replies, block, ring) && |polls| >= |replies| && forall i | 0 <= i < |polls| :: polls[i].pending
  }

  /** Over every run, under every pattern of refusals, timeouts and host data: what
      the host read, what is exposed to it, the current block and the pending ring
      together are exactly the granted packets, in grant order, and the host recovers
      the first of them from what it read; what the responses received, and what is
      waiting, are what the replies brought, in order; where nothing stands in the way
      every step succeeds; and where the host's data is free to arrive, every response
      succeeds for which the host has data enough. */
  method Run(size0: nat, size1: nat, pendSize: nat, downSize: nat, replies: seq<Reply>, polls: seq<Poll>, steps: seq<Step>)
    returns (r: Outcome)
    requires 4 <= size0 <= 0xFFFF && 4 <= size1 <= 0xFFFF
    requires pendSize <= UINT32_MAX - 0xFFFF && downSize <= UINT32_MAX
    ensures |r.oks| == |r.responses| == |steps|
    ensures r.host + r.exposed + r.current + r.pending == Flatten(Frames(Granted(steps, r.oks)))
    ensures AllSmall(Granted(steps, r.oks)) ==> Decode(r.host) <= Payloads(Granted(steps, r.oks))
    ensures exists used :: 0 <= used <= |replies| && Came(replies[..used], Flatten(r.responses) + r.waiting)
    ensures forall k | 0 <= k < |steps| :: Answered(steps[k], r.oks[k], r.responses[k])
    ensures MustSucceed(Min(size0, size1), pendSize, replies, steps) ==> forall k | 0 <= k < |steps| :: r.oks[k]
    ensures Fed(Min(size0, size1), downSize, replies, polls) ==>
              forall k | 0 <= k < |steps| && steps[k].Responded? && Requested(steps[..k + 1]) <= Total(replies) :: r.oks[k]
  {
    var t := new Membufs(size0, size1, pendSize, downSize, replies, polls);
    r := RunFrom(t, steps);
  }

  method RunFrom(t: Membufs, steps: seq<Step>) returns (r: Outcome)
    requires t.Valid() && t.granted == [] && t.down.taken == [] && t.replies == t.script
    modifies t, t.b0, t.b0.mem, t.b1, t.b1.mem, t.pend, t.pend.data, t.down, t.down.ring, t.down.ring.data
    ensures |r.oks| == |r.responses| == |steps|
    ensures r.host + r.exposed + r.current + r.pending == Flatten(Frames(Granted(steps, r.oks)))
    ensures AllSmall(Granted(steps, r.oks)) ==> Decode(r.host) <= Payloads(Granted(steps, r.oks))
    ensures exists used :: 0 <= used <= |t.script| && Came(t.script[..used], Flatten(r.responses) + r.waiting)
    ensures forall k | 0 <= k < |steps| :: Answered(steps[k], r.oks[k], r.responses[k])
    ensures MustSucceed(Min(t.b0.mem.Length, t.b1.mem.Length), t.pend.data.Length, t.script, steps) ==>
              forall k | 0 <= k < |steps| :: r.oks[k]
    ensures t.Generous() && old(t.Watched()) ==> AllFed(steps, r.oks, Total(t.script))
  {
    var oks, responses := PerformAll(t, steps);
    var host, exposed, current, pending := t.Look();
    HostRecovers(host, exposed, current, pending, Granted(steps, oks));
    var waiting := t.LookDown();
    r := Outcome(host, exposed, current, pending, oks, responses, waiting);
  }

  /** The account after the first steps: the packets granted, the bytes received, and
      the successes where nothing stood in the way. */
  ghost predicate Accounted(t: Membufs, steps: seq<Step>, oks: seq<bool>, responses: seq<seq<byte>>)
    reads t, t.down
  {
    && AreGranted(t.granted, steps, oks) && Got(t.down.taken, steps, oks, responses)
    && (MustSucceed(Min(t.b0.mem.Length, t.b1.mem.Length), t.pend.data.Length, t.script, steps) ==>
          AllDone(steps, oks, |t.replies|))
  }

  /** The bytes received are those of the answers so far. */
  ghost predicate Got(taken: seq<byte>, steps: seq<Step>, oks: seq<bool>, responses: seq<seq<byte>>) {
    && taken == Flatten(responses)
    && AllAnswered(steps, oks, responses)
    && |taken| <= Requested(steps[..|oks|])
  }

  lemma GotNext(taken: seq<byte>, steps: seq<Step>, oks: seq<bool>, responses: seq<seq<byte>>, ok: bool, got: seq<byte>)
    requires Got(taken, steps, oks, responses) && |oks| < |steps| && Answered(steps[|oks|], ok, got)
    ensures Got(taken + got, steps, oks + [ok], responses + [got])
  {
    FlattenAppend(responses, got);
    AnsweredNext(steps, oks, responses, ok, got);
    RequestedNext(steps, |oks|);
  }

  /** Every response succeeded for which enough is there. */
  ghost predicate AllFed(steps: seq<Step>, oks: seq<bool>, total: nat) {
    && |oks| <= |steps|
    && forall k | 0 <= k < |oks| && steps[k].Responded? && Requested(steps[..k + 1]) <= total :: oks[k]
  }

  lemma FedNext(steps: seq<Step>, oks: seq<bool>, total: nat, ok: bool, before: nat, after: nat, got: seq<byte>)
    requires AllFed(steps, oks, total) && |oks| < |steps| && before <= Requested(steps[..|oks|])
    requires Answered(steps[|oks|], ok, got) && after == before + |got|
    requires steps[|oks|].Responded? && !ok ==> after == total
    ensures AllFed(steps, oks + [ok], total)
  {
    RequestedNext(steps, |oks|);
  }

  ghost predicate AllAnswered(steps: seq<Step>, oks: seq<bool>, responses: seq<seq<byte>>) {
    |oks| == |responses| <= |steps| && forall k | 0 <= k < |oks| :: Answered(steps[k], oks[k], responses[k])
  }

  /** The steps so far succeeded, with two replies left for each to come. */
  ghost predicate AllDone(steps: seq<Step>, oks: seq<bool>, left: nat) {
    |oks| <= |steps| && left >= 2 * (|steps| - |oks|) && forall k | 0 <= k < |oks| :: oks[k]
  }

  lemma AnsweredNext(steps: seq<Step>, oks: seq<bool>, responses: seq<seq<byte>>, ok: bool, got: seq<byte>)
    requires AllAnswered(steps, oks, responses) && |oks| < |steps| && Answered(steps[|oks|], ok, got)
    ensures AllAnswered(steps, oks + [ok], responses + [got])
  {
  }

  method PerformAll(t: Membufs, steps: seq<Step>) returns (oks: seq<bool>, responses: seq<seq<byte>>)
    requires t.Valid() && t.granted == [] && t.down.taken == [] && t.replies == t.script
    modifies t, t.b0, t.b0.mem, t.b1, t.b1.mem, t.pend, t.pend.data, t.down, t.down.ring, t.down.ring.data
    ensures t.Valid() && |oks| == |responses| == |steps| && Accounted(t, steps, oks, responses)
    ensures t.granted == Flatten(Frames(Granted(steps, oks)))
    ensures t.Generous() && old(t.Watched()) ==> AllFed(steps, oks, Total(t.script))
  {
    oks, responses := [], [];
    while |oks| < |steps|
      invariant t.Valid() && |oks| == |responses| <= |steps| && Accounted(t, steps, oks, responses)
      invariant t.Generous() && old(t.Watched()) ==> t.Watched() && AllFed(steps, oks, Total(t.script))
    {
      oks, responses := PerformNext(t, steps, oks, responses);
    }
    assert steps[..|steps|] == steps;
  }

  method PerformNext(t: Membufs, steps: seq<Step>, oks: seq<bool>, responses: seq<seq<byte>>)
    returns (oks': seq<bool>, responses': seq<seq<byte>>)
    requires t.Valid() && |oks| == |responses| < |steps| && Accounted(t, steps, oks, responses)
    modifies t, t.b0, t.b0.mem, t.b1, t.b1.mem, t.pend, t.pend.data, t.down, t.down.ring, t.down.ring.data
    ensures t.Valid() && |oks'| == |responses'| == |oks| + 1 && Accounted(t, steps, oks', responses')
    ensures t.Generous() && old(t.Watched()) && AllFed(steps, oks, Total(t.script)) ==>
              t.Watched() && AllFed(steps, oks', Total(t.script))
  {
    ghost var granted, left, taken := t.granted, |t.replies|, t.down.taken;
    ghost var fed := t.Generous() && t.Watched() && AllFed(steps, oks, Total(t.script));
    ghost var easy := MustSucceed(Min(t.b0.mem.Length, t.b1.mem.Length), t.pend.data.Length, t.script, steps);
    if easy {
      EasyStep(t, steps, |oks|);
    }
    var ok, got := Perform(t, steps[|oks|]);
    GrantedStep(granted, steps, oks, ok);
    GotNext(taken, steps, oks, responses, ok, got);
    if easy {
      DoneNext(steps, oks, left, ok, |t.replies|);
    }
    if fed {
      FedNext(steps, oks, Total(t.script), ok, |taken|, |t.down.taken|, got);
    }
    oks', responses' := oks + [ok], responses + [got];
  }

  lemma DoneNext(steps: seq<Step>, oks: seq<bool>, left: nat, ok: bool, left': nat)
    requires AllDone(steps, oks, left) && |oks| < |steps| && ok && left' + 2 >= left
    ensures AllDone(steps, oks + [ok], left')
  {
  }

  lemma EasyStep(t: Membufs, steps: seq<Step>, k: nat)
    requires k < |steps| && MustSucceed(Min(t.b0.mem.Length, t.b1.mem.Length), t.pend.data.Length, t.script, steps)
    ensures t.Easy() && Simple(steps[k], Min(t.b0.mem.Length, t.b1.mem.Length))
  {
  }

  method Perform(t: Membufs, step: Step) returns (ok: bool, got: seq<byte>)
    requires t.Valid()
    modifies t, t.b0, t.b0.mem, t.b1, t.b1.mem, t.pend, t.pend.data, t.down, t.down.ring, t.down.ring.data
    ensures t.Valid()
    ensures t.granted == if step.Traced? then Extended(old(t.granted), ok, Encode(step.packet)) else old(t.granted)
    ensures t.down.taken == old(t.down.taken) + got && Answered(step, ok, got)
    ensures t.Easy() && |old(t.replies)| >= 2 && Simple(step, Min(t.b0.mem.Length, t.b1.mem.Length)) ==>
              ok && |t.replies| + 2 >= |old(t.replies)|
    ensures step.Flushed? ==> (ok <==> t.Current().marker <= step.minSz)
    ensures old(t.Watched()) ==> t.Watched()
    ensures t.Generous() && old(t.Watched()) && step.Responded? && !ok ==> |t.down.taken| == Total(t.script)
  {
    got := [];
    match step {
      case Traced(packet) =>
        ok := t.Trace(packet);
      case Flushed(minSz) =>
        ok := t.Flush(minSz);
      case Responded(size) =>
        ok, got := Respond(t, size);
    }
  }

  method Respond(t: Membufs, size: nat) returns (ok: bool, got: seq<byte>)
    requires t.Valid()
    modifies t, t.b0, t.b0.mem, t.b1, t.b1.mem, t.pend, t.pend.data, t.down, t.down.ring, t.down.ring.data
    ensures t.Valid() && t.granted == old(t.granted)
    ensures t.down.taken == old(t.down.taken) + got && |got| <= size && (ok <==> |got| == size)
    ensures old(t.Watched()) ==> t.Watched() && (t.Generous() && !ok ==> |t.down.taken| == Total(t.script))
  {
    var buf := new byte[size];
    var total;
    ok, total := t.ReceiveResponse(buf);
    got := buf[..total];
  }
}
