/** The LCD data path (i2s_lcd_esp32s2_driver.c): data is copied into one half of
    a buffer while DMA sends the other half by walking its descriptor chain. */
module LcdWriter {
  import opened Arithmetic
  import opened Bytes

  datatype Descriptor = Descriptor(length: nat, buf: nat, eof: bool, next: Option<nat>)

  // What DMA sends

  /** Links lead forward and buffers lie in memory. */
  ghost predicate Walkable(dma: seq<Descriptor>, total: nat) {
    forall i | 0 <= i < |dma| ::
      && dma[i].buf + dma[i].length <= total
      && (dma[i].next.Some? ==> i < dma[i].next.value < |dma|)
  }

  /** The bytes DMA reads when started at descriptor i. */
  function Walk(dma: seq<Descriptor>, mem: seq<byte>, i: nat): seq<byte>
    requires Walkable(dma, |mem|) && i < |dma|
    decreases |dma| - i
  {
    var d := dma[i];
    mem[d.buf..d.buf + d.length] + (if d.next.None? then [] else Walk(dma, mem, d.next.value))
  }

  /** The end-of-transfer interrupts DMA raises on the way. */
  function Interrupts(dma: seq<Descriptor>, total: nat, i: nat): nat
    requires Walkable(dma, total) && i < |dma|
    decreases |dma| - i
  {
    (if dma[i].eof then 1 else 0) + (if dma[i].next.None? then 0 else Interrupts(dma, total, dma[i].next.value))
  }

  /** Descriptors first..last form a chain over the memory from at to end, all but
      the last covering a whole node. */
  ghost predicate IsChain(dma: seq<Descriptor>, node: nat, first: nat, last: nat, at: nat, end: nat)
    decreases last - first
  {
    && first <= last < |dma|
    && if first == last then at <= end <= at + node && dma[first] == Descriptor(end - at, at, true, None)
       else dma[first] == Descriptor(node, at, false, Some(first + 1)) && IsChain(dma, node, first + 1, last, at + node, end)
  }

  /** A chain sends one contiguous stretch of memory and raises one interrupt. */
  lemma {:induction false} ChainSends(dma: seq<Descriptor>, mem: seq<byte>, node: nat, first: nat, last: nat, at: nat, end: nat)
    requires Walkable(dma, |mem|) && IsChain(dma, node, first, last, at, end)
    ensures at <= end <= |mem| && Walk(dma, mem, first) == mem[at..end]
    ensures Interrupts(dma, |mem|, first) == 1
    decreases last - first
  {
    if first < last {
      ChainSends(dma, mem, node, first + 1, last, at + node, end);
      Join(mem, at, at + node, end);
    }
  }

  /** A chain stays one when descriptors outside it change. */
  lemma {:induction false} ChainKept(dma: seq<Descriptor>, dma': seq<Descriptor>, node: nat, first: nat, last: nat, at: nat, end: nat)
    requires IsChain(dma, node, first, last, at, end) && |dma'| == |dma|
    requires forall i | first <= i <= last :: dma'[i] == dma[i]
    ensures IsChain(dma', node, first, last, at, end)
    decreases last - first
  {
    if first < last {
      ChainKept(dma, dma', node, first + 1, last, at + node, end);
    }
  }

  /** Ending a chain after q whole nodes and a part of the next. */
  lemma {:induction false} ChainCut(dma: seq<Descriptor>, node: nat, first: nat, last: nat, at: nat, end: nat, q: nat, size: nat)
    requires IsChain(dma, node, first, last, at, end) && first + q <= last && size <= node
    ensures first + q < |dma|
    ensures IsChain(dma[first + q := dma[first + q].(length := size, eof := true, next := None)],
                    node, first, first + q, at, at + q * node + size)
    decreases q
  {
    var dma' := dma[first + q := dma[first + q].(length := size, eof := true, next := None)];
    if q > 0 {
      ChainCut(dma, node, first + 1, last, at + node, end, q - 1, size);
      assert (q - 1) * node + node == q * node;
    } else {
      assert q * node == 0;
    }
  }

  // What is to be sent

  /** Bytes of each pair exchanged; the last byte of an odd number stays. */
  function Swapped(swap: bool, s: seq<byte>): (r: seq<byte>)
    ensures |r| == |s|
  {
    if !swap || |s| < 2 then s else [s[1], s[0]] + Swapped(swap, s[2..])
  }

  lemma {:induction false} SwappedConcat(swap: bool, a: seq<byte>, b: seq<byte>)
    requires swap ==> |a| % 2 == 0
    ensures Swapped(swap, a + b) == Swapped(swap, a) + Swapped(swap, b)
  {
    if swap && a != [] {
      SwappedConcat(swap, a[2..], b);
      assert (a + b)[2..] == a[2..] + b;
    } else {
      assert a == [] ==> a + b == b;
    }
  }

  /** Where each byte goes: to the other place of its pair, or nowhere. */
  lemma {:induction false} SwappedAt(swap: bool, s: seq<byte>, i: nat)
    requires i < |s|
    ensures Swapped(swap, s)[i] == if !swap || (i % 2 == 0 && i + 1 == |s|) then s[i]
                                   else if i % 2 == 0 then s[i + 1] else s[i - 1]
  {
    if swap && i >= 2 {
      SwappedAt(swap, s[2..], i - 2);
    }
  }

  // The descriptors

  /** A descriptor as the loop of lcd_dma_set_int fills it in. */
  function Linked(node: nat, halfNodes: nat, x: nat): Descriptor
    requires halfNodes > 0
  {
    Descriptor(node, node * x, (x + 1) % halfNodes == 0, Some((x + 1) % (2 * halfNodes)))
  }

  /** lcd_dma_set_int: two chains, one over each half of the buffer. */
  method SetInt(dma: array<Descriptor>, node: nat, halfNodes: nat)
    requires halfNodes > 0 && dma.Length == 2 * halfNodes
    modifies dma
    ensures IsChain(dma[..], node, 0, halfNodes - 1, 0, node * halfNodes)
    ensures IsChain(dma[..], node, halfNodes, 2 * halfNodes - 1, node * halfNodes, 2 * (node * halfNodes))
  {
    var count := 2 * halfNodes;
    for x := 0 to count
      invariant forall i | 0 <= i < x :: dma[i] == Linked(node, halfNodes, i)
    {
      dma[x] := Linked(node, halfNodes, x);
    }
    dma[halfNodes - 1] := dma[halfNodes - 1].(next := None);
    dma[count - 1] := dma[count - 1].(next := None);
    LinkedChain(dma[..], node, halfNodes, 0, halfNodes - 1);
    LinkedChain(dma[..], node, halfNodes, halfNodes, count - 1);
    Doubled(node, halfNodes);
  }

  lemma Doubled(a: nat, b: nat)
    ensures a * 0 == 0 && a * (2 * b) == 2 * (a * b)
  {
  }

  lemma {:induction false} LinkedChain(dma: seq<Descriptor>, node: nat, halfNodes: nat, first: nat, last: nat)
    requires halfNodes > 0 && |dma| == 2 * halfNodes
    requires last == halfNodes - 1 || last == 2 * halfNodes - 1
    requires first <= last < first + halfNodes
    requires forall i | first <= i < last :: dma[i] == Linked(node, halfNodes, i)
    requires dma[last] == Linked(node, halfNodes, last).(next := None)
    ensures IsChain(dma, node, first, last, node * first, node * (last + 1))
    decreases last - first
  {
    HalfEnds(first, halfNodes);
    assert node * (first + 1) == node * first + node;
    if first < last {
      DivModUnique(first + 1, 2 * halfNodes, 0, first + 1);
      LinkedChain(dma, node, halfNodes, first + 1, last);
    }
  }

  lemma HalfEnds(i: nat, n: nat)
    requires n > 0 && i < 2 * n
    ensures (i + 1) % n == 0 <==> i == n - 1 || i == 2 * n - 1
  {
    if i + 1 < n {
      DivModUnique(i + 1, n, 0, i + 1);
    } else if i + 1 == n {
      DivModUnique(i + 1, n, 1, 0);
    } else if i + 1 < 2 * n {
      DivModUnique(i + 1, n, 1, i + 1 - n);
    } else {
      DivModUnique(i + 1, n, 2, 0);
    }
  }

  /** lcd_dma_set_left: cuts the chain of the half starting at node first so that
      it covers len bytes. */
  method SetLeft(dma: array<Descriptor>, node: nat, halfNodes: nat, first: nat, len: nat, ghost at: nat, ghost end: nat)
    returns (last: nat)
    requires node > 0 && 0 < len < node * halfNodes && first + halfNodes <= dma.Length
    requires IsChain(dma[..], node, first, first + halfNodes - 1, at, end)
    modifies dma
    ensures first <= last < first + halfNodes && IsChain(dma[..], node, first, last, at, at + len)
    ensures forall i | 0 <= i < dma.Length && i != last :: dma[i] == old(dma[i])
  {
    LeftNodes(len, node, halfNodes);
    var q, size := len / node, len % node;
    if size == 0 {
      q, size := q - 1, node;
    }
    ChainCut(dma[..], node, first, first + halfNodes - 1, at, end, q, size);
    last := first + q;
    dma[last] := dma[last].(length := size, eof := true, next := None);
    assert dma[..] == old(dma[..])[last := dma[last]];
  }

  lemma LeftNodes(len: nat, node: nat, halfNodes: nat)
    requires node > 0 && 0 < len < node * halfNodes
    ensures len == len / node * node + len % node && len / node < halfNodes
    ensures len % node == 0 ==> 0 < len / node && len == (len / node - 1) * node + node
  {
    QuotientBelow(len, node, halfNodes);
    OneLess(len / node, node);
  }

  // Filling the buffer

  /** Copies data to offset at, pairs exchanged if asked. */
  method FillWhole(mem: array<byte>, at: nat, data: seq<byte>, swap: bool)
    requires at + |data| <= mem.Length && (swap ==> |data| % 4 == 0)
    modifies mem
    ensures mem[at..at + |data|] == Swapped(swap, data)
    ensures forall i | 0 <= i < at || at + |data| <= i < mem.Length :: mem[i] == old(mem[i])
  {
    if swap {
      FillSwapped(mem, at, data);
    } else {
      PutBytes(mem, at, data);
    }
  }

  /** The unrolled loop, two pairs a round. */
  method FillSwapped(mem: array<byte>, at: nat, data: seq<byte>)
    requires at + |data| <= mem.Length && |data| % 4 == 0
    modifies mem
    ensures mem[at..at + |data|] == Swapped(true, data)
    ensures forall i | 0 <= i < at || at + |data| <= i < mem.Length :: mem[i] == old(mem[i])
  {
    var y := 0;
    while y < |data|
      invariant y <= |data| && y % 4 == 0
      invariant mem[at..at + y] == Swapped(true, data[..y])
      invariant forall i | 0 <= i < at || at + |data| <= i < mem.Length :: mem[i] == old(mem[i])
    {
      PutPairs(mem, at, y, data);
      y := y + 4;
    }
    assert data[..|data|] == data;
  }

  /** One round of the unrolled loop. */
  method PutPairs(mem: array<byte>, at: nat, y: nat, data: seq<byte>)
    requires y + 4 <= |data| && at + |data| <= mem.Length && y % 2 == 0
    requires mem[at..at + y] == Swapped(true, data[..y])
    modifies mem
    ensures mem[at..at + y + 4] == Swapped(true, data[..y + 4])
    ensures forall i | 0 <= i < at || at + y + 4 <= i < mem.Length :: mem[i] == old(mem[i])
  {
    PutPair(mem, at, y, data);
    PutPair(mem, at, y + 2, data);
  }

  /** One exchanged pair behind those already there. */
  method PutPair(mem: array<byte>, at: nat, y: nat, data: seq<byte>)
    requires y + 2 <= |data| && at + |data| <= mem.Length && y % 2 == 0
    requires mem[at..at + y] == Swapped(true, data[..y])
    modifies mem
    ensures mem[at..at + y + 2] == Swapped(true, data[..y + 2])
    ensures forall i | 0 <= i < at || at + y + 2 <= i < mem.Length :: mem[i] == old(mem[i])
  {
    ghost var pair := [data[y], data[y + 1]];
    SwappedConcat(true, data[..y], pair);
    assert data[..y + 2] == data[..y] + pair;
    mem[at + y + 1] := data[y];
    mem[at + y] := data[y + 1];
    assert pair[2..] == [];
    assert mem[at..at + y] == Swapped(true, data[..y]);
    assert mem[at..at + y + 2] == mem[at..at + y] + [data[y + 1], data[y]];
  }

  method PutBytes(mem: array<byte>, at: nat, data: seq<byte>)
    requires at + |data| <= mem.Length
    modifies mem
    ensures mem[at..at + |data|] == data
    ensures forall i | 0 <= i < at || at + |data| <= i < mem.Length :: mem[i] == old(mem[i])
  {
    for k := 0 to |data|
      invariant mem[at..at + k] == data[..k]
      invariant forall i | 0 <= i < at || at + k <= i < mem.Length :: mem[i] == old(mem[i])
    {
      mem[at + k] := data[k];
    }
  }

  /** The even number of bytes among the remaining ones. */
  method FillEven(mem: array<byte>, at: nat, data: seq<byte>, cnt: nat, swap: bool)
    requires at + |data| <= mem.Length && cnt <= |data| && cnt % 2 == 0
    modifies mem
    ensures mem[at..at + cnt] == Swapped(swap, data[..cnt])
    ensures forall i | 0 <= i < at || at + |data| <= i < mem.Length :: mem[i] == old(mem[i])
  {
    if swap {
      var y := 0;
      while y < cnt
        invariant y <= cnt && y % 2 == 0
        invariant mem[at..at + y] == Swapped(true, data[..y])
        invariant forall i | 0 <= i < at || at + |data| <= i < mem.Length :: mem[i] == old(mem[i])
      {
        PutPair(mem, at, y, data);
        y := y + 2;
      }
    } else {
      PutBytes(mem, at, data[..cnt]);
    }
  }

  /** The remaining bytes: pairs, then a last odd byte. */
  method FillLeft(mem: array<byte>, at: nat, data: seq<byte>, swap: bool)
    requires at + |data| <= mem.Length
    modifies mem
    ensures mem[at..at + |data|] == Swapped(swap, data)
    ensures forall i | 0 <= i < at || at + |data| <= i < mem.Length :: mem[i] == old(mem[i])
  {
    var cnt := |data| - |data| % 2;
    FillEven(mem, at, data, cnt, swap);
    ghost var even := mem[at..at + cnt];
    SwappedConcat(swap, data[..cnt], data[cnt..]);
    assert data == data[..cnt] + data[cnt..];
    if |data| % 2 != 0 {
      mem[at + cnt] := data[cnt];
      assert mem[at..at + |data|] == even + [data[cnt]];
    } else {
      assert Swapped(swap, data[cnt..]) == [];
    }
  }

  // The transfer

  lemma {:induction false} ChainBounds(dma: seq<Descriptor>, node: nat, first: nat, last: nat, at: nat, end: nat)
    requires IsChain(dma, node, first, last, at, end)
    ensures at <= end
    ensures forall i | first <= i <= last ::
              dma[i].buf + dma[i].length <= end && (dma[i].next.Some? ==> i < dma[i].next.value <= last)
    decreases last - first
  {
    if first < last {
      ChainBounds(dma, node, first + 1, last, at + node, end);
    }
  }

  /** k halves and the bytes left over. */
  ghost function Remaining(k: nat, half: nat, left: nat): nat {
    k * half + left
  }

  lemma RemainingStep(k: nat, half: nat, left: nat)
    requires k > 0
    ensures Remaining(k, half, left) == Remaining(k - 1, half, left) + half
  {
  }

  lemma NoneRemaining(half: nat, left: nat)
    ensures Remaining(0, half, left) == left
  {
  }

  /** How many halves the data fills, and the bytes left over. */
  method Pieces(len: nat, half: nat) returns (cnt: nat, left: nat)
    requires half > 0
    ensures len == Remaining(cnt, half, left) && left < half
  {
    cnt, left := len / half, len % half;
  }

  lemma NextParity(x: nat, n: nat, half: nat)
    ensures (x + 1) % 2 == 1 - x % 2
    ensures n % 2 == 0 && half % 4 == 0 ==> (n + half) % 2 == 0
  {
    if x % 2 == 0 {
      DivModUnique(x + 1, 2, x / 2, 1);
    } else {
      DivModUnique(x + 1, 2, x / 2 + 1, 0);
    }
    if n % 2 == 0 && half % 4 == 0 {
      DivModUnique(n + half, 2, n / 2 + 2 * (half / 4), 0);
    }
  }

  class Lcd {
    const node: nat
    const halfNodes: nat
    const half: nat
    const swap: bool
    const dma: array<Descriptor>
    const mem: array<byte>
    /** Entries in the event queue. */
    var events: nat
    /** The descriptor DMA was started at, until its interrupt is received. */
    var running: Option<nat>
    /** The bytes DMA has sent. */
    var sent: seq<byte>

    ghost predicate Valid() {
      && node > 0 && halfNodes > 0 && half == node * halfNodes && half > 0
      && dma.Length == 2 * halfNodes && mem.Length == 2 * half
      && (swap ==> half % 4 == 0)
    }

    ghost predicate Idle()
      reads this
    {
      events == 0 && running.None?
    }

    constructor (node: nat, halfNodes: nat, swap: bool)
      requires node > 0 && halfNodes > 0 && (swap ==> node * halfNodes % 4 == 0)
      ensures Valid() && Idle() && sent == [] && this.swap == swap && fresh(dma) && fresh(mem)
    {
      AtLeastOnce(halfNodes, node);
      this.node, this.halfNodes, this.half, this.swap := node, halfNodes, node * halfNodes, swap;
      dma := new Descriptor[2 * halfNodes](_ => Descriptor(0, 0, false, None));
      mem := new byte[2 * (node * halfNodes)](_ => 0);
      events, running, sent := 0, None, [];
    }

    /** The node and the offset where half h starts. */
    function FirstNode(h: nat): nat {
      if h == 0 then 0 else halfNodes
    }

    function Offset(h: nat): nat {
      if h == 0 then 0 else half
    }

    /** The descriptors of half h up to last send its first len bytes. */
    ghost predicate Sends(h: nat, last: nat, len: nat)
      reads dma
    {
      IsChain(dma[..], node, FirstNode(h), last, Offset(h), Offset(h) + len)
    }

    /** The descriptors of half h send all of it. */
    ghost predicate SendsAll(h: nat)
      reads dma
    {
      halfNodes > 0 && Sends(h, FirstNode(h) + halfNodes - 1, half)
    }

    /** lcd_i2s_start. */
    method Start(h: nat)
      requires running.None?
      modifies `running
      ensures running == Some(FirstNode(h))
    {
      running := Some(FirstNode(h));
    }

    /** xQueueReceive: an event already queued, else the interrupt at the end of
        the transfer under way, whose bytes are then all sent. */
    method Receive(ghost h: nat, ghost last: nat, ghost len: nat)
      requires Valid() && Walkable(dma[..], mem.Length)
      requires events > 0 || (running == Some(FirstNode(h)) && Sends(h, last, len))
      modifies `events, `running, `sent
      ensures old(events) > 0 ==> events == old(events) - 1 && running == old(running) && sent == old(sent)
      ensures old(events) == 0 ==> events == 0 && running.None? && Offset(h) + len <= mem.Length
                                   && sent == old(sent) + mem[Offset(h)..Offset(h) + len]
    {
      if events > 0 {
        events := events - 1;
      } else {
        ChainSends(dma[..], mem[..], node, FirstNode(h), last, Offset(h), Offset(h) + len);
        sent := sent + Walk(dma[..], mem[..], running.value);
        assert mem[..][Offset(h)..Offset(h) + len] == mem[Offset(h)..Offset(h) + len];
        running := None;
      }
    }

    /** Half h is free. At the start of a transfer the start signal is queued; later
        DMA is sending the other half, and what is sent or being sent is the data
        so far. */
    ghost predicate Streaming(h: nat, started: bool, sentBefore: seq<byte>, data: seq<byte>)
      reads this, dma, mem
    {
      && Valid() && Walkable(dma[..], mem.Length) && SendsAll(0) && SendsAll(1) && h <= 1
      && if !started then events == 1 && running.None? && sent == sentBefore && data == []
         else events == 0 && running == Some(FirstNode(1 - h))
              && sent + mem[Offset(1 - h)..Offset(1 - h) + half] == sentBefore + Swapped(swap, data)
    }

    /** The end of the transfer of the other half, or the start signal, is awaited
        and the transfer of half h started. */
    method Proceed(h: nat, ghost started: bool)
      requires h <= 1 && Valid() && Walkable(dma[..], mem.Length) && SendsAll(1 - h)
      requires if started then events == 0 && running == Some(FirstNode(1 - h)) else events == 1 && running.None?
      modifies `events, `running, `sent
      ensures events == 0 && running == Some(FirstNode(h)) && Offset(1 - h) + half <= mem.Length
      ensures sent == if started then old(sent) + mem[Offset(1 - h)..Offset(1 - h) + half] else old(sent)
    {
      Receive(1 - h, FirstNode(1 - h) + halfNodes - 1, half);
      Start(h);
    }

    /** The free half is filled while the other is sent; the end of that transfer is
        awaited; the transfer of the new half is started. */
    method SendPiece(h: nat, piece: seq<byte>, ghost started: bool, ghost sentBefore: seq<byte>, ghost data: seq<byte>)
      requires Streaming(h, started, sentBefore, data) && |piece| == half && (swap ==> |data| % 2 == 0)
      modifies `events, `running, `sent, mem
      ensures Streaming(1 - h, true, sentBefore, data + piece)
    {
      FillWhole(mem, Offset(h), piece, swap);
      assert mem[Offset(1 - h)..Offset(1 - h) + half] == old(mem[Offset(1 - h)..Offset(1 - h) + half]);
      SentMore(swap, sentBefore, data, piece);
      Proceed(h, started);
    }

    /** The piece that does not fill a half: its chain is cut to length. */
    method SendLeft(h: nat, piece: seq<byte>, ghost started: bool, ghost sentBefore: seq<byte>, ghost data: seq<byte>)
      returns (ghost last: nat)
      requires Streaming(h, started, sentBefore, data) && 0 < |piece| < half && (swap ==> |data| % 2 == 0)
      modifies `events, `running, `sent, mem, dma
      ensures Walkable(dma[..], mem.Length) && Sends(h, last, |piece|)
      ensures events == 0 && running == Some(FirstNode(h)) && Offset(h) + |piece| <= mem.Length
      ensures sent + mem[Offset(h)..Offset(h) + |piece|] == sentBefore + Swapped(swap, data + piece)
    {
      FillLeft(mem, Offset(h), piece, swap);
      assert mem[Offset(1 - h)..Offset(1 - h) + half] == old(mem[Offset(1 - h)..Offset(1 - h) + half]);
      last := CutChain(h, |piece|);
      SentMore(swap, sentBefore, data, piece);
      Proceed(h, started);
    }

    method CutChain(h: nat, len: nat) returns (last: nat)
      requires h <= 1 && Valid() && Walkable(dma[..], mem.Length) && SendsAll(h) && SendsAll(1 - h) && 0 < len < half
      modifies dma
      ensures Walkable(dma[..], mem.Length) && Sends(h, last, len) && SendsAll(1 - h)
    {
      ghost var was := dma[..];
      last := SetLeft(dma, node, halfNodes, FirstNode(h), len, Offset(h), Offset(h) + half);
      ChainBounds(dma[..], node, FirstNode(h), last, Offset(h), Offset(h) + len);
      ChainKept(was, dma[..], node, FirstNode(1 - h), FirstNode(1 - h) + halfNodes - 1, Offset(1 - h), Offset(1 - h) + half);
    }

    /** i2s_write_data: sends the data, pairs of bytes exchanged if so configured;
        on return all of it is sent and no event is left. */
    method WriteData(data: seq<byte>)
      requires Valid() && Idle()
      modifies this, dma, mem
      ensures Idle() && sent == old(sent) + Swapped(swap, data)
    {
      if data == [] {
        assert Swapped(swap, data) == [];
        return;
      }
      Begin();
      assert data[|data| - |data|..] == data && data[..0] == [];
      var rest, x := SendWhole(data);
      Finish(x % 2, rest, x > 0, old(sent), data[..|data| - |rest|]);
      assert data[..|data| - |rest|] + rest == data;
    }

    /** The data but for the rest is sent, or being sent, in x pieces. */
    ghost predicate SentBut(x: nat, rest: seq<byte>, data: seq<byte>, sentBefore: seq<byte>)
      reads this, dma, mem
    {
      && |rest| <= |data| && rest == data[|data| - |rest|..] && (x == 0 ==> rest == data)
      && (swap ==> (|data| - |rest|) % 2 == 0)
      && Streaming(x % 2, x > 0, sentBefore, data[..|data| - |rest|])
    }

    /** The pieces that fill a half, in ping-pong. */
    method SendWhole(data: seq<byte>) returns (rest: seq<byte>, x: nat)
      requires SentBut(0, data, data, sent)
      modifies `events, `running, `sent, mem
      ensures |rest| < half && SentBut(x, rest, data, old(sent))
    {
      var cnt, left := Pieces(|data|, half);
      rest, x := data, 0;
      while x < cnt
        invariant x <= cnt && |rest| == Remaining(cnt - x, half, left)
        invariant SentBut(x, rest, data, old(sent))
      {
        RemainingStep(cnt - x, half, left);
        rest := SendNext(x, rest, data, old(sent));
        x := x + 1;
      }
      NoneRemaining(half, left);
    }

    method SendNext(x: nat, rest: seq<byte>, ghost data: seq<byte>, ghost sentBefore: seq<byte>) returns (rest': seq<byte>)
      requires SentBut(x, rest, data, sentBefore) && |rest| >= half
      modifies `events, `running, `sent, mem
      ensures rest' == rest[half..] && SentBut(x + 1, rest', data, sentBefore)
    {
      ghost var done := data[..|data| - |rest|];
      NextParity(x, |done|, half);
      SendPiece(x % 2, rest[..half], x > 0, sentBefore, done);
      rest' := rest[half..];
      assert done + rest[..half] == data[..|data| - |rest'|];
    }

    /** The descriptors are reset and the start signal queued. */
    method Begin()
      requires Valid() && Idle()
      modifies `events, dma
      ensures Streaming(0, false, sent, [])
    {
      SetInt(dma, node, halfNodes);
      ChainBounds(dma[..], node, 0, halfNodes - 1, 0, half);
      ChainBounds(dma[..], node, halfNodes, 2 * halfNodes - 1, half, 2 * half);
      events := 1;
    }

    /** The rest is sent, and the end of the last transfer awaited. */
    method Finish(h: nat, rest: seq<byte>, ghost started: bool, ghost sentBefore: seq<byte>, ghost data: seq<byte>)
      requires Streaming(h, started, sentBefore, data) && |rest| < half && (swap ==> |data| % 2 == 0)
      requires started || rest != []
      modifies `events, `running, `sent, mem, dma
      ensures Idle() && sent == sentBefore + Swapped(swap, data + rest)
    {
      if rest != [] {
        ghost var last := SendLeft(h, rest, started, sentBefore, data);
        Receive(h, last, |rest|);
      } else {
        assert data + rest == data;
        Receive(1 - h, FirstNode(1 - h) + halfNodes - 1, half);
      }
    }
  }

  lemma SentMore(swap: bool, sentBefore: seq<byte>, data: seq<byte>, piece: seq<byte>)
    requires swap ==> |data| % 2 == 0
    ensures (sentBefore + Swapped(swap, data)) + Swapped(swap, piece) == sentBefore + Swapped(swap, data + piece)
    ensures data == [] ==> sentBefore + Swapped(swap, data) == sentBefore
  {
    SwappedConcat(swap, data, piece);
    Associate(sentBefore, Swapped(swap, data), Swapped(swap, piece));
  }

  const NODE_MAX: nat := 4000

  /** The sizes lcd_dma_config chooses: the largest whole number of node pairs that
      fits, or two halves of one node each. */
  method ChooseSizes(max: nat) returns (node: nat, buffer: nat, half: nat, halfNodes: nat)
    requires max >= 2
    ensures 0 < node <= NODE_MAX && 0 < halfNodes && half == node * halfNodes && buffer == 2 * half <= max
    ensures max >= 2 * NODE_MAX ==> node == NODE_MAX && half % 4 == 0 && max < buffer + 2 * NODE_MAX
    ensures max < 2 * NODE_MAX ==> half == max / 2 && halfNodes == 1
  {
    if max >= 2 * NODE_MAX {
      node := NODE_MAX;
      buffer := WholePairs(max);
      assert buffer / NODE_MAX == 2 * (buffer / 8000);
      halfNodes := buffer / NODE_MAX / 2;
    } else {
      node := max / 2;
      buffer := 2 * node;
      MulDiv(2, node);
      halfNodes := buffer / node / 2;
    }
    half := buffer / 2;
  }

  /** The search for a buffer size that is a multiple of two nodes. */
  method WholePairs(max: nat) returns (buffer: nat)
    requires max >= 8000
    ensures buffer % 8000 == 0 && 8000 <= buffer <= max < buffer + 8000
  {
    var cnt := 0;
    ghost var r := max % 8000;
    while cnt < max - 8 && (max - cnt) % 8000 != 0
      invariant cnt <= r
    {
      cnt := cnt + 1;
    }
    buffer := max - cnt;
  }

  /** Any sequence of transfers over a buffer of the configured size: DMA sends each
      one's bytes, pairs exchanged if so configured, one transfer after the other. */
  method Run(max: nat, swap: bool, transfers: seq<seq<byte>>) returns (sent: seq<byte>)
    requires max >= 2 && (swap && max < 2 * NODE_MAX ==> max / 2 % 4 == 0)
    ensures sent == Flatten(SwappedAll(swap, transfers))
  {
    var node, buffer, half, halfNodes := ChooseSizes(max);
    var lcd := new Lcd(node, halfNodes, swap);
    for k := 0 to |transfers|
      invariant fresh(lcd) && fresh(lcd.dma) && fresh(lcd.mem) && lcd.Valid() && lcd.Idle() && lcd.swap == swap
      invariant lcd.sent == Flatten(SwappedAll(swap, transfers[..k]))
    {
      lcd.WriteData(transfers[k]);
      FlattenAppend(SwappedAll(swap, transfers[..k]), Swapped(swap, transfers[k]));
      assert SwappedAll(swap, transfers[..k + 1]) == SwappedAll(swap, transfers[..k]) + [Swapped(swap, transfers[k])];
    }
    assert transfers[..|transfers|] == transfers;
    sent := lcd.sent;
  }

  function SwappedAll(swap: bool, transfers: seq<seq<byte>>): seq<seq<byte>> {
    seq(|transfers|, i requires 0 <= i < |transfers| => Swapped(swap, transfers[i]))
  }
}
