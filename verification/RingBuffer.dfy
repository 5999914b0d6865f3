/** The shrinking ring buffer of the application-trace component
    (app_trace_util.c): one contiguous region per grant, with the usable size
    temporarily cut back when a grant has to wrap early. */
module RingBuffer {
  import opened Bytes

  class Ring {
    const data: array<byte>
    var curSize: nat
    var rd: nat
    var wr: nat
    /** The queued bytes, oldest first. */
    ghost var queue: seq<byte>

    ghost predicate Valid()
      reads this, data
    {
      && data.Length <= UINT32_MAX
      && Offsets(data.Length, rd, wr, curSize)
      && queue == Queued(data[..], rd, wr, curSize)
    }

    /** Offset i holds a queued byte. */
    ghost predicate Live(i: int)
      reads this
    {
      if rd <= wr then rd <= i < wr else rd <= i < curSize || 0 <= i < wr
    }

    /** The n youngest queued bytes lie at offsets p .. p+n. */
    ghost predicate Tail(p: nat, n: nat)
      reads this
    {
      IsTail(rd, wr, curSize, p, n)
    }

    constructor (size: nat)
      requires size <= UINT32_MAX
      ensures Valid() && fresh(data)
      ensures data.Length == size && Offset() == Layout(0, 0, size) && queue == []
    {
      data := new byte[size];
      curSize, rd, wr, queue := size, 0, 0, [];
    }

    /** One byte of the store is never used. */
    lemma Bounded()
      requires Valid()
      ensures |queue| < (if data.Length == 0 then 1 else data.Length)
    {
      QueuedLength(data[..], Layout(rd, wr, curSize));
    }

    /** Bytes one Consume call may take. */
    function ReadSize(): (n: nat)
      requires Valid()
      reads this, data
      ensures n <= |queue|
      ensures n == 0 <==> queue == []
      ensures n == |queue| || rd + n == curSize
    {
      QueuedLength(data[..], Layout(rd, wr, curSize));
      if rd <= wr then wr - rd else curSize - rd
    }

    /** Bytes one Produce call may take without shrinking the ring. */
    function WriteSize(): (n: nat)
      requires Valid()
      reads this, data
      ensures |queue| + n < (if data.Length == 0 then 1 else data.Length)
      ensures n == 0 && curSize == data.Length ==> |queue| + 1 >= data.Length
      ensures wr + n + 1 == rd || wr + n == data.Length || (rd == 0 && wr + n + 1 == data.Length)
    {
      QueuedLength(data[..], Layout(rd, wr, curSize));
      if rd <= wr then
        if data.Length - wr > 0 && rd == 0 then data.Length - wr - 1 else data.Length - wr
      else
        rd - wr - 1
    }

    /** A contiguous region of n bytes can be appended: behind the write
        pointer, or from offset 0 when the read pointer leaves room there. */
    ghost predicate CanGrant(n: nat)
      reads this
    {
      Grantable(data.Length, rd, wr, n)
    }

    ghost function Offset(): Layout
      reads this
    {
      Layout(rd, wr, curSize)
    }

    method Produce(n: nat) returns (ptr: Option<nat>)
      requires Valid()
      requires wr + n <= UINT32_MAX
      modifies this`curSize, this`rd, this`wr, this`queue
      ensures Valid()
      ensures ptr.Some? <==> old(CanGrant(n))
      ensures ptr.None? ==> curSize == old(curSize) && rd == old(rd) && wr == old(wr) && queue == old(queue)
      ensures ptr.Some? ==> ptr.value + n <= data.Length && Tail(ptr.value, n)
      ensures ptr.Some? ==> forall i | ptr.value <= i < ptr.value + n :: !old(Live(i))
      ensures ptr.Some? ==> queue == old(queue) + data[ptr.value..ptr.value + n]
      // behind the write pointer, one byte short of the next live one or of the end
      ensures old(wr) + n < data.Length && (forall i | old(wr) <= i <= old(wr) + n :: !old(Live(i))) ==> ptr.Some?
      // up to the end, or wrapping early to the start
      ensures old(rd) <= old(wr) && old(wr) + n == data.Length && old(rd) > 0 ==> ptr.Some?
      ensures old(rd) <= old(wr) && n < old(rd) ==> ptr.Some?
      ensures ptr.Some? && ptr.value != old(wr) ==>
                ptr.value == 0 && n < old(rd) <= old(wr) && (old(rd) < old(wr) ==> curSize == old(wr))
      ensures ptr.Some? ==> Offset() == AfterGrant(data.Length, old(Offset()), n)
      ensures 0 < n <= old(WriteSize()) ==> ptr.Some? && curSize == old(curSize)
    {
      GrantLaw(n);
      ptr := Extend(n);
    }

    /** Where a grant fits. */
    lemma GrantLaw(n: nat)
      requires Offsets(data.Length, rd, wr, curSize)
      ensures wr + n < data.Length && (forall i | wr <= i <= wr + n :: !Live(i)) ==> CanGrant(n)
      ensures rd <= wr && ((wr + n == data.Length && rd > 0) || n < rd) ==> CanGrant(n)
    {
      assert rd > wr ==> Live(rd);
    }

    /** The grant and its region in the queue. */
    method Extend(n: nat) returns (ptr: Option<nat>)
      requires Valid()
      modifies this`curSize, this`rd, this`wr, this`queue
      ensures Valid()
      ensures ptr.Some? <==> old(CanGrant(n))
      ensures ptr.None? ==> curSize == old(curSize) && rd == old(rd) && wr == old(wr) && queue == old(queue)
      ensures ptr.Some? ==> ptr.value + n <= data.Length
      ensures ptr.Some? ==> Grant(data.Length, old(rd), old(wr), old(curSize), n, ptr.value, rd, wr, curSize)
      ensures ptr.Some? ==> queue == old(queue) + data[ptr.value..ptr.value + n]
    {
      ptr := Reserve(n);
      if ptr.Some? {
        var p := ptr.value;
        QueuedBack(data[..], old(rd), old(wr), old(curSize), n, p, rd, wr, curSize);
        assert data[p..p + n] == data[..][p..p + n];
        queue := queue + data[p..p + n];
      }
    }

    /** The moves of the pointers and the usable size in a grant. */
    method Reserve(n: nat) returns (ptr: Option<nat>)
      requires Offsets(data.Length, rd, wr, curSize)
      modifies this`curSize, this`rd, this`wr
      ensures ptr.Some? <==> old(CanGrant(n))
      ensures ptr.None? ==> curSize == old(curSize) && rd == old(rd) && wr == old(wr)
      ensures ptr.Some? ==> Grant(data.Length, old(rd), old(wr), old(curSize), n, ptr.value, rd, wr, curSize)
    {
      var p := wr;
      if rd <= wr {
        if wr + n >= data.Length {
          if rd == 0 {
            return None;
          }
          if wr + n == data.Length {
            wr := 0;
          } else {
            if n > rd - 1 {
              return None;
            }
            curSize := wr;
            wr := 0;
            p := 0;
            if rd == curSize {
              rd := 0;
              if curSize < data.Length {
                curSize := data.Length;
              }
            }
            wr := wr + n;
          }
        } else {
          wr := wr + n;
        }
      } else {
        if n > rd - wr - 1 {
          return None;
        }
        wr := wr + n;
      }
      return Some(p);
    }

    method Consume(n: nat) returns (ptr: Option<nat>)
      requires Valid()
      requires rd + n <= UINT32_MAX
      modifies this`curSize, this`rd, this`queue
      ensures Valid()
      ensures ptr.Some? <==> n <= old(ReadSize())
      ensures ptr.None? ==> curSize == old(curSize) && rd == old(rd) && queue == old(queue)
      ensures ptr.Some? ==> ptr.value + n <= data.Length
      ensures ptr.Some? ==> data[ptr.value..ptr.value + n] == old(queue)[..n]
      ensures ptr.Some? ==> queue == old(queue)[n..]
      ensures ptr.Some? ==> Offset() == AfterRead(data.Length, old(Offset()), n)
      ensures old(curSize) == data.Length ==> curSize == data.Length
    {
      ghost var d, at := data[..], Offset();
      ptr := Release(n);
      assert data[..] == d;
      if ptr.Some? {
        QueuedRest(d, queue, at, n);
        assert data[at.rd..at.rd + n] == d[at.rd..at.rd + n];
        queue := queue[n..];
      }
    }

    /** A read: the n oldest bytes. */
    method Remove(n: nat) returns (bytes: seq<byte>)
      requires Valid() && n <= ReadSize() && rd + n <= UINT32_MAX
      modifies this`curSize, this`rd, this`queue
      ensures Valid() && n <= |old(queue)|
      ensures bytes == old(queue)[..n] && queue == old(queue)[n..]
      ensures old(curSize) == data.Length ==> curSize == data.Length
    {
      var ptr := Consume(n);
      bytes := data[ptr.value..ptr.value + n];
    }

    /** The moves of the read pointer and the usable size. */
    method Release(n: nat) returns (ptr: Option<nat>)
      requires Offsets(data.Length, rd, wr, curSize)
      modifies this`curSize, this`rd
      ensures ptr.Some? <==> n <= old(Offset()).Readable()
      ensures ptr.None? ==> curSize == old(curSize) && rd == old(rd)
      ensures old(curSize) == data.Length ==> curSize == data.Length
      ensures ptr.Some? ==> ptr.value == old(rd) && Offset() == AfterRead(data.Length, old(Offset()), n)
    {
      var p := rd;
      if rd <= wr {
        if rd + n > wr {
          return None;
        }
        rd := rd + n;
      } else {
        if rd + n > curSize {
          return None;
        } else if rd + n == curSize {
          if curSize < data.Length {
            curSize := data.Length;
          }
          rd := 0;
        } else {
          rd := rd + n;
        }
      }
      return Some(p);
    }

    /** The caller's memcpy into a region it was granted: exactly the youngest
        bytes change. */
    method Fill(p: nat, bytes: seq<byte>)
      requires Valid() && p + |bytes| <= data.Length
      requires Tail(p, |bytes|)
      modifies data, this`queue
      ensures Valid()
      ensures |bytes| <= |old(queue)| && queue == Spliced(old(queue), bytes)
    {
      ghost var was := data[..];
      Copy(data, p, bytes);
      assert data[..][p..p + |bytes|] == data[p..p + |bytes|];
      SpliceTail(was, data[..], rd, wr, curSize, p, bytes);
      queue := Spliced(queue, bytes);
    }

    /** A grant followed by the caller's memcpy. */
    method Store(bytes: seq<byte>) returns (ptr: Option<nat>)
      requires Valid()
      requires wr + |bytes| <= UINT32_MAX
      modifies this`curSize, this`rd, this`wr, this`queue, data
      ensures Valid()
      ensures ptr.Some? <==> old(CanGrant(|bytes|))
      ensures ptr.None? ==> queue == old(queue) && Offset() == old(Offset())
      ensures ptr.Some? ==> queue == old(queue) + bytes && Offset() == AfterGrant(data.Length, old(Offset()), |bytes|)
      ensures 0 < |bytes| <= old(WriteSize()) ==> ptr.Some? && curSize == old(curSize)
    {
      ghost var before := queue;
      ptr := Produce(|bytes|);
      if ptr.Some? {
        Fill(ptr.value, bytes);
        assert queue[..|before|] == before;
      }
    }
  }

  /** The bytes queued between rd and wr of a store d whose usable size is cur, read
      one by one. */
  function Queued(d: seq<byte>, rd: nat, wr: nat, cur: nat): seq<byte>
    requires Offsets(|d|, rd, wr, cur)
    decreases if rd <= wr then wr - rd else cur - rd + wr
  {
    if rd == wr then []
    else if rd < wr || rd + 1 < cur then [d[rd]] + Queued(d, rd + 1, wr, cur)
    else [d[rd]] + Queued(d, 0, wr, |d|)
  }

  /** The same in at most two stretches. */
  function Flat(d: seq<byte>, rd: nat, wr: nat, cur: nat): seq<byte>
    requires Offsets(|d|, rd, wr, cur)
  {
    if rd <= wr then d[rd..wr] else d[rd..cur] + d[..wr]
  }

  /** Offsets of a ring of the given size: the usable size is cut back only while
      the queue wraps. */
  ghost predicate Offsets(size: nat, rd: nat, wr: nat, cur: nat) {
    if rd <= wr then cur == size && (wr < size || wr == 0) else rd < cur <= size
  }

  /** A grown queue past its early wrap and back: the usable size is cut to the write
      pointer, and restored when the read pointer wraps. */
  method ShrinkAndRestore() returns (shrunk: nat, restored: nat, at: Option<nat>)
    ensures shrunk == 8 && restored == 10 && at == Some(0)
  {
    var ring := new Ring(10);
    var p := ring.Produce(8);
    var q := ring.Consume(5);
    at := ring.Produce(4);
    shrunk := ring.curSize;
    q := ring.Consume(3);
    restored := ring.curSize;
  }

  /** A grant of n bytes at p: behind the write pointer, up to the end of the store,
      or at its start with the usable size cut back. */
  ghost predicate Grant(size: nat, rd: nat, wr: nat, cur: nat, n: nat, p: nat, rd': nat, wr': nat, cur': nat) {
    if rd > wr then p == wr && wr + n < rd && rd' == rd && wr' == wr + n && cur' == cur
    else if wr + n < size then p == wr && rd' == rd && wr' == wr + n && cur' == cur
    else if wr + n == size then p == wr && rd' == rd > 0 && wr' == 0 && cur' == cur
    else p == 0 && n < rd && wr' == n && if rd == wr then rd' == 0 && cur' == size else rd' == rd && cur' == wr
  }

  ghost predicate Grantable(size: nat, rd: nat, wr: nat, n: nat) {
    if rd <= wr then wr + n < size || (wr + n == size && rd > 0) || n < rd else wr + n < rd
  }

  datatype Layout = Layout(rd: nat, wr: nat, cur: nat) {
    /** The bytes one read may take. */
    function Readable(): int {
      if rd <= wr then wr - rd else cur - rd
    }
  }

  ghost function AfterGrant(size: nat, at: Layout, n: nat): Layout {
    if at.rd > at.wr || at.wr + n < size then at.(wr := at.wr + n)
    else if at.wr + n == size then at.(wr := 0)
    else if at.rd == at.wr then Layout(0, n, size) else Layout(at.rd, n, at.wr)
  }

  ghost function AfterRead(size: nat, at: Layout, n: nat): Layout {
    if at.rd > at.wr && at.rd + n == at.cur then Layout(0, at.wr, size) else at.(rd := at.rd + n)
  }

  /** An empty ring has room for a request wherever its pointers are exactly when
      the request is at most half the ring. */
  lemma EmptyFits(size: nat, n: nat)
    requires size > 0
    ensures (forall x | 0 <= x < size :: Grantable(size, x, x, n)) <==> 2 * n <= size
  {
    if 2 * n > size {
      var x := if n < size then n else 0;
      assert !Grantable(size, x, x, n);
    }
  }

  /** A grant appends its region to the queue. */
  lemma FlatBack(d: seq<byte>, rd: nat, wr: nat, cur: nat, n: nat, p: nat, rd': nat, wr': nat, cur': nat)
    requires Offsets(|d|, rd, wr, cur) && Grant(|d|, rd, wr, cur, n, p, rd', wr', cur')
    ensures Offsets(|d|, rd', wr', cur') && p + n <= |d|
    ensures Flat(d, rd', wr', cur') == Flat(d, rd, wr, cur) + d[p..p + n]
  {
    if rd > wr {
      JoinSecond(d[rd..cur], d, wr, n);
    } else if wr + n < |d| {
      Join(d, rd, wr, wr + n);
    } else if wr + n == |d| {
      Join(d, rd, wr, wr + n);
      NothingAfter(d[rd..wr + n], d);
    } else {
      NothingBefore(d, rd, d[0..n]);
    }
  }

  lemma JoinSecond(a: seq<byte>, d: seq<byte>, b: nat, n: nat)
    requires b + n <= |d|
    ensures a + d[..b + n] == a + d[..b] + d[b..b + n]
  {
    Join(d, 0, b, b + n);
    Associate(a, d[..b], d[b..b + n]);
  }

  lemma NothingAfter(a: seq<byte>, d: seq<byte>)
    ensures a + d[..0] == a
  {
  }

  lemma NothingBefore(d: seq<byte>, a: nat, b: seq<byte>)
    requires a <= |d|
    ensures d[a..a] + b == b
  {
  }

  lemma CutFirst(a: seq<byte>, b: seq<byte>, n: nat)
    requires n <= |a|
    ensures (a + b)[..n] == a[..n] && (a + b)[n..] == a[n..] + b
  {
  }

  /** The oldest n bytes, in one piece, and what is queued without them. */
  lemma FlatFront(d: seq<byte>, rd: nat, wr: nat, cur: nat, n: nat)
    requires Offsets(|d|, rd, wr, cur)
    requires if rd <= wr then rd + n <= wr else rd + n <= cur
    ensures |Flat(d, rd, wr, cur)| >= n
    ensures d[rd..rd + n] == Flat(d, rd, wr, cur)[..n]
    ensures var at := AfterRead(|d|, Layout(rd, wr, cur), n);
            Offsets(|d|, at.rd, at.wr, at.cur) && Flat(d, at.rd, at.wr, at.cur) == Flat(d, rd, wr, cur)[n..]
  {
    if rd <= wr {
      Cut(d, rd, n, wr);
    } else {
      CutWrapped(d, rd, wr, cur, n);
    }
  }

  lemma CutWrapped(d: seq<byte>, rd: nat, wr: nat, cur: nat, n: nat)
    requires rd + n <= cur <= |d| && wr <= |d|
    ensures (d[rd..cur] + d[..wr])[..n] == d[rd..rd + n]
    ensures (d[rd..cur] + d[..wr])[n..] == d[rd + n..cur] + d[..wr]
    ensures rd + n == cur ==> (d[rd..cur] + d[..wr])[n..] == d[0..wr]
  {
    Cut(d, rd, n, cur);
    CutFirst(d[rd..cur], d[..wr], n);
    if rd + n == cur {
      NothingBefore(d, cur, d[..wr]);
      assert d[0..wr] == d[..wr];
    }
  }

  /** A sequence with its last bytes overwritten. */
  function Spliced(q: seq<byte>, bytes: seq<byte>): seq<byte>
    requires |bytes| <= |q|
  {
    q[..|q| - |bytes|] + bytes
  }

  /** Overwriting the end of a stretch. */
  lemma SpliceEnd(d: seq<byte>, e: seq<byte>, a: nat, p: nat, bytes: seq<byte>)
    requires a <= p && p + |bytes| <= |d| == |e|
    requires e[p..p + |bytes|] == bytes
    requires forall i | 0 <= i < p :: e[i] == d[i]
    ensures e[a..p + |bytes|] == Spliced(d[a..p + |bytes|], bytes)
  {
    assert e[a..p] == d[a..p];
    Join(e, a, p, p + |bytes|);
    Cut(d, a, p - a, p + |bytes|);
  }

  lemma SpliceAfter(a: seq<byte>, b: seq<byte>, bytes: seq<byte>)
    requires |bytes| <= |b|
    ensures a + Spliced(b, bytes) == Spliced(a + b, bytes)
  {
    assert (a + b)[..|a + b| - |bytes|] == a + b[..|b| - |bytes|];
  }

  /** The region of the youngest n bytes. */
  ghost predicate IsTail(rd: nat, wr: nat, cur: nat, p: nat, n: nat) {
    if rd <= wr then rd <= p && p + n == wr
    else p + n == wr || (wr == 0 && rd <= p && p + n == cur)
  }

  /** Overwriting the region of the youngest bytes changes those bytes only. */
  lemma FlatTail(d: seq<byte>, e: seq<byte>, rd: nat, wr: nat, cur: nat, p: nat, bytes: seq<byte>)
    requires Offsets(|d|, rd, wr, cur) && IsTail(rd, wr, cur, p, |bytes|)
    requires p + |bytes| <= |d| == |e|
    requires e[p..p + |bytes|] == bytes
    requires forall i | 0 <= i < p || p + |bytes| <= i < |d| :: e[i] == d[i]
    ensures |bytes| <= |Flat(d, rd, wr, cur)|
    ensures Flat(e, rd, wr, cur) == Spliced(Flat(d, rd, wr, cur), bytes)
  {
    if rd <= wr {
      SpliceEnd(d, e, rd, p, bytes);
    } else if p + |bytes| == wr {
      SpliceStart(d, e, rd, wr, cur, p, bytes);
    } else {
      SpliceEnd(d, e, rd, p, bytes);
      NothingAfter(d[rd..cur], d);
      NothingAfter(e[rd..cur], e);
    }
  }

  lemma SpliceStart(d: seq<byte>, e: seq<byte>, rd: nat, wr: nat, cur: nat, p: nat, bytes: seq<byte>)
    requires wr < rd <= cur <= |d| == |e| && p + |bytes| == wr
    requires e[p..p + |bytes|] == bytes
    requires forall i | 0 <= i < p || p + |bytes| <= i < |d| :: e[i] == d[i]
    ensures e[rd..cur] + e[..wr] == Spliced(d[rd..cur] + d[..wr], bytes)
  {
    SpliceEnd(d, e, 0, p, bytes);
    assert e[rd..cur] == d[rd..cur];
    SpliceAfter(d[rd..cur], d[..wr], bytes);
  }

  lemma {:induction false} QueuedStraight(d: seq<byte>, rd: nat, wr: nat)
    requires rd <= wr && Offsets(|d|, rd, wr, |d|)
    ensures Queued(d, rd, wr, |d|) == d[rd..wr]
    decreases wr - rd
  {
    if rd < wr {
      QueuedStraight(d, rd + 1, wr);
      OneStraight(d, rd, wr);
    }
  }

  lemma {:induction false} QueuedWrapped(d: seq<byte>, rd: nat, wr: nat, cur: nat)
    requires rd > wr && Offsets(|d|, rd, wr, cur)
    ensures Queued(d, rd, wr, cur) == d[rd..cur] + d[0..wr]
    decreases cur - rd
  {
    if rd + 1 < cur {
      QueuedWrapped(d, rd + 1, wr, cur);
      JoinFirst(d, rd, cur, d[0..wr]);
    } else {
      QueuedStraight(d, 0, wr);
      OneLast(d, rd, wr);
    }
  }

  lemma QueuedFlat(d: seq<byte>, rd: nat, wr: nat, cur: nat)
    requires Offsets(|d|, rd, wr, cur)
    ensures Queued(d, rd, wr, cur) == Flat(d, rd, wr, cur)
  {
    if rd <= wr {
      QueuedStraight(d, rd, wr);
    } else {
      QueuedWrapped(d, rd, wr, cur);
      assert d[0..wr] == d[..wr];
    }
  }

  lemma OneStraight(d: seq<byte>, a: nat, b: nat)
    requires a < b <= |d|
    ensures d[a..b] == [d[a]] + d[a + 1..b]
  {
  }

  lemma OneLast(d: seq<byte>, a: nat, b: nat)
    requires a < |d| && b <= |d|
    ensures d[a..a + 1] + d[..b] == [d[a]] + d[0..b]
  {
  }

  lemma JoinFirst(d: seq<byte>, a: nat, c: nat, more: seq<byte>)
    requires a < c <= |d|
    ensures d[a..c] + more == [d[a]] + (d[a + 1..c] + more)
  {
  }

  lemma QueuedLength(d: seq<byte>, at: Layout)
    requires Offsets(|d|, at.rd, at.wr, at.cur)
    ensures |Queued(d, at.rd, at.wr, at.cur)| == if at.rd <= at.wr then at.wr - at.rd else at.cur - at.rd + at.wr
  {
    QueuedFlat(d, at.rd, at.wr, at.cur);
  }

  /** A grant appends its region to the queue. */
  lemma QueuedBack(d: seq<byte>, rd: nat, wr: nat, cur: nat, n: nat, p: nat, rd': nat, wr': nat, cur': nat)
    requires Offsets(|d|, rd, wr, cur) && Grant(|d|, rd, wr, cur, n, p, rd', wr', cur')
    ensures Offsets(|d|, rd', wr', cur') && p + n <= |d|
    ensures Queued(d, rd', wr', cur') == Queued(d, rd, wr, cur) + d[p..p + n]
  {
    FlatBack(d, rd, wr, cur, n, p, rd', wr', cur');
    QueuedFlat(d, rd, wr, cur);
    QueuedFlat(d, rd', wr', cur');
  }

  /** Reading takes the oldest bytes off the queue. */
  lemma QueuedRest(d: seq<byte>, q: seq<byte>, at: Layout, n: nat)
    requires Offsets(|d|, at.rd, at.wr, at.cur) && q == Queued(d, at.rd, at.wr, at.cur)
    requires n <= at.Readable()
    ensures n <= |q| && at.rd + n <= |d| && d[at.rd..at.rd + n] == q[..n]
    ensures var next := AfterRead(|d|, at, n);
            Offsets(|d|, next.rd, next.wr, next.cur) && Queued(d, next.rd, next.wr, next.cur) == q[n..]
  {
    FlatFront(d, at.rd, at.wr, at.cur, n);
    var next := AfterRead(|d|, at, n);
    QueuedFlat(d, at.rd, at.wr, at.cur);
    QueuedFlat(d, next.rd, next.wr, next.cur);
  }

  /** Overwriting the region of the youngest bytes changes those bytes only. */
  lemma SpliceTail(d: seq<byte>, e: seq<byte>, rd: nat, wr: nat, cur: nat, p: nat, bytes: seq<byte>)
    requires Offsets(|d|, rd, wr, cur) && IsTail(rd, wr, cur, p, |bytes|)
    requires p + |bytes| <= |d| == |e|
    requires e[p..p + |bytes|] == bytes
    requires forall i | 0 <= i < p || p + |bytes| <= i < |d| :: e[i] == d[i]
    ensures |bytes| <= |Queued(d, rd, wr, cur)|
    ensures Queued(e, rd, wr, cur) == Spliced(Queued(d, rd, wr, cur), bytes)
  {
    FlatTail(d, e, rd, wr, cur, p, bytes);
    QueuedFlat(d, rd, wr, cur);
    QueuedFlat(e, rd, wr, cur);
  }

  /** memcpy(a + at, bytes, |bytes|). */
  method Copy(a: array<byte>, at: nat, bytes: seq<byte>)
    requires at + |bytes| <= a.Length
    modifies a
    ensures a[at..at + |bytes|] == bytes
    ensures forall i | 0 <= i < at || at + |bytes| <= i < a.Length :: a[i] == old(a[i])
  {
    for k := 0 to |bytes|
      invariant a[at..at + k] == bytes[..k]
      invariant forall i | 0 <= i < at || at + k <= i < a.Length :: a[i] == old(a[i])
    {
      a[at + k] := bytes[k];
    }
  }

  datatype Op = Put(bytes: seq<byte>) | Get(n: nat)

  /** A request that cannot overflow a 32-bit offset. */
  predicate Small(op: Op) {
    match op
    case Put(bytes) => |bytes| <= UINT32_MAX / 2
    case Get(n) => n <= UINT32_MAX / 2
  }

  /** A byte queue and the offsets its ring is at. */
  datatype Queue = Queue(held: seq<byte>, at: Layout)

  /** A ring at these offsets has room, or data in one piece, for an operation. */
  ghost predicate HasRoom(size: nat, at: Layout, op: Op) {
    match op
    case Put(bytes) => Grantable(size, at.rd, at.wr, |bytes|)
    case Get(n) => n <= at.Readable()
  }

  /** What a FIFO byte queue on a ring of the given size holds after a run in which
      operation k had the result results[k]; None when a result is impossible: an
      operation succeeds exactly when there is room, and reads yield the oldest
      bytes. */
  ghost function Fifo(size: nat, ops: seq<Op>, results: seq<Option<seq<byte>>>): Option<Queue>
    requires |ops| == |results|
  {
    if ops == [] then Some(Queue([], Layout(0, 0, size))) else
      var last := |ops| - 1;
      FifoStep(size, Fifo(size, ops[..last], results[..last]), ops[last], results[last])
  }

  ghost function FifoStep(size: nat, q: Option<Queue>, op: Op, result: Option<seq<byte>>): Option<Queue> {
    if q.None? || (result.Some? <==> !HasRoom(size, q.value.at, op)) then None
    else if result.None? then q else
      match op
      case Put(bytes) =>
        if result.value == bytes then Some(Queue(q.value.held + bytes, AfterGrant(size, q.value.at, |bytes|))) else None
      case Get(n) =>
        if n <= |q.value.held| && result.value == q.value.held[..n] then
          Some(Queue(q.value.held[n..], AfterRead(size, q.value.at, n)))
        else None
  }

  method Step(ring: Ring, op: Op) returns (result: Option<seq<byte>>)
    requires ring.Valid() && ring.data.Length <= UINT32_MAX / 2
    requires Small(op)
    modifies ring, ring.data
    ensures ring.Valid()
    ensures result.Some? <==> HasRoom(ring.data.Length, old(ring.Offset()), op)
    ensures FifoStep(ring.data.Length, Some(Queue(old(ring.queue), old(ring.Offset()))), op, result)
            == Some(Queue(ring.queue, ring.Offset()))
  {
    result := None;
    match op {
      case Put(bytes) =>
        result := PutOne(ring, bytes);
      case Get(n) =>
        result := GetOne(ring, n);
    }
  }

  method PutOne(ring: Ring, bytes: seq<byte>) returns (result: Option<seq<byte>>)
    requires ring.Valid() && ring.data.Length <= UINT32_MAX / 2 && Small(Put(bytes))
    modifies ring, ring.data
    ensures ring.Valid()
    ensures result.Some? <==> HasRoom(ring.data.Length, old(ring.Offset()), Put(bytes))
    ensures FifoStep(ring.data.Length, Some(Queue(old(ring.queue), old(ring.Offset()))), Put(bytes), result)
            == Some(Queue(ring.queue, ring.Offset()))
  {
    var ptr := ring.Store(bytes);
    result := if ptr.Some? then Some(bytes) else None;
  }

  method GetOne(ring: Ring, n: nat) returns (result: Option<seq<byte>>)
    requires ring.Valid() && ring.data.Length <= UINT32_MAX / 2 && Small(Get(n))
    modifies ring
    ensures ring.Valid()
    ensures result.Some? <==> HasRoom(ring.data.Length, old(ring.Offset()), Get(n))
    ensures FifoStep(ring.data.Length, Some(Queue(old(ring.queue), old(ring.Offset()))), Get(n), result)
            == Some(Queue(ring.queue, ring.Offset()))
  {
    result := None;
    var ptr := ring.Consume(n);
    if ptr.Some? {
      result := Some(ring.data[ptr.value..ptr.value + n]);
    }
  }

  /** Any sequence of grants and reads on a fresh ring behaves as a FIFO byte queue,
      each succeeding exactly when there is room, and leaves in the ring exactly what
      the queue holds. */
  method Run(size: nat, ops: seq<Op>) returns (results: seq<Option<seq<byte>>>, left: seq<byte>)
    requires size <= UINT32_MAX / 2
    requires forall k | 0 <= k < |ops| :: Small(ops[k])
    ensures |results| == |ops|
    ensures Fifo(size, ops, results).Some? && Fifo(size, ops, results).value.held == left
    ensures |left| < (if size == 0 then 1 else size)
  {
    var ring := new Ring(size);
    results := StepAll(ring, ops);
    left := Queued(ring.data[..], ring.rd, ring.wr, ring.curSize);
    ring.Bounded();
  }

  method StepAll(ring: Ring, ops: seq<Op>) returns (results: seq<Option<seq<byte>>>)
    requires ring.Valid() && ring.queue == [] && ring.data.Length <= UINT32_MAX / 2
    requires ring.Offset() == Layout(0, 0, ring.data.Length)
    requires forall k | 0 <= k < |ops| :: Small(ops[k])
    modifies ring, ring.data
    ensures ring.Valid() && |results| == |ops|
    ensures Fifo(ring.data.Length, ops, results) == Some(Queue(ring.queue, ring.Offset()))
  {
    results := [];
    while |results| < |ops|
      invariant ring.Valid() && |results| <= |ops|
      invariant Follows(ring.data.Length, ops, results, Queue(ring.queue, ring.Offset()))
    {
      results := StepNext(ring, ops, results);
    }
    assert ops[..|ops|] == ops;
  }

  /** The results so far are those of a queue that now is q. */
  ghost predicate Follows(size: nat, ops: seq<Op>, results: seq<Option<seq<byte>>>, q: Queue)
    requires |results| <= |ops|
  {
    Fifo(size, ops[..|results|], results) == Some(q)
  }

  method StepNext(ring: Ring, ops: seq<Op>, results: seq<Option<seq<byte>>>) returns (results': seq<Option<seq<byte>>>)
    requires ring.Valid() && ring.data.Length <= UINT32_MAX / 2
    requires |results| < |ops| && Small(ops[|results|])
    requires Follows(ring.data.Length, ops, results, Queue(ring.queue, ring.Offset()))
    modifies ring, ring.data
    ensures ring.Valid() && |results'| == |results| + 1
    ensures Follows(ring.data.Length, ops, results', Queue(ring.queue, ring.Offset()))
  {
    var k := |results|;
    var r := Step(ring, ops[k]);
    assert ops[..k + 1][..k] == ops[..k] && (results + [r])[..k] == results;
    results' := results + [r];
  }
}
