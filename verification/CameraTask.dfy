/** The camera task and its queues (cam_hal.c): frames pass from the driver,
    which fills enabled ones, through the delivery queue to the client, and back
    when the client gives them. */
module CameraTask {
  import opened Arithmetic
  import opened Bytes
  import opened PixelCopy

  /** What cam_config and ll_cam_dma_sizes fix. */
  datatype RawSetup = Setup(psram: bool, jpeg: bool, inBpp: nat, fbBpp: nat, half: nat, halfCnt: nat,
                         fbSize: nat, recvSize: nat, frameCnt: nat, latest: bool)
  {
    /** The pixel formats the sample modes produce: stored as received, or YUV
        stored as grey. */
    predicate Valid() {
      && frameCnt >= 1 && halfCnt >= 2 && fbBpp > 0
      && (inBpp == fbBpp || (Grey() && half % 8 == 0))
    }

    predicate Grey() {
      inBpp == 2 && fbBpp == 1
    }

    /** Frame bytes one DMA half yields, at one byte per DMA item. */
    function PixelsPerDma(): nat
      requires inBpp > 0
    {
      half * fbBpp / inBpp
    }

    /** Places in the delivery queue. */
    function QueueLen(): nat
      requires frameCnt >= 1
    {
      if latest && frameCnt > 1 then frameCnt - 1 else frameCnt
    }

    ghost predicate Raw() {
      !psram && !jpeg
    }
  }

  type Setup = s: RawSetup | s.Valid() witness Setup(false, false, 1, 1, 1, 2, 1, 1, 1, false)

  lemma ConvertedLength(s: Setup, data: seq<byte>)
    requires |data| == s.half
    ensures |Converted(s.Grey(), data)| == s.PixelsPerDma()
  {
    if !s.Grey() {
      MulDiv(s.half, s.fbBpp);
    }
  }

  /** Where a frame is: with the driver, in the delivery queue, with the client,
      or in the hands of the task. */
  datatype Place = Driver | Queued | Client | Task

  /** A frame buffer: its enable flag, its length and bytes, and for the record
      where it is, its capture number, the DMA halves received while it was
      filled, and whether it was started with no stale end-of-half event queued. */
  datatype Frame = Frame(en: bool, len: nat, buf: seq<byte>, place: Place, stamp: nat, halves: seq<seq<byte>>, clean: bool)
  {
    function Enabled(): Frame {
      this.(en := true, place := Driver)
    }
  }

  datatype Event = Eof | Vsync

  datatype State = Idle | ReadBuf

  // Where the frames are

  /** The enable flags and the queue agree with the places: the enabled frames
      are the driver's, and the queue lists each queued frame exactly once. */
  ghost predicate Placed(frames: seq<Frame>, queue: seq<nat>, queued: set<nat>) {
    && multiset(queue) == multiset(queued)
    && (forall f | f in queued :: f < |frames|)
    && (forall f | 0 <= f < |frames| :: frames[f].en <==> frames[f].place.Driver?)
    && (forall f | 0 <= f < |frames| :: frames[f].place.Queued? <==> f in queued)
  }

  /** The queue holds captures in order, later than all delivered ones and
      earlier than the bound. */
  ghost predicate Ordered(frames: seq<Frame>, queue: seq<nat>, delivered: seq<nat>, bound: nat) {
    && (forall i | 0 <= i < |queue| :: queue[i] < |frames| && frames[queue[i]].stamp < bound)
    && (forall i, j | 0 <= i < j < |queue| :: frames[queue[i]].stamp < frames[queue[j]].stamp)
    && (forall i | 0 <= i < |delivered| :: delivered[i] < bound)
    && (forall i, j | 0 <= i < |delivered| && 0 <= j < |queue| :: delivered[i] < frames[queue[j]].stamp)
    && (forall i, j | 0 <= i < j < |delivered| :: delivered[i] < delivered[j])
  }

  /** The frame the halves make up. */
  function Picture(grey: bool, halves: seq<seq<byte>>): seq<byte> {
    if halves == [] then [] else
      Picture(grey, halves[..|halves| - 1]) + Converted(grey, halves[|halves| - 1])
  }

  /** A frame out of the driver's hands, in raw mode without PSRAM: full, and the
      picture its halves make up unless it was started among stale events. */
  ghost predicate Complete(s: Setup, frame: Frame) {
    && frame.len == |frame.buf| == s.fbSize
    && (frame.clean ==> frame.buf == Picture(s.Grey(), frame.halves))
  }

  function EofCount(events: seq<Event>): nat {
    if events == [] then 0 else EofCount(events[1..]) + (if events[0].Eof? then 1 else 0)
  }

  lemma {:induction false} EofCountAppend(events: seq<Event>, e: Event)
    ensures EofCount(events + [e]) == EofCount(events) + (if e.Eof? then 1 else 0)
  {
    if events != [] {
      EofCountAppend(events[1..], e);
      assert (events + [e])[1..] == events[1..] + [e];
    }
  }

  lemma {:induction false} EofCountBound(events: seq<Event>)
    ensures EofCount(events) <= |events|
  {
    if events != [] {
      EofCountBound(events[1..]);
    }
  }

  /** The DMA buffer still holds the halves no one has copied yet. */
  ghost predicate Intact(slots: seq<seq<byte>>, history: seq<seq<byte>>, cnt: nat) {
    && |slots| > 0 && cnt <= |history|
    && forall j | cnt <= j < |history| :: slots[j % |slots|] == history[j]
  }

  /** One more half does not overwrite an uncopied one while fewer than all slots
      are in use. */
  lemma IntactAfterHalf(slots: seq<seq<byte>>, history: seq<seq<byte>>, cnt: nat, bytes: seq<byte>)
    requires Intact(slots, history, cnt) && |history| - cnt < |slots|
    ensures Intact(slots[|history| % |slots| := bytes], history + [bytes], cnt)
  {
    forall j | cnt <= j < |history| ensures j % |slots| != |history| % |slots| {
      DistinctModulo(j, |history|, |slots|);
    }
  }

  /** The frame being filled, in the modes that copy it out of the DMA buffer:
      never longer than a frame buffer, and in raw mode the picture of the halves
      copied so far, with the events and the DMA buffer in step with the rest. */
  ghost predicate Filling(s: Setup, ppd: nat, f: Frame, cnt: nat, events: seq<Event>, slots: seq<seq<byte>>, history: seq<seq<byte>>) {
    && f.len == |f.buf| <= s.fbSize
    && (s.Raw() && f.clean ==>
          && cnt <= |history| && f.buf == Picture(s.Grey(), history[..cnt])
          && (f.len + ppd <= s.fbSize ==>
                cnt + EofCount(events) == |history| && Intact(slots, history, cnt)))
  }

  /** The DMA engine and the reading task work on an enabled frame only. */
  ghost predicate OnTarget(s: Setup, ppd: nat, framePos: nat, f: Frame, state: State, dma: Option<nat>,
                           cnt: nat, events: seq<Event>, slots: seq<seq<byte>>, history: seq<seq<byte>>)
  {
    && (dma.Some? ==> dma.value == framePos && f.en)
    && (state.ReadBuf? && !f.place.Task? ==> f.en && (!s.psram ==> Filling(s, ppd, f, cnt, events, slots, history)))
  }

  /** The frames in the task's hands are the same, and unchanged. */
  ghost predicate InTaskKept(before: seq<Frame>, after: seq<Frame>) {
    && |before| == |after|
    && forall f | 0 <= f < |before| && (before[f].place.Task? || after[f].place.Task?) :: before[f] == after[f]
  }

  function Restarted(f: Frame, events: seq<Event>): Frame {
    f.(len := 0, buf := [], clean := EofCount(events) == 0)
  }

  lemma FillingFromStart(s: Setup, ppd: nat, f: Frame, events: seq<Event>, slots: seq<seq<byte>>)
    requires |slots| > 0
    ensures Filling(s, ppd, Restarted(f, events), 0, events, slots, [])
  {
  }

  /** A frame one DMA half longer. */
  function Extended(s: Setup, ppd: nat, f: Frame, slot: seq<byte>): Frame {
    f.(len := f.len + ppd, buf := f.buf + Converted(s.Grey(), slot))
  }

  lemma FillingAfterCopy(s: Setup, ppd: nat, f: Frame, cnt: nat, events: seq<Event>, slots: seq<seq<byte>>, history: seq<seq<byte>>)
    requires |slots| == s.halfCnt && ppd == s.PixelsPerDma()
    requires forall i | 0 <= i < |slots| :: |slots[i]| == s.half
    requires Filling(s, ppd, f, cnt, [Eof] + events, slots, history) && f.len + ppd <= s.fbSize
    ensures Filling(s, ppd, Extended(s, ppd, f, slots[cnt % s.halfCnt]), cnt + 1, events, slots, history)
  {
    ConvertedLength(s, slots[cnt % s.halfCnt]);
    assert ([Eof] + events)[1..] == events;
    if s.Raw() && f.clean {
      assert cnt < |history| && slots[cnt % |slots|] == history[cnt];
      assert history[..cnt + 1][..cnt] == history[..cnt];
    }
  }

  lemma FillingAfterHalf(s: Setup, ppd: nat, f: Frame, cnt: nat, events: seq<Event>, slots: seq<seq<byte>>, history: seq<seq<byte>>, bytes: seq<byte>)
    requires Filling(s, ppd, f, cnt, events, slots, history)
    requires |slots| == s.halfCnt && |events| < s.halfCnt
    ensures Filling(s, ppd, f, cnt, events + [Eof], slots[|history| % s.halfCnt := bytes], history + [bytes])
  {
    EofCountAppend(events, Eof);
    EofCountBound(events);
    if s.Raw() && f.clean {
      assert (history + [bytes])[..cnt] == history[..cnt];
      if f.len + ppd <= s.fbSize {
        IntactAfterHalf(slots, history, cnt, bytes);
      }
    }
  }

  lemma TakePlaced(frames: seq<Frame>, queue: seq<nat>, queued: set<nat>, frame: Frame)
    requires Placed(frames, queue, queued) && queue != []
    requires frame.en <==> frame.place.Driver?
    requires !frame.place.Queued?
    ensures queue[0] < |frames| && frames[queue[0]].place.Queued?
    ensures Placed(frames[queue[0] := frame], queue[1..], queued - {queue[0]})
  {
    RestOf(queue, queued);
  }

  lemma RestOf(queue: seq<nat>, queued: set<nat>)
    requires queue != [] && multiset(queue) == multiset(queued)
    ensures queue[0] in queued && multiset(queue[1..]) == multiset(queued - {queue[0]})
  {
    var f := queue[0];
    assert queue == [f] + queue[1..];
    assert f in multiset(queue);
    assert multiset(queued - {f}) == multiset(queued) - multiset{f};
  }

  lemma TakeOrdered(frames: seq<Frame>, queue: seq<nat>, queued: set<nat>, delivered: seq<nat>, bound: nat, frame: Frame)
    requires Ordered(frames, queue, delivered, bound) && queue != []
    requires frame.stamp == frames[queue[0]].stamp
    ensures Ordered(frames[queue[0] := frame], queue[1..], delivered, bound)
    ensures Ordered(frames[queue[0] := frame], queue[1..], delivered + [frame.stamp], bound)
  {
  }

  /** Changing a frame that is not queued keeps the places and the order. */
  lemma PutPlaced(frames: seq<Frame>, queue: seq<nat>, queued: set<nat>, f: nat, frame: Frame)
    requires Placed(frames, queue, queued) && f < |frames| && !frames[f].place.Queued?
    requires frame.en <==> frame.place.Driver?
    requires !frame.place.Queued?
    ensures Placed(frames[f := frame], queue, queued)
  {
  }

  lemma PutOrdered(frames: seq<Frame>, queue: seq<nat>, queued: set<nat>, f: nat, frame: Frame, delivered: seq<nat>, bound: nat)
    requires Placed(frames, queue, queued) && f < |frames| && !frames[f].place.Queued?
    requires Ordered(frames, queue, delivered, bound)
    ensures Ordered(frames[f := frame], queue, delivered, bound)
  {
    forall i | 0 <= i < |queue| ensures queue[i] != f {
      assert queue[i] in multiset(queue);
    }
  }

  /** A frame as cam_take hands it to the client; from PSRAM, YUV is turned into
      grey in place. */
  function Received(s: Setup, frame: Frame): Frame {
    frame.(place := Client, len := if !s.jpeg && s.psram && s.inBpp != s.fbBpp then frame.len / 2 else frame.len)
  }

  /** The frame at the end of its capture, in the task's hands. */
  function Finished(s: Setup, c: Cam): Frame
    requires c.framePos < |c.frames|
  {
    var f := c.frames[c.framePos];
    f.(en := false, place := Task, stamp := c.captures,
       len := if s.psram then (if s.jpeg then c.cnt * s.half else s.recvSize) else f.len,
       halves := c.history[..Min(c.cnt, |c.history|)])
  }

  lemma SendPlaced(frames: seq<Frame>, queue: seq<nat>, queued: set<nat>, f: nat)
    requires Placed(frames, queue, queued) && f < |frames| && frames[f].place.Task?
    ensures Placed(frames[f := frames[f].(place := Queued)], queue + [f], queued + {f})
  {
    assert multiset(queued + {f}) == multiset(queued) + multiset{f};
  }

  lemma SendOrdered(frames: seq<Frame>, queue: seq<nat>, queued: set<nat>, f: nat, delivered: seq<nat>, bound: nat)
    requires Placed(frames, queue, queued) && f < |frames| && frames[f].place.Task?
    requires Ordered(frames, queue, delivered, frames[f].stamp) && frames[f].stamp < bound
    ensures Ordered(frames[f := frames[f].(place := Queued)], queue + [f], delivered, bound)
  {
    PutOrdered(frames, queue, queued, f, frames[f].(place := Queued), delivered, frames[f].stamp);
  }

  ghost predicate NoneInTask(frames: seq<Frame>) {
    forall f | 0 <= f < |frames| :: !frames[f].place.Task?
  }

  /** A frame in hand finds a place in the queue unless in grab-latest mode all other
      frames wait there. */
  lemma Waiting(s: Setup, c: Cam, stamp: nat)
    requires InHand(s, c, stamp, c.framePos)
    ensures |c.queue| >= s.QueueLen() ==>
              s.latest && forall f | 0 <= f < |c.frames| && f != c.framePos :: c.frames[f].place.Queued?
  {
    assert |multiset(c.queue)| == |multiset(c.queued)| == |c.queued|;
    OthersOnly(c.queued, s.frameCnt, c.framePos);
  }

  /** Of n numbers at most the n - 1 others than f, and so many only if all. */
  lemma OthersOnly(numbers: set<nat>, n: nat, f: nat)
    requires f < n && f !in numbers && forall x | x in numbers :: x < n
    ensures |numbers| < n
    ensures |numbers| == n - 1 ==> forall x | 0 <= x < n && x != f :: x in numbers
  {
    Below(numbers + {f}, n);
    forall x | 0 <= x < n && x != f && x !in numbers ensures |numbers| < n - 1 {
      Below(numbers + {f} + {x}, n);
    }
  }

  lemma {:induction false} Below(numbers: set<nat>, n: nat)
    requires forall x | x in numbers :: x < n
    ensures |numbers| <= n
  {
    if n > 0 {
      Below(numbers - {n - 1}, n - 1);
    } else {
      assert numbers == {};
    }
  }

  /** What others do at the points of a delivery where they can run. */
  datatype Interleaving = Interleaving(beforeSend: seq<Act>, beforeReceive: seq<Act>, beforeResend: seq<Act>) {
    predicate Quiet() {
      beforeSend == [] && beforeReceive == [] && beforeResend == []
    }
  }

  /** A delivery queue with places for n frames once frame f is sent; the oldest
      gives way if there is no place. */
  function Sent(queue: seq<nat>, n: nat, f: nat): seq<nat>
    requires 0 < n
  {
    (if |queue| < n || queue == [] then queue else queue[1..]) + [f]
  }

  datatype Act = Take(hasEoi: bool) | Give(frame: nat) | HalfDone(bytes: seq<byte>) | VsyncPulse

  /** The driver's variables, the DMA engine's and the client's. */
  datatype Cam = Cam(
    state: State, frames: seq<Frame>, framePos: nat, cnt: nat, events: seq<Event>, queue: seq<nat>,
    // the DMA engine: its target while running, its buffer, what it received since its start
    dma: Option<nat>, slots: seq<seq<byte>>, history: seq<seq<byte>>,
    // the queued frames, the capture numbers the client got, the next capture number
    queued: set<nat>, delivered: seq<nat>, captures: nat)

  /** Every frame has one place, the queue is in capture order below the bound,
      no frame is overlong, and frames out of the driver's hands are complete. */
  ghost predicate Owned(s: Setup, c: Cam, bound: nat) {
    && |c.frames| == s.frameCnt && |c.queue| <= s.QueueLen() && bound <= c.captures
    && Placed(c.frames, c.queue, c.queued)
    && Ordered(c.frames, c.queue, c.delivered, bound)
    && Bounded(s, c.frames)
  }

  ghost predicate Bounded(s: Setup, frames: seq<Frame>) {
    && (!s.psram ==> forall f | 0 <= f < |frames| :: frames[f].len == |frames[f].buf| <= s.fbSize)
    && (s.Raw() ==> forall f | 0 <= f < |frames| && !frames[f].en :: Complete(s, frames[f]))
  }

  ghost predicate Sized(s: Setup, c: Cam) {
    && |c.slots| == s.halfCnt && |c.events| < s.halfCnt
    && (forall i | 0 <= i < |c.history| :: |c.history[i]| == s.half)
    && (forall i | 0 <= i < |c.slots| :: |c.slots[i]| == s.half)
  }

  ghost predicate Targeted(s: Setup, c: Cam) {
    && c.framePos < |c.frames|
    && OnTarget(s, s.PixelsPerDma(), c.framePos, c.frames[c.framePos], c.state, c.dma, c.cnt, c.events, c.slots, c.history)
  }

  /** What holds at every point where others can run; bound is above the capture
      numbers in the queue. */
  ghost predicate Inv(s: Setup, c: Cam, bound: nat) {
    Owned(s, c, bound) && Sized(s, c) && Targeted(s, c)
  }

  /** Between captures: DMA is stopped and the task holds no frame. */
  ghost predicate Rested(s: Setup, c: Cam) {
    && Owned(s, c, c.captures) && Sized(s, c) && c.framePos < |c.frames|
    && c.dma.None? && NoneInTask(c.frames)
  }

  /** The task holds the current frame, captured under the given number, and the
      other one, which may be the same. */
  ghost predicate InHand(s: Setup, c: Cam, stamp: nat, other: nat) {
    && Inv(s, c, stamp) && c.dma.None?
    && c.frames[c.framePos].stamp == stamp < c.captures
    && other < |c.frames|
    && forall f | 0 <= f < |c.frames| :: c.frames[f].place.Task? <==> f == c.framePos || f == other
  }

  /** A capture that ends is delivered: into PSRAM always, of a JPEG once a half is
      copied, else if the frame is full. */
  ghost predicate Delivers(s: Setup, c: Cam) {
    && c.framePos < |c.frames|
    && (s.psram || if s.jpeg then c.cnt > 0 else c.frames[c.framePos].len == s.fbSize)
  }

  /** With no one else active: the queue at the end of a capture. */
  ghost predicate QueueAfterFrame(s: Setup, before: Cam, after: Cam) {
    && after.events == before.events
    && after.queue == if Delivers(s, before) then Sent(before.queue, s.QueueLen(), before.framePos) else before.queue
  }

  /** The next frame to fill: the current one if enabled, else the first enabled. */
  ghost predicate IsNext(frames: seq<Frame>, pos: nat, f: nat) {
    && pos < |frames| && f < |frames| && frames[f].en
    && (f != pos ==> !frames[pos].en && forall i | 0 <= i < f :: !frames[i].en)
  }

  /** Capture restarted on frame f: an empty frame, nothing received. */
  function Started(c: Cam, f: nat): Cam
    requires f < |c.frames|
  {
    c.(framePos := f, cnt := 0, dma := Some(f), history := [], frames := c.frames[f := Restarted(c.frames[f], c.events)])
  }

  /** Capture goes on with the next frame, or the task is idle as none is enabled. */
  ghost predicate GoesOn(before: Cam, after: Cam) {
    if after.dma.Some? then IsNext(before.frames, before.framePos, after.framePos) && after == Started(before, after.framePos)
    else after == before.(cnt := 0, state := Idle) && forall f | 0 <= f < |before.frames| :: !before.frames[f].en
  }

  /** The next half copied to the frame. */
  function HalfCopied(s: Setup, c: Cam): Cam
    requires c.framePos < |c.frames| && |c.slots| == s.halfCnt
  {
    var f := Extended(s, s.PixelsPerDma(), c.frames[c.framePos], c.slots[c.cnt % s.halfCnt]);
    c.(frames := c.frames[c.framePos := f], cnt := c.cnt + 1)
  }

  /** The current frame taken out of capture. */
  function Taken(s: Setup, c: Cam): Cam
    requires c.framePos < |c.frames|
  {
    c.(frames := c.frames[c.framePos := Finished(s, c)], captures := c.captures + 1)
  }

  /** The current frame at the end of the delivery queue. */
  function Enqueued(c: Cam): Cam
    requires c.framePos < |c.frames|
  {
    c.(queue := c.queue + [c.framePos], queued := c.queued + {c.framePos},
       frames := c.frames[c.framePos := c.frames[c.framePos].(place := Queued)])
  }

  /** Whatever others do in between: a capture that is delivered ends with its frame
      last in the delivery queue, unless the client has emptied a full queue; another
      leaves the queue alone. */
  ghost predicate FrameEnded(s: Setup, before: Cam, after: Cam) {
    && before.framePos < |before.frames|
    && after.captures == before.captures + (if Delivers(s, before) then 1 else 0)
    && if !Delivers(s, before) then after.queue == before.queue
       else if after.queue == [] then |before.queue| >= s.QueueLen()
       else after.queue[|after.queue| - 1] == before.framePos
  }

  /** No one else is active and there is a place in the delivery queue. */
  ghost predicate QuietlySent(s: Setup, others: Interleaving, c: Cam) {
    Delivers(s, c) && others.Quiet() && |c.queue| < s.QueueLen()
  }

  /** The state in which a capture is delivered: of a JPEG, with the half under way
      copied too if it fits. */
  function LastHalf(s: Setup, c: Cam): Cam
    requires c.framePos < |c.frames| && |c.slots| == s.halfCnt
  {
    if !s.jpeg then c
    else if s.psram then c.(cnt := c.cnt + 1)
    else if s.fbSize < c.frames[c.framePos].len + s.PixelsPerDma() then c
    else HalfCopied(s, c)
  }

  /** The state after an end-of-half event in the reading state: without PSRAM a half
      that does not fit stops DMA; a JPEG whose first half has no start marker stops
      the capture. */
  function AfterEof(s: Setup, c: Cam, soiFound: bool): Cam
    requires c.framePos < |c.frames| && |c.slots| == s.halfCnt
  {
    if !s.psram && s.fbSize < c.frames[c.framePos].len + s.PixelsPerDma() then c.(dma := None)
    else
      var next := if s.psram then c.(cnt := c.cnt + 1) else HalfCopied(s, c);
      if s.jpeg && c.cnt == 0 && !soiFound then next.(dma := None, state := Idle) else next
  }

  /** A JPEG whose first half has no start marker stops the capture; with it, or past
      the first half, the capture goes on. */
  lemma StartMarker(s: Setup, c: Cam, soiFound: bool)
    requires c.framePos < |c.frames| && |c.slots| == s.halfCnt && s.jpeg
    requires s.psram || c.frames[c.framePos].len + s.PixelsPerDma() <= s.fbSize
    ensures var d := AfterEof(s, c, soiFound);
            && d.cnt == c.cnt + 1
            && if c.cnt == 0 && !soiFound then d.dma.None? && d.state.Idle? else d.dma == c.dma && d.state == c.state
  {
  }

  /** Where nothing is given back or replaced, each capture is with the client or in
      the queue. */
  ghost predicate Balanced(s: Setup, before: Cam, after: Cam) {
    !s.jpeg && !s.latest ==>
      |after.delivered| + |after.queue| + before.captures == |before.delivered| + |before.queue| + after.captures
  }

  /** The task is about to end a capture. */
  predicate Ending(c: Cam) {
    c.state.ReadBuf? && c.events != [] && c.events[0].Vsync?
  }

  class Camera {
    const s: Setup
    var c: Cam

    constructor (s: Setup)
      ensures this.s == s && Inv(s, c, c.captures) && c.delivered == [] && c.queue == []
      ensures forall f | 0 <= f < |c.frames| :: c.frames[f].en
      ensures c.state.Idle? && c.framePos == 0 && c.events == [] && c.dma.None? && c.queued == {} && c.captures == 0
      ensures forall f | 0 <= f < |c.frames| :: c.frames[f] == Frame(true, 0, [], Driver, 0, [], false)
    {
      this.s := s;
      c := Cam(Idle, seq(s.frameCnt, _ => Frame(true, 0, [], Driver, 0, [], false)), 0, 0, [], [],
               None, seq(s.halfCnt, _ => seq(s.half, _ => 0)), [], {}, [], 0);
    }

    /** ll_cam_send_event: an event that finds the queue full stops the capture. */
    method SendEvent(e: Event)
      modifies this
      ensures c == if |old(c).events| < s.halfCnt - 1 then old(c).(events := old(c).events + [e])
                   else old(c).(dma := None, state := Idle)
    {
      if |c.events| < s.halfCnt - 1 {
        c := c.(events := c.events + [e]);
      } else {
        c := c.(dma := None, state := Idle);
      }
    }

    /** The DMA engine finishes a half. */
    method Half(bytes: seq<byte>, ghost bound: nat)
      requires Inv(s, c, bound) && |bytes| == s.half
      modifies this
      ensures Inv(s, c, bound) && c.queue == old(c).queue && c.frames == old(c).frames
      ensures (old(c).dma.None? ==> c == old(c)) && c.framePos == old(c).framePos && c.captures == old(c).captures
      ensures c.delivered == old(c).delivered
      ensures old(c).dma.Some? && |old(c).events| >= s.halfCnt - 1 ==> c.dma.None? && c.state.Idle? && c.events == old(c).events
      ensures old(c).dma.Some? ==> c.slots == old(c).slots[|old(c).history| % s.halfCnt := bytes] && c.history == old(c).history + [bytes]
      ensures old(c).dma.Some? && |old(c).events| < s.halfCnt - 1 ==>
                c == old(c).(slots := c.slots, history := c.history, events := old(c).events + [Eof])
    {
      if c.dma.None? {
        return;
      }
      ghost var f, ppd := c.frames[c.framePos], s.PixelsPerDma();
      if Filling(s, ppd, f, c.cnt, c.events, c.slots, c.history) {
        FillingAfterHalf(s, ppd, f, c.cnt, c.events, c.slots, c.history, bytes);
      }
      c := c.(slots := c.slots[|c.history| % s.halfCnt := bytes], history := c.history + [bytes]);
      SendEvent(Eof);
    }

    method Pulse(ghost bound: nat)
      requires Inv(s, c, bound)
      modifies this
      ensures Inv(s, c, bound) && c.queue == old(c).queue && c.frames == old(c).frames
      ensures (old(c).dma.None? ==> c.dma.None?) && c.framePos == old(c).framePos && c.captures == old(c).captures
      ensures c.delivered == old(c).delivered
      ensures |old(c).events| < s.halfCnt - 1 ==> c == old(c).(events := old(c).events + [Vsync])
      ensures |old(c).events| >= s.halfCnt - 1 ==> c.dma.None? && c.state.Idle? && c.events == old(c).events
    {
      EofCountAppend(c.events, Vsync);
      SendEvent(Vsync);
    }

    /** Changes a frame that is not in the queue. */
    method SetFrame(f: nat, frame: Frame, ghost bound: nat)
      requires Owned(s, c, bound) && f < |c.frames| && !c.frames[f].place.Queued?
      requires (frame.en <==> frame.place.Driver?) && !frame.place.Queued?
      requires !s.psram ==> frame.len == |frame.buf| <= s.fbSize
      requires s.Raw() && !frame.en ==> Complete(s, frame)
      modifies this
      ensures Owned(s, c, bound) && c == old(c).(frames := old(c).frames[f := frame])
    {
      PutPlaced(c.frames, c.queue, c.queued, f, frame);
      PutOrdered(c.frames, c.queue, c.queued, f, frame, c.delivered, bound);
      c := c.(frames := c.frames[f := frame]);
    }

    /** cam_give: enables the frame the client holds. */
    method GiveBack(f: nat, ghost bound: nat)
      requires Inv(s, c, bound) && f < |c.frames| && c.frames[f].place.Client?
      modifies this
      ensures Inv(s, c, bound) && c == old(c).(frames := old(c).frames[f := old(c).frames[f].Enabled()])
    {
      SetFrame(f, c.frames[f].Enabled(), bound);
    }

    /** Takes the oldest frame off the queue; it becomes the given one, and counts
        as delivered if the client gets it. */
    method Pop(frame: Frame, ghost bound: nat)
      requires Owned(s, c, bound) && c.queue != []
      requires (frame.en <==> frame.place.Driver?) && !frame.place.Queued?
      requires frame.stamp == c.frames[c.queue[0]].stamp
      requires !s.psram ==> frame.len == |frame.buf| <= s.fbSize
      requires s.Raw() && !frame.en ==> Complete(s, frame)
      modifies this
      ensures Owned(s, c, bound)
      ensures c == old(c).(queue := old(c).queue[1..], queued := old(c).queued - {old(c).queue[0]},
                           frames := old(c).frames[old(c).queue[0] := frame],
                           delivered := old(c).delivered + (if frame.place.Client? then [frame.stamp] else []))
    {
      var f := c.queue[0];
      TakePlaced(c.frames, c.queue, c.queued, frame);
      TakeOrdered(c.frames, c.queue, c.queued, c.delivered, bound, frame);
      c := c.(queue := c.queue[1..], queued := c.queued - {f}, frames := c.frames[f := frame]);
      if frame.place.Client? {
        c := c.(delivered := c.delivered + [frame.stamp]);
      }
    }

    /** cam_take, one receive: the oldest capture, unless a JPEG without an end
        marker, which is given straight back. */
    method TakeOne(hasEoi: bool, ghost bound: nat) returns (taken: Option<nat>)
      requires Inv(s, c, bound)
      modifies this
      ensures Inv(s, c, bound)
      ensures taken.Some? ==> old(c).queue != [] && taken.value == old(c).queue[0] && c.frames[taken.value].place.Client?
      ensures taken.Some? && s.Raw() ==> Complete(s, c.frames[taken.value])
      ensures c.delivered == old(c).delivered + (if taken.Some? then [old(c).frames[old(c).queue[0]].stamp] else [])
      ensures taken.Some? <==> old(c).queue != [] && (!s.jpeg || hasEoi)
      ensures if old(c).queue == [] then c == old(c)
              else var f := old(c).queue[0];
                   && c.queue == old(c).queue[1..] && |c.frames| == |old(c).frames|
                   && c.frames == old(c).frames[f := c.frames[f]]
                   && (taken.None? ==> c.frames[f] == old(c).frames[f].Enabled())
      ensures Balanced(s, old(c), c)
      // the frame is as it was, but that from PSRAM YUV is halved
      ensures taken.Some? ==>
                var f, g := old(c).frames[taken.value], c.frames[taken.value];
                && g.buf == f.buf && g.stamp == f.stamp && g.halves == f.halves && g.clean == f.clean
                && g.len == if !s.jpeg && s.psram && s.inBpp != s.fbBpp then f.len / 2 else f.len
      ensures |c.queue| <= |old(c).queue| && InTaskKept(old(c).frames, c.frames)
      ensures c.dma == old(c).dma && c.framePos == old(c).framePos && c.captures == old(c).captures
    {
      if c.queue == [] {
        return None;
      }
      var f := c.queue[0];
      assert f in multiset(c.queue) && c.frames[f].place.Queued?;
      if s.jpeg && !hasEoi {
        Pop(c.frames[f].Enabled(), bound);
        return None;
      }
      Pop(Received(s, c.frames[f]), bound);
      return Some(f);
    }

    /** One thing the client or the hardware does. */
    method Perform(act: Act, ghost bound: nat)
      requires Inv(s, c, bound)
      modifies this
      ensures Balanced(s, old(c), c)
      ensures match act
              case Take(_) => c.queue == if old(c).queue == [] then [] else old(c).queue[1..]
              case Give(f) => f < |old(c).frames| && old(c).frames[f].place.Client? ==> f < |c.frames| && c.frames[f].en
              case HalfDone(bytes) => |bytes| == s.half && old(c).dma.Some? ==> c.history == old(c).history + [bytes]
              case VsyncPulse => |old(c).events| < s.halfCnt - 1 ==> c.events == old(c).events + [Vsync]
      ensures Inv(s, c, bound) && |c.queue| <= |old(c).queue| && (old(c).dma.None? ==> c.dma.None?)
      ensures InTaskKept(old(c).frames, c.frames) && c.framePos == old(c).framePos && c.captures == old(c).captures
    {
      match act {
        case Take(hasEoi) =>
          var _ := TakeOne(hasEoi, bound);
        case Give(f) =>
          if f < |c.frames| && c.frames[f].place.Client? {
            GiveBack(f, bound);
          }
        case HalfDone(bytes) =>
          if |bytes| == s.half {
            Half(bytes, bound);
          }
        case VsyncPulse =>
          Pulse(bound);
      }
    }

    method Environment(acts: seq<Act>, ghost bound: nat)
      requires Inv(s, c, bound)
      modifies this
      ensures acts == [] ==> c == old(c)
      ensures Balanced(s, old(c), c)
      ensures Inv(s, c, bound) && |c.queue| <= |old(c).queue| && (old(c).dma.None? ==> c.dma.None?)
      ensures InTaskKept(old(c).frames, c.frames) && c.framePos == old(c).framePos && c.captures == old(c).captures
    {
      for i := 0 to |acts|
        invariant acts == [] ==> c == old(c)
        invariant Balanced(s, old(c), c)
        invariant Inv(s, c, bound) && |c.queue| <= |old(c).queue| && (old(c).dma.None? ==> c.dma.None?)
        invariant InTaskKept(old(c).frames, c.frames) && c.framePos == old(c).framePos && c.captures == old(c).captures
      {
        Perform(acts[i], bound);
      }
    }

    /** cam_get_next_frame: stays on an enabled frame, else takes the first. */
    method GetNextFrame() returns (found: bool)
      requires c.framePos < |c.frames|
      modifies this
      ensures c == old(c).(framePos := c.framePos) && c.framePos < |c.frames|
      ensures found ==> IsNext(old(c).frames, old(c).framePos, c.framePos)
      ensures !found ==> c == old(c) && forall f | 0 <= f < |c.frames| :: !c.frames[f].en
    {
      if !c.frames[c.framePos].en {
        for x := 0 to |c.frames|
          invariant c == old(c)
          invariant forall f | 0 <= f < x :: !c.frames[f].en
        {
          if c.frames[x].en {
            c := c.(framePos := x);
            return true;
          }
        }
        return false;
      }
      return true;
    }

    /** cam_start_frame, with the resets its callers make on success. */
    method StartFrame() returns (ok: bool)
      requires Owned(s, c, c.captures) && Sized(s, c) && c.framePos < |c.frames|
      requires c.dma.Some? ==> c.frames[c.framePos].en
      modifies this
      ensures Owned(s, c, c.captures) && Sized(s, c) && c.framePos < |c.frames|
      ensures ok ==> IsNext(old(c).frames, old(c).framePos, c.framePos) && c == Started(old(c), c.framePos)
      ensures ok ==> c.dma == Some(c.framePos) && c.frames[c.framePos].en
      ensures ok ==> Filling(s, s.PixelsPerDma(), c.frames[c.framePos], c.cnt, c.events, c.slots, c.history)
      ensures !ok ==> c == old(c).(cnt := 0) && c.dma.None? && forall f | 0 <= f < |c.frames| :: !c.frames[f].en
      ensures c.state == old(c).state && InTaskKept(old(c).frames, c.frames)
      ensures c.queue == old(c).queue && c.captures == old(c).captures && c.events == old(c).events
    {
      ok := GetNextFrame();
      c := c.(cnt := 0);
      if ok {
        FillingFromStart(s, s.PixelsPerDma(), c.frames[c.framePos], c.events, c.slots);
        c := c.(dma := Some(c.framePos), history := []);
        SetFrame(c.framePos, Restarted(c.frames[c.framePos], c.events), c.captures);
      }
    }

    /** The oldest uncopied half goes from the DMA buffer to the frame. */
    method CopyHalf()
      requires Owned(s, c, c.captures) && Sized(s, c) && c.framePos < |c.frames| && c.frames[c.framePos].en && !s.psram
      requires c.frames[c.framePos].len + s.PixelsPerDma() <= s.fbSize
      modifies this
      ensures Owned(s, c, c.captures)
      ensures var f := Extended(s, s.PixelsPerDma(), old(c).frames[old(c).framePos], old(c).slots[old(c).cnt % s.halfCnt]);
              c == old(c).(frames := old(c).frames[old(c).framePos := f])
    {
      var slot := c.slots[c.cnt % s.halfCnt];
      ConvertedLength(s, slot);
      var f := c.frames[c.framePos];
      var data := Converted(s.Grey(), slot);
      SetFrame(c.framePos, f.(len := f.len + |data|, buf := f.buf + data), c.captures);
    }

    /** An end-of-half event in the reading state. */
    method OnEof(soiFound: bool)
      requires Owned(s, c, c.captures) && Sized(s, c) && c.framePos < |c.frames| && c.frames[c.framePos].en
      requires c.dma.Some? ==> c.dma.value == c.framePos
      requires !s.psram ==> Filling(s, s.PixelsPerDma(), c.frames[c.framePos], c.cnt, [Eof] + c.events, c.slots, c.history)
      modifies this
      ensures Inv(s, c, c.captures) && InTaskKept(old(c).frames, c.frames)
      ensures c == AfterEof(s, old(c), soiFound)
    {
      var ppd := s.PixelsPerDma();
      assert ([Eof] + c.events)[1..] == c.events;
      if !s.psram {
        if s.fbSize < c.frames[c.framePos].len + ppd {
          c := c.(dma := None);
          return;
        }
        FillingAfterCopy(s, ppd, c.frames[c.framePos], c.cnt, c.events, c.slots, c.history);
        CopyHalf();
      }
      if s.jpeg && c.cnt == 0 && !soiFound {
        c := c.(dma := None, state := Idle);
      }
      c := c.(cnt := c.cnt + 1);
    }

    /** The end of a frame in the reading state. */
    method OnVsync(others: Interleaving)
      requires Owned(s, c, c.captures) && Sized(s, c) && c.framePos < |c.frames| && c.frames[c.framePos].en
      requires !s.psram ==> Filling(s, s.PixelsPerDma(), c.frames[c.framePos], c.cnt, c.events, c.slots, c.history)
      requires NoneInTask(c.frames) && c.state.ReadBuf?
      modifies this
      ensures Inv(s, c, c.captures) && NoneInTask(c.frames)
      ensures c.dma.None? ==> c.state.Idle? && forall f | 0 <= f < |c.frames| :: !c.frames[f].en
      ensures FrameEnded(s, old(c), c) && Balanced(s, old(c), c)
      ensures others.Quiet() ==> QueueAfterFrame(s, old(c), c)
      ensures QuietlySent(s, others, old(c)) ==> GoesOn(Enqueued(Taken(s, LastHalf(s, old(c).(dma := None)))), c)
      ensures !Delivers(s, old(c)) ==> GoesOn(old(c).(dma := None), c)
    {
      c := c.(dma := None);
      EndFrame(others);
      Restart();
    }

    /** The next frame after the end of one. */
    method Restart()
      requires Rested(s, c)
      modifies this
      ensures Inv(s, c, c.captures) && NoneInTask(c.frames)
      ensures c.dma.None? ==> c.state.Idle? && forall f | 0 <= f < |c.frames| :: !c.frames[f].en
      ensures GoesOn(old(c), c) && c.queue == old(c).queue && c.captures == old(c).captures && c.events == old(c).events
    {
      var ok := StartFrame();
      if !ok {
        c := c.(state := Idle);
      }
    }

    /** The capture of the current frame ends: it is delivered if it is complete. */
    method EndFrame(others: Interleaving)
      requires Rested(s, c) && c.frames[c.framePos].en
      requires !s.psram ==> Filling(s, s.PixelsPerDma(), c.frames[c.framePos], c.cnt, c.events, c.slots, c.history)
      modifies this
      ensures Rested(s, c)
      ensures FrameEnded(s, old(c), c) && Balanced(s, old(c), c)
      ensures others.Quiet() ==> QueueAfterFrame(s, old(c), c)
      ensures QuietlySent(s, others, old(c)) ==> c == Enqueued(Taken(s, LastHalf(s, old(c))))
      ensures !Delivers(s, old(c)) ==> c == old(c)
      ensures Delivers(s, old(c)) && c.queue == [] ==> old(c).framePos < |c.frames| && c.frames[old(c).framePos].en
    {
      if c.cnt > 0 || !s.jpeg || s.psram {
        if s.jpeg {
          CopyLast();
        }
        assert c == LastHalf(s, old(c));
        SameQueue(s, old(c));
        if s.psram || s.jpeg || c.frames[c.framePos].len == s.fbSize {
          Deliver(others);
        }
      }
    }

    /** The last half changes nothing that the end of a capture is about. */
    lemma SameQueue(s: Setup, c: Cam)
      requires c.framePos < |c.frames| && |c.slots| == s.halfCnt
      ensures var d := LastHalf(s, c);
              && d.queue == c.queue && d.events == c.events && d.captures == c.captures && d.delivered == c.delivered
              && d.framePos == c.framePos && |d.frames| == |c.frames|
    {
    }

    /** The half under way when a JPEG ends. */
    method CopyLast()
      requires Rested(s, c) && c.frames[c.framePos].en && s.jpeg && (c.cnt > 0 || s.psram)
      modifies this
      ensures Rested(s, c) && c.frames[c.framePos].en && c == LastHalf(s, old(c))
    {
      if !s.psram {
        if s.fbSize < c.frames[c.framePos].len + s.PixelsPerDma() {
          c := c.(cnt := c.cnt - 1);
        } else {
          CopyHalf();
        }
      }
      c := c.(cnt := c.cnt + 1);
    }

    /** The finished frame goes to the delivery queue, in place of the oldest if
        the queue is full. The client and the hardware act in between. */
    method Deliver(others: Interleaving)
      requires Rested(s, c) && c.frames[c.framePos].en
      requires s.Raw() ==> Complete(s, Finished(s, c))
      modifies this
      ensures Rested(s, c) && c.captures == old(c).captures + 1
      ensures c.queue == [] || c.queue[|c.queue| - 1] == old(c).framePos
      ensures c.queue == [] ==> old(c).framePos < |c.frames| && c.frames[old(c).framePos].en
      ensures c.queue == [] ==> |old(c).queue| >= s.QueueLen()
      ensures Balanced(s, old(c), c)
      ensures others.Quiet() && |old(c).queue| < s.QueueLen() ==> c == Enqueued(Taken(s, old(c)))
      ensures others.Quiet() ==> c.queue == Sent(old(c).queue, s.QueueLen(), old(c).framePos) && c.events == old(c).events
    {
      ghost var stamp := c.captures;
      TakeInHand();
      SendInHand(others, stamp);
    }

    /** xQueueSend of the frame in hand and, if the queue is full, what follows. */
    method SendInHand(others: Interleaving, ghost stamp: nat)
      requires InHand(s, c, stamp, c.framePos)
      modifies this
      ensures Rested(s, c) && c.captures == old(c).captures
      ensures c.queue == [] || c.queue[|c.queue| - 1] == old(c).framePos
      ensures c.queue == [] ==> old(c).framePos < |c.frames| && c.frames[old(c).framePos].en
      ensures c.queue == [] ==> |old(c).queue| >= s.QueueLen()
      ensures !s.jpeg && !s.latest ==> |c.delivered| + |c.queue| == |old(c).delivered| + |old(c).queue| + 1
      ensures others.Quiet() && |old(c).queue| < s.QueueLen() ==> c == Enqueued(old(c))
      ensures others.Quiet() ==> c.queue == Sent(old(c).queue, s.QueueLen(), old(c).framePos) && c.events == old(c).events
    {
      Wait(others.beforeSend, stamp, c.framePos);
      SendNow(others, stamp);
    }

    method SendNow(others: Interleaving, ghost stamp: nat)
      requires InHand(s, c, stamp, c.framePos)
      modifies this
      ensures Rested(s, c) && c.captures == old(c).captures
      ensures c.queue == [] || c.queue[|c.queue| - 1] == old(c).framePos
      ensures c.queue == [] ==> old(c).framePos < |c.frames| && c.frames[old(c).framePos].en
      ensures c.queue == [] ==> |old(c).queue| >= s.QueueLen()
      ensures !s.jpeg && !s.latest ==> |c.delivered| + |c.queue| == |old(c).delivered| + |old(c).queue| + 1
      ensures |old(c).queue| < s.QueueLen() ==> c == Enqueued(old(c))
      ensures others.Quiet() ==> c.queue == Sent(old(c).queue, s.QueueLen(), old(c).framePos) && c.events == old(c).events
    {
      Waiting(s, c, stamp);
      if |c.queue| < s.QueueLen() {
        Send(stamp);
      } else {
        SendToFull(others, stamp);
      }
    }

    method Send(ghost stamp: nat)
      requires InHand(s, c, stamp, c.framePos) && |c.queue| < s.QueueLen()
      modifies this
      ensures Rested(s, c) && c.captures == old(c).captures
      ensures c == Enqueued(old(c))
    {
      Enqueue(stamp);
    }

    /** The queue was full: the oldest frame is taken out of it, unless the client
        has emptied it meanwhile; then the frame in hand is not delivered. */
    method SendToFull(others: Interleaving, ghost stamp: nat)
      requires InHand(s, c, stamp, c.framePos)
      modifies this
      ensures Rested(s, c) && c.captures == old(c).captures
      ensures c.queue == [] || c.queue[|c.queue| - 1] == old(c).framePos
      ensures c.queue == [] ==> old(c).framePos < |c.frames| && c.frames[old(c).framePos].en
      ensures others.Quiet() && old(c).queue != [] ==>
                c.queue == old(c).queue[1..] + [old(c).framePos] && c.events == old(c).events
    {
      Wait(others.beforeReceive, stamp, c.framePos);
      if c.queue != [] {
        Replace(others.beforeResend, stamp);
      } else {
        SetFrame(c.framePos, c.frames[c.framePos].Enabled(), c.captures);
      }
    }

    /** Others act while the task holds frames. */
    method Wait(acts: seq<Act>, ghost stamp: nat, ghost other: nat)
      requires InHand(s, c, stamp, other)
      modifies this
      ensures InHand(s, c, stamp, other) && |c.queue| <= |old(c).queue|
      ensures c.framePos == old(c).framePos && c.captures == old(c).captures
      ensures acts == [] ==> c == old(c)
      ensures Balanced(s, old(c), c)
    {
      Environment(acts, stamp);
    }

    /** The oldest frame is taken out, the one in hand sent, the oldest enabled. */
    method Replace(acts: seq<Act>, ghost stamp: nat)
      requires InHand(s, c, stamp, c.framePos) && c.queue != []
      modifies this
      ensures Rested(s, c) && c.captures == old(c).captures
      ensures c.queue != [] && c.queue[|c.queue| - 1] == old(c).framePos
      ensures c.frames[old(c).queue[0]].en
      ensures acts == [] ==> c.queue == old(c).queue[1..] + [old(c).framePos] && c.events == old(c).events
    {
      var oldest := TakeOldest(stamp);
      Wait(acts, stamp, oldest);
      Resend(oldest, stamp);
    }

    method TakeOldest(ghost stamp: nat) returns (oldest: nat)
      requires InHand(s, c, stamp, c.framePos) && c.queue != []
      modifies this
      ensures InHand(s, c, stamp, oldest) && oldest != c.framePos && c.framePos == old(c).framePos
      ensures c.captures == old(c).captures && c.events == old(c).events
      ensures oldest == old(c).queue[0] && c.queue == old(c).queue[1..]
    {
      oldest := c.queue[0];
      assert oldest in multiset(c.queue) && c.frames[oldest].place.Queued?;
      Pop(c.frames[oldest].(place := Task), stamp);
    }

    method Resend(oldest: nat, ghost stamp: nat)
      requires InHand(s, c, stamp, oldest) && oldest != c.framePos && |c.queue| < s.QueueLen()
      modifies this
      ensures Rested(s, c) && c.captures == old(c).captures
      ensures c.queue == old(c).queue + [old(c).framePos] && c.events == old(c).events && c.frames[oldest].en
    {
      Enqueue(stamp);
      SetFrame(oldest, c.frames[oldest].Enabled(), c.captures);
    }

    /** The task disables the frame and numbers the capture. */
    method TakeInHand()
      requires Rested(s, c) && c.frames[c.framePos].en
      requires s.Raw() ==> Complete(s, Finished(s, c))
      modifies this
      ensures InHand(s, c, old(c).captures, c.framePos)
      ensures c == Taken(s, old(c))
      ensures var f := c.frames[c.framePos];
              && !f.en && f.stamp == old(c).captures && f.buf == old(c).frames[c.framePos].buf
              && f.len == if !s.psram then old(c).frames[c.framePos].len else if s.jpeg then old(c).cnt * s.half else s.recvSize
    {
      var stamp := c.captures;
      SetFrame(c.framePos, Finished(s, c), stamp);
      c := c.(captures := stamp + 1);
    }

    /** xQueueSend of the frame in hand, which finds room. */
    method Enqueue(ghost stamp: nat)
      requires Owned(s, c, stamp) && c.framePos < |c.frames| && |c.queue| < s.QueueLen()
      requires c.frames[c.framePos].place.Task? && c.frames[c.framePos].stamp == stamp < c.captures
      modifies this
      ensures Owned(s, c, c.captures)
      ensures c == Enqueued(old(c))
    {
      SendPlaced(c.frames, c.queue, c.queued, c.framePos);
      SendOrdered(c.frames, c.queue, c.queued, c.framePos, c.delivered, c.captures);
      c := Enqueued(c);
    }

    /** One round of cam_task: an event is received and handled. */
    method Round(soiFound: bool, others: Interleaving)
      requires Inv(s, c, c.captures) && NoneInTask(c.frames)
      modifies this
      ensures Inv(s, c, c.captures) && NoneInTask(c.frames)
      ensures old(c).events == [] ==> c == old(c)
      ensures old(c).events != [] && old(c).state.Idle? && old(c).events[0].Eof? ==> c == old(c).(events := old(c).events[1..])
      ensures old(c).events != [] && old(c).events[0].Vsync? && old(c).state.Idle? ==>
                GoesOn(old(c).(events := old(c).events[1..], state := ReadBuf), c)
      ensures old(c).events != [] && old(c).state.ReadBuf? ==>
                var was := old(c).(events := old(c).events[1..]);
                if old(c).events[0].Eof? then
                  c == AfterEof(s, was, soiFound)
                else
                  && FrameEnded(s, was, c)
                  && (others.Quiet() ==> QueueAfterFrame(s, was, c))
                  && (QuietlySent(s, others, was) ==> GoesOn(Enqueued(Taken(s, LastHalf(s, was.(dma := None)))), c))
                  && (!Delivers(s, was) ==> GoesOn(was.(dma := None), c))
      ensures Balanced(s, old(c), c)
      ensures !Ending(old(c)) ==> c.captures == old(c).captures
    {
      if c.events == [] {
        return;
      }
      var event := c.events[0];
      assert c.events == [event] + c.events[1..];
      c := c.(events := c.events[1..]);
      match c.state {
        case Idle =>
          if event.Vsync? {
            WhenIdle();
          }
        case ReadBuf =>
          if event.Eof? {
            OnEof(soiFound);
          } else {
            OnVsync(others);
          }
      }
    }

    /** The start of a frame in the idle state. */
    method WhenIdle()
      requires Inv(s, c, c.captures) && NoneInTask(c.frames) && c.state.Idle?
      modifies this
      ensures Inv(s, c, c.captures) && NoneInTask(c.frames)
      ensures GoesOn(old(c).(state := ReadBuf), c)
    {
      var ok := StartFrame();
      if ok {
        c := c.(state := ReadBuf);
      }
    }
  }

  /** Why a frame started among stale events is not claimed to be the picture of
      its halves: the stale event makes the task copy a half the DMA engine has
      not received since the start. */
  method StaleEvent(cam: Camera)
    requires Inv(cam.s, cam.c, cam.c.captures) && NoneInTask(cam.c.frames)
    requires cam.s.Raw() && cam.c.state.ReadBuf? && cam.s.PixelsPerDma() <= cam.s.fbSize
    requires cam.c.cnt == 0 && cam.c.history == [] && cam.c.frames[cam.c.framePos].buf == []
    requires cam.c.events != [] && cam.c.events[0].Eof?
    modifies cam
    ensures cam.c.history == [] && cam.c.framePos < |cam.c.frames|
    ensures cam.c.frames[cam.c.framePos].buf == Converted(cam.s.Grey(), old(cam.c).slots[0])
  {
    assert cam.c.events == [Eof] + cam.c.events[1..];
    cam.c := cam.c.(events := cam.c.events[1..]);
    cam.OnEof(true);
    assert [] + Converted(cam.s.Grey(), old(cam.c).slots[0]) == Converted(cam.s.Grey(), old(cam.c).slots[0]);
  }

  const QUIET := Interleaving([], [], [])

  /** It happens in every raw mode whose frame is one half, with three halves and two
      places in the delivery queue at least: a half received after the end of the
      first frame leaves its event queued; the second frame then gets the first half
      of the first frame, while the half received for it, d, does not fit any more. */
  method StaleFrame(s: Setup, a: seq<byte>, b: seq<byte>, d: seq<byte>) returns (c: Cam)
    requires s.Raw() && s.PixelsPerDma() == s.fbSize > 0 && s.halfCnt >= 3 && s.QueueLen() >= 2
    requires |a| == |b| == |d| == s.half
    ensures StaleSent(s, c, a, d)
  {
    var cam := new Camera(s);
    StartFirst(cam);
    CopyFirst(cam, a);
    EndFirst(cam, a, b);
    CopyStale(cam, a);
    MissOne(cam, a, d);
    EndSecond(cam, a, d);
    c := cam.c;
  }

  /** One half a frame. */
  ghost predicate OneHalf(s: Setup) {
    s.Raw() && s.PixelsPerDma() == s.fbSize > 0 && s.halfCnt >= 3 && s.QueueLen() >= 2
  }

  ghost predicate Between(cam: Camera)
    reads cam
  {
    Inv(cam.s, cam.c, cam.c.captures) && NoneInTask(cam.c.frames) && OneHalf(cam.s) && |cam.c.frames| >= 2
  }

  /** The task is filling frame f and has copied cnt halves. */
  ghost predicate At(c: Cam, f: nat, cnt: nat, events: seq<Event>, queue: seq<nat>) {
    c.state.ReadBuf? && c.framePos == f && c.dma == Some(f) && c.cnt == cnt && c.events == events && c.queue == queue
  }

  method StartFirst(cam: Camera)
    requires Between(cam) && cam.c.state.Idle? && cam.c.framePos == 0 && cam.c.events == [] && cam.c.queue == []
    requires cam.c.frames[0].en && cam.c.frames[1].en
    modifies cam
    ensures Between(cam) && At(cam.c, 0, 0, [], []) && cam.c.history == []
    ensures cam.c.frames[0].len == 0 && cam.c.frames[1].en
  {
    cam.Pulse(cam.c.captures);
    cam.Round(true, QUIET);
  }

  method CopyFirst(cam: Camera, a: seq<byte>)
    requires Between(cam) && At(cam.c, 0, 0, [], []) && cam.c.history == [] && |a| == cam.s.half
    requires cam.c.frames[0].len == 0 && cam.c.frames[1].en
    modifies cam
    ensures Between(cam) && At(cam.c, 0, 1, [], []) && cam.c.history == [a] && cam.c.slots[0] == a
    ensures cam.c.frames[0].len == cam.s.fbSize && cam.c.frames[1].en
  {
    cam.Half(a, cam.c.captures);
    cam.Round(true, QUIET);
  }

  method EndFirst(cam: Camera, a: seq<byte>, b: seq<byte>)
    requires Between(cam) && At(cam.c, 0, 1, [], []) && cam.c.history == [a] && cam.c.slots[0] == a
    requires cam.c.frames[0].len == cam.s.fbSize && cam.c.frames[1].en && |b| == cam.s.half
    modifies cam
    ensures Between(cam) && cam.c.slots[0] == a && StaleStart(cam.c)
  {
    HalfTooMany(cam, a, b);
    ghost var was := cam.c;
    QuietEnd(cam);
    StartsStale(cam.s, was.(events := was.events[1..]), cam.c);
  }

  /** The end of a capture, with no one else active. */
  method QuietEnd(cam: Camera)
    requires Between(cam) && Ending(cam.c)
    requires QuietlySent(cam.s, QUIET, cam.c.(events := cam.c.events[1..])) && !cam.s.jpeg
    modifies cam
    ensures Between(cam)
    ensures GoesOn(Enqueued(Taken(cam.s, old(cam.c).(events := old(cam.c).events[1..], dma := None))), cam.c)
  {
    cam.Round(true, QUIET);
  }

  method HalfTooMany(cam: Camera, a: seq<byte>, b: seq<byte>)
    requires Between(cam) && At(cam.c, 0, 1, [], []) && cam.c.history == [a] && cam.c.slots[0] == a
    requires |b| == cam.s.half
    modifies cam
    ensures Between(cam) && At(cam.c, 0, 1, [Vsync, Eof], []) && cam.c.slots[0] == a && cam.c.frames == old(cam.c.frames)
  {
    cam.Pulse(cam.c.captures);
    cam.Half(b, cam.c.captures);
  }

  /** The second frame is started while an event of the first is queued. */
  ghost predicate StaleStart(c: Cam) {
    && At(c, 1, 0, [Eof], [0]) && c.history == []
    && |c.frames| >= 2 && c.frames[1].len == 0 && c.frames[1].buf == [] && !c.frames[1].clean
  }

  lemma StartsStale(s: Setup, was: Cam, c: Cam)
    requires At(was, 0, 1, [Eof], []) && |was.frames| >= 2 && was.frames[1].en
    requires GoesOn(Enqueued(Taken(s, was.(dma := None))), c)
    ensures StaleStart(c) && c.slots == was.slots
  {
    var sent := Enqueued(Taken(s, was.(dma := None)));
    assert !sent.frames[0].en && sent.frames[1].en;
    assert EofCount([]) == 0 && [Eof][1..] == [];
  }

  method CopyStale(cam: Camera, a: seq<byte>)
    requires Between(cam) && StaleStart(cam.c) && cam.c.slots[0] == a
    modifies cam
    ensures Between(cam) && StaleCopy(cam.s, cam.c, a) && cam.c.dma == Some(1) && cam.c.history == []
  {
    ghost var was := cam.c;
    cam.Round(true, QUIET);
    CopiesStale(cam.s, was, cam.c);
  }

  /** The second frame is full of a half of the first. */
  ghost predicate StaleCopy(s: Setup, c: Cam, a: seq<byte>) {
    && At(c.(dma := Some(1)), 1, 1, [], [0])
    && |c.frames| >= 2 && c.frames[1].len == s.fbSize && !c.frames[1].clean && c.frames[1].buf == Converted(s.Grey(), a)
  }

  lemma CopiesStale(s: Setup, was: Cam, c: Cam)
    requires OneHalf(s) && StaleStart(was) && |was.slots| == s.halfCnt
    requires c == HalfCopied(s, was.(events := was.events[1..]))
    ensures StaleCopy(s, c, was.slots[0])
  {
    DivModUnique(0, s.halfCnt, 0, 0);
    var ppd, slot := s.PixelsPerDma(), was.slots[0];
    var f := Extended(s, ppd, was.frames[1], slot);
    assert c.frames == was.frames[1 := f] && c.cnt == 1;
    FillsFrame(s, ppd, was.frames[1], slot);
    assert [Eof][1..] == [];
  }

  lemma FillsFrame(s: Setup, ppd: nat, f: Frame, slot: seq<byte>)
    requires ppd == s.fbSize && f.len == 0 && f.buf == []
    ensures var g := Extended(s, ppd, f, slot);
            g.len == s.fbSize && g.buf == Converted(s.Grey(), slot) && g.clean == f.clean
  {
    assert [] + Converted(s.Grey(), slot) == Converted(s.Grey(), slot);
  }

  method MissOne(cam: Camera, a: seq<byte>, d: seq<byte>)
    requires Between(cam) && StaleCopy(cam.s, cam.c, a) && cam.c.dma == Some(1) && cam.c.history == [] && |d| == cam.s.half
    modifies cam
    ensures Between(cam) && StaleCopy(cam.s, cam.c, a) && cam.c.dma.None? && cam.c.history == [d]
  {
    cam.Half(d, cam.c.captures);
    cam.Round(true, QUIET);
  }

  method EndSecond(cam: Camera, a: seq<byte>, d: seq<byte>)
    requires Between(cam) && StaleCopy(cam.s, cam.c, a) && cam.c.dma.None? && cam.c.history == [d]
    modifies cam
    ensures StaleSent(cam.s, cam.c, a, d)
  {
    ghost var was := cam.c;
    cam.Pulse(cam.c.captures);
    assert cam.c == was.(events := [Vsync]);
    QuietEnd(cam);
    SendsStale(cam.s, was, cam.c, a, d);
  }

  /** A frame is queued that holds half a, although half d was received for it. */
  ghost predicate StaleSent(s: Setup, c: Cam, a: seq<byte>, d: seq<byte>) {
    && c.queue == [0, 1] && |c.frames| > 1 && c.frames[1].place.Queued? && !c.frames[1].clean
    && c.frames[1].buf == Converted(s.Grey(), a) && c.frames[1].halves == [d]
  }

  lemma SendsStale(s: Setup, was: Cam, c: Cam, a: seq<byte>, d: seq<byte>)
    requires s.Raw() && StaleCopy(s, was, a) && was.dma.None? && was.history == [d]
    requires GoesOn(Enqueued(Taken(s, was)), c)
    ensures StaleSent(s, c, a, d)
  {
    var sent := Enqueued(Taken(s, was));
    assert sent.queue == [0, 1] && !sent.frames[1].en;
    assert [d][..1] == [d];
  }

  // What every run keeps

  /** Enabled, once in the delivery queue, or held by the client, and not two of
      these. */
  ghost predicate OnePlace(c: Cam, f: nat)
    requires f < |c.frames|
  {
    var queuedTimes := multiset(c.queue)[f];
    if c.frames[f].en then queuedTimes == 0 && !c.frames[f].place.Client?
    else if c.frames[f].place.Client? then queuedTimes == 0
    else queuedTimes == 1
  }

  lemma PlacedOnce(s: Setup, c: Cam, f: nat)
    requires Owned(s, c, c.captures) && NoneInTask(c.frames) && f < |c.frames|
    ensures OnePlace(c, f)
  {
    assert multiset(c.queue)[f] == multiset(c.queued)[f];
  }

  /** Grab-latest mode with several frames always has a frame to fill when the
      client holds none. */
  lemma SomeFrameEnabled(s: Setup, c: Cam)
    requires Owned(s, c, c.captures) && NoneInTask(c.frames)
    requires s.latest && s.frameCnt > 1
    requires forall f | 0 <= f < |c.frames| :: !c.frames[f].place.Client?
    ensures exists f :: 0 <= f < |c.frames| && c.frames[f].en
  {
    assert |multiset(c.queue)| == |multiset(c.queued)| == |c.queued|;
    if forall f | 0 <= f < |c.frames| :: !c.frames[f].en {
      forall f | 0 <= f < s.frameCnt ensures f in c.queued {
        assert c.frames[f].place.Queued?;
      }
      Cover(c.queued, s.frameCnt);
    }
  }

  lemma {:induction false} Cover(numbers: set<nat>, n: nat)
    requires forall f | 0 <= f < n :: f in numbers
    ensures n <= |numbers|
  {
    if n > 0 {
      Cover(numbers - {n - 1}, n - 1);
    }
  }

  datatype Step = Other(act: Act) | TaskRound(soiFound: bool, others: Interleaving)

  /** A capture at its end: the length of its frame and the halves counted. */
  datatype Capture = Capture(len: nat, cnt: nat)

  /** The captures that are to be delivered: all into PSRAM, JPEGs of one half at
      least, and full frames. */
  function Delivered(s: Setup, ends: seq<Capture>): nat {
    if ends == [] then 0 else
      var last := |ends| - 1;
      Delivered(s, ends[..last])
      + (if s.psram || (if s.jpeg then ends[last].cnt > 0 else ends[last].len == s.fbSize) then 1 else 0)
  }

  lemma DeliveredNext(s: Setup, ends: seq<Capture>, e: Capture)
    ensures Delivered(s, ends + [e])
            == Delivered(s, ends) + (if s.psram || (if s.jpeg then e.cnt > 0 else e.len == s.fbSize) then 1 else 0)
  {
    assert (ends + [e])[..|ends|] == ends;
  }

  /** Every run of the task, the client and the hardware, in any interleaving; ends
      are the captures the task ended. */
  method Run(s: Setup, steps: seq<Step>) returns (c: Cam, ends: seq<Capture>)
    ensures |c.frames| == s.frameCnt && forall f | 0 <= f < |c.frames| :: OnePlace(c, f)
    ensures c.dma.Some? ==> c.dma.value < |c.frames| && c.frames[c.dma.value].en
    ensures forall i, j | 0 <= i < j < |c.delivered| :: c.delivered[i] < c.delivered[j]
    ensures !s.psram ==> forall f | 0 <= f < |c.frames| :: c.frames[f].len <= s.fbSize
    ensures s.Raw() ==> forall f | 0 <= f < |c.frames| && !c.frames[f].en :: Complete(s, c.frames[f])
    ensures s.latest && s.frameCnt > 1 && (forall f | 0 <= f < |c.frames| :: !c.frames[f].place.Client?)
            ==> exists f :: 0 <= f < |c.frames| && c.frames[f].en
    // every capture is delivered, and where none is replaced or given back the client
    // gets all of them in order
    ensures c.captures == Delivered(s, ends)
    ensures !s.jpeg && !s.latest ==> |c.delivered| + |c.queue| == Delivered(s, ends)
    ensures !s.jpeg && !s.latest ==> forall i | 0 <= i < |c.delivered| :: c.delivered[i] == i
  {
    var cam := new Camera(s);
    ends := [];
    for k := 0 to |steps|
      invariant fresh(cam) && cam.s == s && Inv(s, cam.c, cam.c.captures) && NoneInTask(cam.c.frames)
      invariant cam.c.captures == Delivered(s, ends)
      invariant !s.jpeg && !s.latest ==> |cam.c.delivered| + |cam.c.queue| == cam.c.captures
    {
      match steps[k] {
        case Other(act) =>
          cam.Perform(act, cam.c.captures);
        case TaskRound(soiFound, others) =>
          ends := RoundLogged(cam, soiFound, others, ends);
      }
    }
    c := cam.c;
    Conclusions(s, c);
    if !s.jpeg && !s.latest {
      NoGaps(s, c);
    }
  }

  method RoundLogged(cam: Camera, soiFound: bool, others: Interleaving, ends: seq<Capture>) returns (ends': seq<Capture>)
    requires Inv(cam.s, cam.c, cam.c.captures) && NoneInTask(cam.c.frames) && cam.c.captures == Delivered(cam.s, ends)
    modifies cam
    ensures Inv(cam.s, cam.c, cam.c.captures) && NoneInTask(cam.c.frames) && cam.c.captures == Delivered(cam.s, ends')
    ensures Balanced(cam.s, old(cam.c), cam.c)
  {
    ends' := ends;
    if Ending(cam.c) {
      var e := Capture(cam.c.frames[cam.c.framePos].len, cam.c.cnt);
      DeliveredNext(cam.s, ends, e);
      ends' := ends + [e];
    }
    cam.Round(soiFound, others);
  }

  /** As many captures in order as there are numbers leave no number out. */
  lemma NoGaps(s: Setup, c: Cam)
    requires Owned(s, c, c.captures) && |c.delivered| + |c.queue| == c.captures
    ensures forall i | 0 <= i < |c.delivered| :: c.delivered[i] == i
  {
    var stamps := c.delivered + seq(|c.queue|, j requires 0 <= j < |c.queue| => c.frames[c.queue[j]].stamp);
    Increasing(stamps, c.captures);
    assert forall i | 0 <= i < |c.delivered| :: stamps[i] == c.delivered[i];
  }

  lemma {:induction false} Increasing(stamps: seq<nat>, n: nat)
    requires |stamps| == n && forall i | 0 <= i < n :: stamps[i] < n
    requires forall i, j | 0 <= i < j < n :: stamps[i] < stamps[j]
    ensures forall i | 0 <= i < n :: stamps[i] == i
  {
    if n > 0 {
      var last := n - 1;
      AtLeastIndex(stamps, last);
      Increasing(stamps[..last], last);
      assert forall i | 0 <= i < last :: stamps[..last][i] == stamps[i];
    }
  }

  lemma {:induction false} AtLeastIndex(stamps: seq<nat>, k: nat)
    requires k < |stamps| && forall i, j | 0 <= i < j < |stamps| :: stamps[i] < stamps[j]
    ensures stamps[k] >= k
  {
    if k > 0 {
      AtLeastIndex(stamps, k - 1);
    }
  }

  lemma Conclusions(s: Setup, c: Cam)
    requires Inv(s, c, c.captures) && NoneInTask(c.frames)
    ensures forall f | 0 <= f < |c.frames| :: OnePlace(c, f)
    ensures s.latest && s.frameCnt > 1 && (forall f | 0 <= f < |c.frames| :: !c.frames[f].place.Client?)
            ==> exists f :: 0 <= f < |c.frames| && c.frames[f].en
  {
    forall f | 0 <= f < |c.frames| ensures OnePlace(c, f) {
      PlacedOnce(s, c, f);
    }
    if s.latest && s.frameCnt > 1 && forall f | 0 <= f < |c.frames| :: !c.frames[f].place.Client? {
      SomeFrameEnabled(s, c);
    }
  }
}
