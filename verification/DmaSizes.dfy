/** Choice of the camera's DMA node, half-buffer and buffer sizes
    (ll_cam_calc_rgb_dma in ll_cam.c) and the descriptor ring built from them
    (allocate_dma_descriptors in cam_hal.c). Sizes are in DMA items. */
module DmaSizes {
  import opened Arithmetic
  import opened Bytes

  datatype Sizes = Sizes(node: nat, half: nat, buffer: nat, halfCnt: nat, nodeCnt: nat)

  // The search

  /** The largest node that divides the line. */
  method NodeWithinLine(line: nat, nodeMax: nat) returns (node: nat)
    requires line > 0 && nodeMax > 0
    ensures 0 < node <= nodeMax && Divides(node, line)
    ensures forall d | node < d <= nodeMax :: !Divides(d, line)
  {
    node := nodeMax;
    while line % node != 0
      invariant 0 < node <= nodeMax
      invariant forall d | node < d <= nodeMax :: !Divides(d, line)
      decreases node
    {
      node := node - 1;
    }
  }

  /** The most lines that fit a node, as a multiple of the line, then the most of
      those that divide the height. */
  method LinesPerNode(line: nat, height: nat, nodeMax: nat) returns (node: nat, lines: nat)
    requires 0 < line <= nodeMax && height > 0
    ensures 0 < lines <= nodeMax / line && node == lines * line <= nodeMax
    ensures Divides(lines, height)
    ensures forall m | lines < m <= nodeMax / line :: !Divides(m, height)
  {
    node := LargestMultiple(line, nodeMax);
    Quotient(line, node);
    lines := node / line;
    while height % lines != 0
      invariant 0 < lines <= nodeMax / line && node == lines * line <= nodeMax
      invariant forall m | lines < m <= nodeMax / line :: !Divides(m, height)
      decreases lines
    {
      lines := lines - 1;
      node := lines * line;
    }
  }

  method LargestMultiple(line: nat, nodeMax: nat) returns (i: nat)
    requires 0 < line <= nodeMax
    ensures i <= nodeMax && Divides(line, i) && i / line == nodeMax / line > 0
  {
    i := nodeMax;
    ghost var q := nodeMax / line;
    MultipleDivides(q, line);
    while i % line != 0
      invariant q * line <= i <= nodeMax
      decreases i
    {
      i := i - 1;
    }
    SameQuotient(nodeMax, i, line);
  }

  /** A node is a divisor of the line or a whole number of lines; either way the
      smallest half buffer is a whole number of nodes and of lines. */
  method NodeSize(line: nat, height: nat, nodeMax: nat) returns (node: nat, nodesPerLine: nat, linesPerNode: nat)
    requires line > 0 && height > 0 && nodeMax > 0
    ensures 0 < node <= nodeMax && linesPerNode > 0
    ensures Divides(linesPerNode, height) && Divides(node, linesPerNode * line)
    ensures node * nodesPerLine == linesPerNode * line
    ensures line >= nodeMax ==> linesPerNode == 1 && forall d | node < d <= nodeMax :: !Divides(d, line)
    ensures line < nodeMax ==> node == linesPerNode * line && forall m | linesPerNode < m <= nodeMax / line :: !Divides(m, height)
  {
    nodesPerLine, linesPerNode := 1, 1;
    if line >= nodeMax {
      node := NodeWithinLine(line, nodeMax);
      nodesPerLine := line / node;
      Quotient(node, line);
    } else {
      node, linesPerNode := LinesPerNode(line, height, nodeMax);
      AtLeastOnce(linesPerNode, line);
    }
  }

  /** k minimal half buffers of the given lines each make up a whole number of
      half buffers per frame. */
  ghost predicate Usable(k: nat, lines: nat, height: nat) {
    Divides(k * lines, height)
  }

  /** The largest multiple of the minimal half buffer whose lines divide the
      height. */
  method HalfBuffer(line: nat, ghost lines: nat, min: nat, height: nat, halfMax: nat) returns (half: nat)
    requires line > 0 && lines > 0 && Divides(lines, height) && lines * line == min <= halfMax
    ensures Divides(min, half) && half <= halfMax
    ensures 0 < half / min <= halfMax / min && Usable(half / min, lines, height)
    ensures forall m | half / min < m <= halfMax / min :: !Usable(m, lines, height)
  {
    AtLeastOnce(lines, line);
    half := halfMax / min * min;
    ghost var k := halfMax / min;
    AtLeastQuotient(halfMax, min);
    LinesIn(k, lines, line);
    var linesPerHalf := half / line;
    while height % linesPerHalf != 0
      invariant 0 < k <= halfMax / min && half == k * min <= halfMax
      invariant linesPerHalf == k * lines > 0
      invariant forall m | k < m <= halfMax / min :: !Usable(m, lines, height)
      decreases k
    {
      assert 1 * lines == lines;
      assert !Usable(k, lines, height);
      OneLess(k, min);
      LinesIn(k - 1, lines, line);
      k := k - 1;
      half := half - min;
      linesPerHalf := half / line;
    }
    MultipleDivides(k, min);
  }

  lemma LinesIn(k: nat, lines: nat, line: nat)
    requires k > 0 && lines > 0 && line > 0
    ensures k * (lines * line) / line == k * lines > 0
  {
    assert k * (lines * line) == (k * lines) * line;
    AtLeastOnce(k, lines);
    MultipleDivides(k * lines, line);
  }

  // The result

  /** Nodes tile the half buffers, lines tile the half buffers, half buffers tile
      the frame and the DMA buffer. */
  ghost predicate Sound(z: Sizes, line: nat, height: nat, psram: bool, halfMax: nat) {
    && Divides(z.node, z.half) && Divides(line, z.half) && z.half <= halfMax
    && Divides(z.half, height * line)
    && z.halfCnt * z.half == z.buffer && z.nodeCnt * z.node == z.buffer
    && (if psram then z.buffer == height * line else z.buffer <= 2 * halfMax < z.buffer + z.half)
  }

  /** The event queue, created with halfCnt - 1 places, has a place. */
  ghost predicate QueueHasRoom(z: Sizes) {
    z.halfCnt >= 2
  }

  /** The greatest usable half buffer is the whole frame exactly when the frame
      fits. */
  lemma WholeFrame(k: nat, lines: nat, line: nat, min: nat, height: nat, halfMax: nat)
    requires line > 0 && lines > 0 && height > 0 && Divides(lines, height) && lines * line == min <= halfMax && min > 0
    requires 0 < k <= halfMax / min && Usable(k, lines, height)
    requires forall m | k < m <= halfMax / min :: !Usable(m, lines, height)
    requires height * line <= halfMax
    ensures k * min == height * line
  {
    var m := height / lines;
    Quotient(lines, height);
    assert m * min == m * (lines * line) == (m * lines) * line == height * line;
    MultipleDivides(1, height);
    assert 1 * height == height;
    assert Usable(m, lines, height);
    QuotientAtLeast(m, min, halfMax);
    AtMost(k * lines, height);
    Cancel(k, m, lines);
  }

  /** No larger half buffer is a whole number of nodes and of lines and divides the
      frame. */
  ghost predicate LargestHalf(z: Sizes, line: nat, height: nat, halfMax: nat) {
    forall h | z.half < h <= halfMax :: !(Divides(z.node, h) && Divides(line, h) && Divides(h, height * line))
  }

  /** No larger node divides a line that does not fit a node or, where lines do, is a
      whole number of lines and divides the frame. */
  ghost predicate LargestNode(z: Sizes, line: nat, height: nat, nodeMax: nat) {
    forall d | z.node < d <= nodeMax ::
      if line >= nodeMax then !Divides(d, line) else !(Divides(line, d) && Divides(d, height * line))
  }

  lemma Largest(node: nat, line: nat, lines: nat, min: nat, half: nat, height: nat, halfMax: nat)
    requires line > 0 && lines > 0 && lines * line == min && (min == line || min == node)
    requires Divides(min, half) && half <= halfMax
    requires forall m | half / min < m <= halfMax / min :: !Usable(m, lines, height)
    ensures forall h | half < h <= halfMax :: !(Divides(node, h) && Divides(line, h) && Divides(h, height * line))
  {
    forall h | half < h <= halfMax && Divides(node, h) && Divides(line, h) && Divides(h, height * line) ensures false {
      AtLeastOnce(lines, line);
      var m := h / min;
      var usable := Usable(m, lines, height);
      Quotient(min, h);
      Quotient(min, half);
      NotMore(half / min, m, min);
      QuotientAtLeast(m, min, halfMax);
      assert m * min == m * (lines * line) == (m * lines) * line;
      ScaledDividesBack(m * lines, height, line);
    }
  }

  lemma NotMore(a: nat, b: nat, d: nat)
    requires a * d < b * d
    ensures a < b
  {
    AtLeastOnce(a - b + 1, d);
    assert (a - b + 1) * d == a * d - b * d + d;
  }

  lemma LargestWithin(node: nat, line: nat, lines: nat, height: nat, nodeMax: nat)
    requires line > 0 && node == lines * line
    requires forall m | lines < m <= nodeMax / line :: !Divides(m, height)
    ensures forall d | node < d <= nodeMax :: !(Divides(line, d) && Divides(d, height * line))
  {
    forall d | node < d <= nodeMax && Divides(line, d) && Divides(d, height * line) ensures false {
      var m := d / line;
      Quotient(line, d);
      NotMore(lines, m, line);
      QuotientAtLeast(m, line, nodeMax);
      ScaledDividesBack(m, height, line);
    }
  }

  method CalcRgbDma(width: nat, height: nat, inBytesPerPixel: nat, psram: bool, nodeMax: nat, halfMax: nat)
    returns (r: Option<Sizes>)
    requires width > 0 && height > 0 && inBytesPerPixel > 0
    requires 0 < nodeMax <= halfMax
    ensures r.None? <==> width * inBytesPerPixel > halfMax
    ensures r.Some? ==> Sound(r.value, width * inBytesPerPixel, height, psram, halfMax) && r.value.node <= nodeMax
    ensures r.Some? ==> LargestHalf(r.value, width * inBytesPerPixel, height, halfMax)
    ensures r.Some? ==> LargestNode(r.value, width * inBytesPerPixel, height, nodeMax)
    ensures r.Some? ==> (QueueHasRoom(r.value) <==> !psram || height * (width * inBytesPerPixel) > halfMax)
  {
    AtLeastOnce(width, inBytesPerPixel);
    r := CalcForLine(width * inBytesPerPixel, height, psram, nodeMax, halfMax);
  }

  method CalcForLine(line: nat, height: nat, psram: bool, nodeMax: nat, halfMax: nat) returns (r: Option<Sizes>)
    requires line > 0 && height > 0 && 0 < nodeMax <= halfMax
    ensures r.None? <==> line > halfMax
    ensures r.Some? ==> Sound(r.value, line, height, psram, halfMax) && r.value.node <= nodeMax
    ensures r.Some? ==> LargestHalf(r.value, line, height, halfMax) && LargestNode(r.value, line, height, nodeMax)
    ensures r.Some? ==> (QueueHasRoom(r.value) <==> !psram || height * line > halfMax)
  {
    var node, nodesPerLine, linesPerNode := NodeSize(line, height, nodeMax);
    if line > halfMax {
      return None;
    }
    var min := node * nodesPerLine;
    assert 1 * line == line;
    var half := HalfBuffer(line, linesPerNode, min, height, halfMax);
    ghost var k := half / min;
    Quotient(min, half);
    Tiles(node, line, linesPerNode, min, k, height);
    Largest(node, line, linesPerNode, min, half, height, halfMax);
    if line < nodeMax {
      LargestWithin(node, line, linesPerNode, height, nodeMax);
    }
    var z := BufferSize(node, half, height * line, psram, halfMax);
    QueueRoom(z, line, linesPerNode, min, k, height, psram, halfMax);
    return Some(z);
  }

  method BufferSize(node: nat, half: nat, frame: nat, psram: bool, halfMax: nat) returns (z: Sizes)
    requires Divides(node, half) && Divides(half, frame) && 0 < half <= halfMax
    ensures z.node == node && z.half == half
    ensures z.halfCnt * z.half == z.buffer && z.nodeCnt * z.node == z.buffer
    ensures if psram then z.buffer == frame else z.buffer <= 2 * halfMax < z.buffer + z.half
  {
    var buffer := 2 * halfMax;
    if psram {
      buffer := frame;
    }
    if !psram {
      buffer := buffer / half * half;
      MultipleDivides(2 * halfMax / half, half);
    }
    DividesTransitive(node, half, buffer);
    Quotient(half, buffer);
    Quotient(node, buffer);
    z := Sizes(node, half, buffer, buffer / half, buffer / node);
  }

  lemma Tiles(node: nat, line: nat, lines: nat, min: nat, k: nat, height: nat)
    requires line > 0 && lines * line == min && min > 0 && k > 0
    requires Divides(node, min) && Usable(k, lines, height)
    ensures k * min > 0 && Divides(node, k * min) && Divides(line, k * min) && Divides(k * min, height * line)
  {
    AtLeastOnce(k, min);
    MultipleDivides(k, min);
    DividesTransitive(node, min, k * min);
    MultipleDivides(lines, line);
    DividesTransitive(line, min, k * min);
    assert k * min == k * (lines * line) == (k * lines) * line;
    ScaledDivides(k * lines, height, line);
  }

  lemma QueueRoom(z: Sizes, line: nat, lines: nat, min: nat, k: nat, height: nat, psram: bool, halfMax: nat)
    requires line > 0 && lines > 0 && height > 0 && Divides(lines, height) && lines * line == min <= halfMax && min > 0
    requires 0 < k <= halfMax / min && Usable(k, lines, height)
    requires forall m | k < m <= halfMax / min :: !Usable(m, lines, height)
    requires z.half == k * min && Sound(z, line, height, psram, halfMax)
    ensures QueueHasRoom(z) <==> !psram || height * line > halfMax
  {
    assert 0 * z.half == 0 && 1 * z.half == z.half;
    if psram && height * line <= halfMax {
      WholeFrame(k, lines, line, min, height, halfMax);
      Cancel(z.halfCnt, 1, z.half);
    } else {
      MoreThanOnce(z.halfCnt, z.half);
    }
  }

  // The descriptors

  datatype Descriptor = Descriptor(size: nat, buf: nat, next: nat)

  /** allocate_dma_descriptors: count descriptors of the given size over a buffer
      of count * size bytes, each linked to the next, the last to the first. */
  method AllocateDescriptors(count: nat, size: nat) returns (dma: array<Descriptor>)
    ensures fresh(dma) && dma.Length == count && IsRing(dma[..], size)
  {
    dma := new Descriptor[count](_ => Descriptor(0, 0, 0));
    for x := 0 to count
      invariant forall i | 0 <= i < x :: dma[i] == Descriptor(size, size * i, (i + 1) % count)
    {
      dma[x] := Descriptor(size, size * x, (x + 1) % count);
    }
  }

  ghost predicate IsRing(dma: seq<Descriptor>, size: nat) {
    forall i | 0 <= i < |dma| :: dma[i] == Descriptor(size, size * i, (i + 1) % |dma|)
  }

  /** The descriptor reached after following k links from the first. */
  ghost function Follow(dma: seq<Descriptor>, k: nat): nat
    requires dma != [] && forall i | 0 <= i < |dma| :: dma[i].next < |dma|
    ensures Follow(dma, k) < |dma|
  {
    if k == 0 then 0 else dma[Follow(dma, k - 1)].next
  }

  /** The links form one ring through all descriptors. */
  lemma {:induction false} OneRing(dma: seq<Descriptor>, size: nat, k: nat)
    requires dma != [] && IsRing(dma, size)
    ensures forall i | 0 <= i < |dma| :: dma[i].next < |dma|
    ensures Follow(dma, k) == k % |dma|
  {
    if k > 0 {
      OneRing(dma, size, k - 1);
      NextModulo(k - 1, |dma|);
    } else {
      DivModUnique(0, |dma|, 0, 0);
    }
  }

  /** The byte at an offset belongs to descriptor n and to no other. */
  ghost predicate HeldBy(dma: seq<Descriptor>, at: nat, n: nat) {
    n < |dma| && forall i | 0 <= i < |dma| :: dma[i].buf <= at < dma[i].buf + dma[i].size <==> i == n
  }

  /** Every byte of the buffer belongs to exactly one descriptor. */
  lemma ExactTiling(dma: seq<Descriptor>, size: nat, at: nat)
    requires size > 0 && IsRing(dma, size) && at < |dma| * size
    ensures HeldBy(dma, at, at / size)
  {
    var q := at / size;
    QuotientBelow(at, size, |dma|);
    forall i | 0 <= i < |dma|
      ensures dma[i].buf <= at < dma[i].buf + dma[i].size <==> i == q
    {
      if size * i <= at < size * i + size {
        DivModUnique(at, size, i, at - size * i);
      }
    }
  }

  /** The configured sizes and the descriptors over the buffer: one ring of nodes
      that has every byte of the buffer in exactly one node. */
  method ConfigureDma(width: nat, height: nat, inBytesPerPixel: nat, psram: bool, nodeMax: nat, halfMax: nat)
    returns (r: Option<Sizes>, dma: seq<Descriptor>)
    requires width > 0 && height > 0 && inBytesPerPixel > 0
    requires 0 < nodeMax <= halfMax
    ensures r.None? <==> width * inBytesPerPixel > halfMax
    ensures r.Some? ==> Sound(r.value, width * inBytesPerPixel, height, psram, halfMax)
    ensures r.Some? ==> |dma| == r.value.nodeCnt && IsRing(dma, r.value.node)
    ensures r.Some? ==> forall at | 0 <= at < r.value.buffer :: InOneNode(dma, at)
  {
    dma := [];
    r := CalcRgbDma(width, height, inBytesPerPixel, psram, nodeMax, halfMax);
    if r.Some? {
      var z := r.value;
      var ring := AllocateDescriptors(z.nodeCnt, z.node);
      dma := ring[..];
      forall at | 0 <= at < z.buffer ensures InOneNode(dma, at) {
        ExactTiling(dma, z.node, at);
      }
    }
  }

  ghost predicate InOneNode(dma: seq<Descriptor>, at: nat) {
    exists n :: HeldBy(dma, at, n)
  }
}
