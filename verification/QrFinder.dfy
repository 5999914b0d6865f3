/** The frame detector (task_process_handler in QR_Posing.c): two scans of a black
    and white picture for a bright box with a dark margin above it, one from the
    left and one from the right, each following the box's top edge as it drops. */
module QrFinder {
  const WIDTH: nat := 240
  const CODES: nat := 5

  /** A picture: its white pixels, as rows and columns. Rows outside the frame are
      read too, so any pixel may be white. */
  type Picture = iset<(int, int)>

  datatype Params = Params(topMargin: int, stepback: int, minL: nat)

  /** A scan direction along a row. */
  datatype Scan = Rightward | Leftward {
    /** The column n pixels along from x. */
    function Column(x: int, n: int): int {
      if Rightward? then x + n else x - n
    }

    function First(): int {
      if Rightward? then 0 else WIDTH - 1
    }

    function End(): int {
      if Rightward? then WIDTH else -1
    }

    /** How far an edge from column x is followed. */
    function Limit(x: int): int {
      if Rightward? then WIDTH - x else x
    }
  }

  /** A white pixel with a black one a margin above. */
  predicate Edge(white: Picture, p: Params, y: int, x: int) {
    (y, x) in white && (y - p.topMargin, x) !in white
  }

  /** A followed edge: its length and its drop. */
  datatype Stair = Stair(n: nat, drop: nat)

  /** Follows the edge from pixel (y, x), n pixels and drop rows along, staying in
      the row as long as it can. */
  function Follow(white: Picture, p: Params, s: Scan, y: int, x: int, n: nat, drop: nat): (r: Stair)
    ensures r.n >= n && r.drop >= drop && (r.n == n || r.n <= s.Limit(x))
    decreases s.Limit(x) - n
  {
    if n >= s.Limit(x) then Stair(n, drop)
    else if Edge(white, p, y + drop, s.Column(x, n)) then Follow(white, p, s, y, x, n + 1, drop)
    else if Edge(white, p, y + drop + 1, s.Column(x, n)) then Follow(white, p, s, y, x, n + 1, drop + 1)
    else Stair(n, drop)
  }

  /** The length of the white column under (row, col), at most bound. */
  function Fall(white: Picture, row: int, col: int, bound: int, n: nat): (r: nat)
    ensures r >= n
    decreases bound - n
  {
    if n < bound && (row + n, col) in white then Fall(white, row, col, bound, n + 1) else n
  }

  /** The top edge and the side of a box with its corner at (y, x). */
  function Top(white: Picture, p: Params, s: Scan, y: int, x: int): Stair {
    Follow(white, p, s, y, x, 1, 0)
  }

  function Side(white: Picture, p: Params, s: Scan, y: int, x: int): nat {
    var top := Top(white, p, s, y, x);
    Fall(white, y + top.drop, s.Column(x, top.n - p.stepback), WIDTH - y + top.drop, 1)
  }

  /** A corner of a box long and high enough. */
  predicate Qualifies(white: Picture, p: Params, s: Scan, y: int, x: int) {
    Top(white, p, s, y, x).n > p.minL && Side(white, p, s, y, x) > p.minL
  }

  // Certificates

  /** From column t - 1 to column t an edge stays in its row, or goes down one row
      because it cannot stay. */
  ghost predicate Goes(white: Picture, p: Params, s: Scan, y: int, x: int, rows: seq<nat>, t: int)
    requires 0 < t < |rows|
  {
    || rows[t] == rows[t - 1]
    || (rows[t] == rows[t - 1] + 1 && !Edge(white, p, y + rows[t - 1], s.Column(x, t)))
  }

  /** The rows of an edge column by column: it starts in its own row and has the
      dark margin above all along. */
  ghost predicate IsEdge(white: Picture, p: Params, s: Scan, y: int, x: int, rows: seq<nat>) {
    && |rows| > 0 && rows[0] == 0
    && (forall t | 0 <= t < |rows| ::
          (y + rows[t], s.Column(x, t)) in white && (y + rows[t] - p.topMargin, s.Column(x, t)) !in white)
    && (forall t | 0 < t < |rows| :: Goes(white, p, s, y, x, rows, t))
  }

  /** An edge of n pixels cannot be followed any further. */
  ghost predicate Ends(white: Picture, p: Params, s: Scan, y: int, x: int, n: nat, drop: nat) {
    || (if s.Rightward? then x + n >= WIDTH else x - n <= 0)
    || (!Edge(white, p, y + drop, s.Column(x, n)) && !Edge(white, p, y + drop + 1, s.Column(x, n)))
  }

  /** A followed edge has such rows. */
  ghost predicate Traced(white: Picture, p: Params, s: Scan, y: int, x: int, r: Stair) {
    exists rows: seq<nat> :: IsEdge(white, p, s, y, x, rows) && |rows| == r.n && rows[r.n - 1] == r.drop
  }

  /** One more pixel, in the same row or, where it cannot stay, in the next. */
  lemma EdgeExtended(white: Picture, p: Params, s: Scan, y: int, x: int, r: Stair, row: nat)
    requires Traced(white, p, s, y, x, r)
    requires Edge(white, p, y + row, s.Column(x, r.n))
    requires row == r.drop || (row == r.drop + 1 && !Edge(white, p, y + r.drop, s.Column(x, r.n)))
    ensures Traced(white, p, s, y, x, Stair(r.n + 1, row))
  {
    var rows: seq<nat> :| IsEdge(white, p, s, y, x, rows) && |rows| == r.n && rows[r.n - 1] == r.drop;
    var all := rows + [row];
    forall t | 0 < t < |all| ensures Goes(white, p, s, y, x, all, t) {
      if t < |rows| {
        assert Goes(white, p, s, y, x, rows, t);
      }
    }
    assert IsEdge(white, p, s, y, x, all);
  }

  lemma {:induction false} FollowTraced(white: Picture, p: Params, s: Scan, y: int, x: int, n: nat, drop: nat)
    requires Traced(white, p, s, y, x, Stair(n, drop))
    ensures Traced(white, p, s, y, x, Follow(white, p, s, y, x, n, drop))
    decreases s.Limit(x) - n
  {
    if n < s.Limit(x) && Edge(white, p, y + drop, s.Column(x, n)) {
      EdgeExtended(white, p, s, y, x, Stair(n, drop), drop);
      FollowTraced(white, p, s, y, x, n + 1, drop);
    } else if n < s.Limit(x) && Edge(white, p, y + drop + 1, s.Column(x, n)) {
      EdgeExtended(white, p, s, y, x, Stair(n, drop), drop + 1);
      FollowTraced(white, p, s, y, x, n + 1, drop + 1);
    }
  }

  lemma {:induction false} FollowEnds(white: Picture, p: Params, s: Scan, y: int, x: int, n: nat, drop: nat)
    ensures var r := Follow(white, p, s, y, x, n, drop);
            Ends(white, p, s, y, x, r.n, r.drop)
    decreases s.Limit(x) - n
  {
    if n < s.Limit(x) && Edge(white, p, y + drop, s.Column(x, n)) {
      FollowEnds(white, p, s, y, x, n + 1, drop);
    } else if n < s.Limit(x) && Edge(white, p, y + drop + 1, s.Column(x, n)) {
      FollowEnds(white, p, s, y, x, n + 1, drop + 1);
    }
  }

  /** A white run below row, n rows to its end. */
  ghost predicate IsRun(white: Picture, row: int, col: int, bound: int, n: nat) {
    && (forall r | row < r < row + n :: (r, col) in white)
    && (n >= bound || (row + n, col) !in white)
    && (n <= bound || n == 1)
  }

  lemma {:induction false} FallIsRun(white: Picture, row: int, col: int, bound: int, n: nat)
    requires (forall r | row < r < row + n :: (r, col) in white) && (n <= bound || n == 1)
    ensures IsRun(white, row, col, bound, Fall(white, row, col, bound, n))
    decreases bound - n
  {
    if n < bound && (row + n, col) in white {
      FallIsRun(white, row, col, bound, n + 1);
    }
  }

  // What the certificates determine

  /** An edge that ends and stays in the row is the one that is followed. */
  lemma {:induction false} FollowUnique(white: Picture, p: Params, s: Scan, y: int, x: int, rows: seq<nat>, n: nat)
    requires IsEdge(white, p, s, y, x, rows) && 0 < n <= |rows|
    requires Ends(white, p, s, y, x, |rows|, rows[|rows| - 1]) && |rows| <= s.Limit(x)
    ensures Follow(white, p, s, y, x, n, rows[n - 1]) == Stair(|rows|, rows[|rows| - 1])
    decreases |rows| - n
  {
    if n < |rows| {
      FollowUnique(white, p, s, y, x, rows, n + 1);
      assert Goes(white, p, s, y, x, rows, n) && Edge(white, p, y + rows[n], s.Column(x, n));
    }
  }

  lemma TopUnique(white: Picture, p: Params, s: Scan, y: int, x: int, r: Stair)
    requires Traced(white, p, s, y, x, r) && Ends(white, p, s, y, x, r.n, r.drop) && r.n <= s.Limit(x)
    ensures Top(white, p, s, y, x) == r && Edge(white, p, y, x)
  {
    var rows: seq<nat> :| IsEdge(white, p, s, y, x, rows) && |rows| == r.n && rows[r.n - 1] == r.drop;
    FollowUnique(white, p, s, y, x, rows, 1);
    assert s.Column(x, 0) == x && Edge(white, p, y + rows[0], s.Column(x, 0));
  }

  /** A run is the one that is measured. */
  lemma {:induction false} FallUnique(white: Picture, row: int, col: int, bound: int, dy: nat, n: nat)
    requires IsRun(white, row, col, bound, dy) && 1 <= n <= dy
    ensures Fall(white, row, col, bound, n) == dy
    decreases dy - n
  {
    if n < dy {
      FallUnique(white, row, col, bound, dy, n + 1);
    }
  }

  // Probing a corner

  method FollowTop(white: Picture, p: Params, s: Scan, y: int, x: int) returns (top: Stair, found: bool)
    requires p.minL >= 1
    ensures top == Top(white, p, s, y, x) && (found <==> top.n > p.minL)
  {
    var n: nat, drop: nat := 1, 0;
    found := false;
    while n < s.Limit(x)
      invariant Follow(white, p, s, y, x, n, drop) == Top(white, p, s, y, x)
      invariant found <==> n > p.minL
      decreases s.Limit(x) - n
    {
      if Edge(white, p, y + drop, s.Column(x, n)) {
        n := n + 1;
      } else if Edge(white, p, y + drop + 1, s.Column(x, n)) {
        n, drop := n + 1, drop + 1;
      } else {
        break;
      }
      if n > p.minL {
        found := true;
      }
    }
    top := Stair(n, drop);
  }

  method FollowSide(white: Picture, row: int, col: int, bound: int, minL: nat) returns (dy: nat, found: bool)
    requires minL >= 1
    ensures dy == Fall(white, row, col, bound, 1) && (found <==> dy > minL)
  {
    dy, found := 1, false;
    while dy < bound
      invariant Fall(white, row, col, bound, dy) == Fall(white, row, col, bound, 1)
      invariant found <==> dy > minL
      decreases bound - dy
    {
      if (row + dy, col) !in white {
        break;
      }
      dy := dy + 1;
      if dy > minL {
        found := true;
      }
    }
  }

  // Recorded codes

  /** A recorded code: in use, found from the right, and its four corners. */
  datatype Code = Code(o: bool, f: bool, x0: int, y0: int, x1: int, y1: int, x2: int, y2: int, x3: int, y3: int) {
    function Way(): Scan {
      if f then Leftward else Rightward
    }

    /** A pixel in the box of a code in use. */
    predicate Holds(y: int, x: int) {
      o && y0 <= y <= y3 && (if f then x1 <= x <= x0 else x0 <= x <= x1)
    }
  }

  /** The code whose corner is (y, x). */
  function CodeAt(s: Scan, y: int, x: int, top: Stair, dy: nat): Code {
    var x1 := s.Column(x, top.n);
    Code(true, s.Leftward?, x, y, x1, y + top.drop, x1, y + top.drop + dy, x, y + 2 * top.drop + dy)
  }

  /** What a recorded code says of the picture: a top edge longer than minL along
      its first side, from the first corner to the second and no further, and a
      white run higher than minL down its second side; the last side is placed by
      symmetry. */
  ghost predicate Certified(white: Picture, p: Params, c: Code) {
    var s := c.Way();
    var n, drop, dy := if c.f then c.x0 - c.x1 else c.x1 - c.x0, c.y1 - c.y0, c.y2 - c.y1;
    && n > p.minL && drop >= 0 && dy > p.minL
    && Traced(white, p, s, c.y0, c.x0, Stair(n, drop))
    && Ends(white, p, s, c.y0, c.x0, n, drop)
    && IsRun(white, c.y1, s.Column(c.x1, -p.stepback), WIDTH - c.y0 + drop, dy)
    && c.x2 == c.x1 && c.x3 == c.x0 && c.y3 == c.y2 + drop
    && 0 <= c.x0 < WIDTH && 0 <= c.x1 <= WIDTH && 1 <= c.y0 < WIDTH
  }

  lemma TopTraced(white: Picture, p: Params, s: Scan, y: int, x: int)
    requires Edge(white, p, y, x)
    ensures var top := Top(white, p, s, y, x);
            Traced(white, p, s, y, x, top) && Ends(white, p, s, y, x, top.n, top.drop)
  {
    var row: seq<nat> := [0];
    assert IsEdge(white, p, s, y, x, row);
    FollowTraced(white, p, s, y, x, 1, 0);
    FollowEnds(white, p, s, y, x, 1, 0);
  }

  lemma SideRuns(white: Picture, p: Params, s: Scan, y: int, x: int)
    ensures var top := Top(white, p, s, y, x);
            IsRun(white, y + top.drop, s.Column(s.Column(x, top.n), -p.stepback), WIDTH - y + top.drop,
                  Side(white, p, s, y, x))
  {
    var top := Top(white, p, s, y, x);
    FallIsRun(white, y + top.drop, s.Column(x, top.n - p.stepback), WIDTH - y + top.drop, 1);
  }

  lemma CornerCertified(white: Picture, p: Params, s: Scan, y: int, x: int)
    requires 1 <= y < WIDTH && 0 <= x < WIDTH && p.minL >= 1
    requires Edge(white, p, y, x) && Qualifies(white, p, s, y, x)
    ensures Certified(white, p, CodeAt(s, y, x, Top(white, p, s, y, x), Side(white, p, s, y, x)))
  {
    TopTraced(white, p, s, y, x);
    SideRuns(white, p, s, y, x);
  }

  /** The certificate determines the code. */
  lemma CertifiedUnique(white: Picture, p: Params, c: Code)
    requires c.o && Certified(white, p, c) && p.minL >= 1
    ensures Edge(white, p, c.y0, c.x0) && Qualifies(white, p, c.Way(), c.y0, c.x0)
    ensures c == CodeAt(c.Way(), c.y0, c.x0, Top(white, p, c.Way(), c.y0, c.x0), Side(white, p, c.Way(), c.y0, c.x0))
  {
    var s, n, drop := c.Way(), if c.f then c.x0 - c.x1 else c.x1 - c.x0, c.y1 - c.y0;
    TopUnique(white, p, s, c.y0, c.x0, Stair(n, drop));
    FallUnique(white, c.y1, s.Column(c.x1, -p.stepback), WIDTH - c.y0 + drop, c.y2 - c.y1, 1);
  }

  /** v lies between two columns, whichever is the left one. */
  ghost predicate Between(a: int, v: int, b: int) {
    a <= v <= b || b <= v <= a
  }

  /** The box of a certified code in use spans its corners. */
  lemma BoxSpans(white: Picture, p: Params, c: Code, y: int, x: int)
    requires Certified(white, p, c) && p.minL >= 1
    ensures c.Holds(y, x) <==> c.o && c.y0 <= y <= c.y3 && Between(c.x0, x, c.x1)
  {
  }

  /** The table of codes: its first k entries are in use, each is certified, and the
      first corner of each is outside the boxes recorded before it. */
  ghost predicate Recorded(white: Picture, p: Params, l1: seq<Code>, k: nat) {
    && |l1| == CODES && k <= CODES
    && (forall z | 0 <= z < CODES :: l1[z].o <==> z < k)
    && (forall z | 0 <= z < k :: Certified(white, p, l1[z]))
    && (forall a, b | 0 <= a < b < k ::
          !(l1[a].y0 <= l1[b].y0 <= l1[a].y3 && Between(l1[a].x0, l1[b].x0, l1[a].x1)))
  }

  predicate InSome(l1: seq<Code>, y: int, x: int) {
    exists z | 0 <= z < |l1| :: l1[z].Holds(y, x)
  }

  method Inside(l1: seq<Code>, y: int, x: int) returns (inz: bool)
    ensures inz <==> InSome(l1, y, x)
  {
    inz := false;
    for n := 0 to |l1|
      invariant inz <==> exists z | 0 <= z < n :: l1[z].Holds(y, x)
    {
      if l1[n].Holds(y, x) {
        inz := true;
      }
    }
  }

  lemma RecordOne(white: Picture, p: Params, l1: seq<Code>, k: nat, c: Code)
    requires Recorded(white, p, l1, k) && k < CODES && p.minL >= 1
    requires c.o && Certified(white, p, c) && !InSome(l1, c.y0, c.x0)
    ensures Recorded(white, p, l1[k := c], k + 1)
    ensures Grown(l1, k, l1[k := c], k + 1)
  {
    forall a | 0 <= a < k
      ensures !(l1[a].y0 <= c.y0 <= l1[a].y3 && Between(l1[a].x0, c.x0, l1[a].x1))
    {
      BoxSpans(white, p, l1[a], c.y0, c.x0);
    }
  }

  /** Later tables keep the codes of earlier ones. */
  ghost predicate Grown(l1: seq<Code>, k: nat, l2: seq<Code>, k2: nat) {
    |l1| == |l2| && k <= k2 <= |l1| && l1[..k] == l2[..k]
  }

  // The scans

  /** A scan comes by column c before column x. */
  ghost predicate Before(s: Scan, c: int, x: int) {
    if s.Rightward? then c < x else c > x
  }

  /** How far a scan steps on from an edge pixel: by the length of the edge, or to the
      right, once the edge is long enough, by the height of the side. */
  function Steps(white: Picture, p: Params, s: Scan, y: int, x: int): nat {
    var n := Top(white, p, s, y, x).n;
    if s.Rightward? && n > p.minL then Side(white, p, s, y, x) else n
  }

  /** An edge pixel that no edge pixel before it in its row is stepped over from. */
  ghost predicate Reached(white: Picture, p: Params, s: Scan, y: int, x: int) {
    && (y, x) in white && (y - p.topMargin, x) !in white
    && forall c | 0 <= c < WIDTH && Before(s, c, x) && Edge(white, p, y, c) ::
         Before(s, s.Column(c, Steps(white, p, s, y, c)), x)
  }

  /** Before column x a corner that qualifies and is reached lies in the box of a
      recorded code, unless the table is full. */
  ghost predicate Seen(white: Picture, p: Params, s: Scan, y: int, x: int, l1: seq<Code>, k: nat) {
    forall c | 0 <= c < WIDTH && Before(s, c, x) && Reached(white, p, s, y, c) && Qualifies(white, p, s, y, c) ::
      k == CODES || InSome(l1, y, c)
  }

  /** A certified code whose first corner is reached has that corner in the box of a
      recorded code, unless the table is full. */
  ghost predicate NoneMissed(white: Picture, p: Params, s: Scan, y: int, l1: seq<Code>, k: nat) {
    k == CODES || forall c: Code | c.o && c.Way() == s && c.y0 == y && Certified(white, p, c) && Reached(white, p, s, y, c.x0) ::
      Boxed(l1, k, y, c.x0)
  }

  ghost predicate Boxed(l1: seq<Code>, k: nat, y: int, x: int) {
    exists z | 0 <= z < k <= |l1| :: l1[z].y0 <= y <= l1[z].y3 && Between(l1[z].x0, x, l1[z].x1)
  }

  lemma SeenMissesNone(white: Picture, p: Params, s: Scan, y: int, l1: seq<Code>, k: nat)
    requires Recorded(white, p, l1, k) && Seen(white, p, s, y, s.End(), l1, k) && p.minL >= 1
    ensures NoneMissed(white, p, s, y, l1, k)
  {
    forall c: Code | k < CODES && c.o && c.Way() == s && c.y0 == y && Certified(white, p, c) && Reached(white, p, s, y, c.x0)
      ensures Boxed(l1, k, y, c.x0)
    {
      CertifiedUnique(white, p, c);
      var z :| 0 <= z < |l1| && l1[z].Holds(y, c.x0);
      BoxSpans(white, p, l1[z], y, c.x0);
    }
  }

  lemma SeenKept(white: Picture, p: Params, s: Scan, y: int, x: int, l1: seq<Code>, k: nat, l2: seq<Code>, k2: nat)
    requires Recorded(white, p, l1, k) && Recorded(white, p, l2, k2) && Grown(l1, k, l2, k2)
    requires Seen(white, p, s, y, x, l1, k)
    ensures Seen(white, p, s, y, x, l2, k2)
  {
    forall c | 0 <= c < WIDTH && Before(s, c, x) && Reached(white, p, s, y, c) && Qualifies(white, p, s, y, c) && k2 < CODES
      ensures InSome(l2, y, c)
    {
      var z :| 0 <= z < |l1| && l1[z].Holds(y, c);
      assert l2[..k][z] == l1[..k][z];
    }
  }

  /** Stepping on from pixel x passes no pixel that is reached. */
  lemma SeenOn(white: Picture, p: Params, s: Scan, y: int, x: int, l1: seq<Code>, k: nat, skip: nat)
    requires Seen(white, p, s, y, x, l1, k) && 0 <= x < WIDTH
    requires Edge(white, p, y, x) && Qualifies(white, p, s, y, x) ==> k == CODES || InSome(l1, y, x)
    requires skip == 0 || (Edge(white, p, y, x) && skip == Steps(white, p, s, y, x))
    ensures Seen(white, p, s, y, s.Column(x, skip + 1), l1, k)
  {
    forall c | 0 <= c < WIDTH && Before(s, c, s.Column(x, skip + 1)) && Reached(white, p, s, y, c)
      ensures Before(s, c, x) || (c == x && Edge(white, p, y, c))
    {
      assert Edge(white, p, y, c);
    }
  }

  /** Probes an edge pixel: whether it qualifies, its measures, and how far the
      scan steps on; only the scan to the right steps on by the height of the side. */
  method Probe(white: Picture, p: Params, s: Scan, y: int, x: int) returns (found: bool, top: Stair, dy: nat, skip: nat)
    requires p.minL >= 1
    ensures found <==> Qualifies(white, p, s, y, x)
    ensures found ==> top == Top(white, p, s, y, x) && dy == Side(white, p, s, y, x)
    ensures skip == Steps(white, p, s, y, x) >= 1
  {
    top, found := FollowTop(white, p, s, y, x);
    dy, skip := 0, top.n;
    if found {
      dy, found := FollowSide(white, y + top.drop, s.Column(x, top.n - p.stepback), WIDTH - y + top.drop, p.minL);
      if s.Rightward? {
        skip := dy;
      }
    }
  }

  /** One edge pixel outside every box: recorded when it qualifies and there is room. */
  method Visit(white: Picture, p: Params, s: Scan, y: int, x: int, l1: seq<Code>, k: nat) returns (l2: seq<Code>, k2: nat, skip: nat)
    requires Recorded(white, p, l1, k) && p.minL >= 1
    requires 1 <= y < WIDTH && 0 <= x < WIDTH
    requires Edge(white, p, y, x) && !InSome(l1, y, x)
    ensures Recorded(white, p, l2, k2) && Grown(l1, k, l2, k2)
    ensures Qualifies(white, p, s, y, x) ==> k2 == CODES || InSome(l2, y, x)
    ensures !Qualifies(white, p, s, y, x) ==> l2 == l1 && k2 == k
    ensures skip == Steps(white, p, s, y, x)
  {
    var found, top, dy;
    found, top, dy, skip := Probe(white, p, s, y, x);
    l2, k2 := l1, k;
    if found && k < CODES {
      var c := CodeAt(s, y, x, top, dy);
      CornerCertified(white, p, s, y, x);
      RecordOne(white, p, l1, k, c);
      l2, k2 := l1[k := c], k + 1;
      assert l2[k].Holds(y, x);
    }
  }

  lemma GrownMore(l1: seq<Code>, k1: nat, l2: seq<Code>, k2: nat, l3: seq<Code>, k3: nat)
    requires Grown(l1, k1, l2, k2) && Grown(l2, k2, l3, k3)
    ensures Grown(l1, k1, l3, k3)
  {
    assert l3[..k1] == l3[..k2][..k1] && l2[..k1] == l2[..k2][..k1];
  }

  /** One pixel of a row. */
  method ScanPixel(white: Picture, p: Params, s: Scan, y: int, x: int, l1: seq<Code>, k: nat)
      returns (l2: seq<Code>, k2: nat, skip: nat)
    requires Recorded(white, p, l1, k) && p.minL >= 1 && 1 <= y < WIDTH && 0 <= x < WIDTH
    requires Seen(white, p, s, y, x, l1, k)
    ensures Recorded(white, p, l2, k2) && Grown(l1, k, l2, k2)
    ensures Seen(white, p, s, y, s.Column(x, skip + 1), l2, k2)
  {
    l2, k2, skip := l1, k, 0;
    var inz := Inside(l1, y, x);
    if !inz && Edge(white, p, y, x) {
      l2, k2, skip := Visit(white, p, s, y, x, l1, k);
    }
    SeenKept(white, p, s, y, x, l1, k, l2, k2);
    SeenOn(white, p, s, y, x, l2, k2, skip);
  }

  /** One row, scanned pixel by pixel from the scan's side. */
  method ScanRow(white: Picture, p: Params, s: Scan, y: int, l1: seq<Code>, k: nat) returns (l2: seq<Code>, k2: nat)
    requires Recorded(white, p, l1, k) && p.minL >= 1 && 1 <= y < WIDTH
    ensures Recorded(white, p, l2, k2) && Grown(l1, k, l2, k2)
    ensures Seen(white, p, s, y, s.End(), l2, k2)
  {
    l2, k2 := l1, k;
    var x := s.First();
    while 0 <= x < WIDTH
      invariant s.Rightward? ==> 0 <= x
      invariant s.Leftward? ==> x < WIDTH
      invariant Recorded(white, p, l2, k2) && Grown(l1, k, l2, k2)
      invariant Seen(white, p, s, y, x, l2, k2)
      decreases s.Limit(x)
    {
      ghost var l, n := l2, k2;
      var skip;
      l2, k2, skip := ScanPixel(white, p, s, y, x, l2, k2);
      GrownMore(l1, k, l, n, l2, k2);
      x := s.Column(x, skip + 1);
    }
  }

  /** A whole pass over the picture. */
  method Pass(white: Picture, p: Params, s: Scan, l1: seq<Code>, k: nat) returns (l2: seq<Code>, k2: nat)
    requires Recorded(white, p, l1, k) && p.minL >= 1
    ensures Recorded(white, p, l2, k2) && Grown(l1, k, l2, k2)
    ensures forall y | 1 <= y < WIDTH :: Seen(white, p, s, y, s.End(), l2, k2)
  {
    l2, k2 := l1, k;
    for y := 1 to WIDTH
      invariant Recorded(white, p, l2, k2) && Grown(l1, k, l2, k2)
      invariant forall r | 1 <= r < y :: Seen(white, p, s, r, s.End(), l2, k2)
    {
      ghost var l, n := l2, k2;
      l2, k2 := ScanRow(white, p, s, y, l2, k2);
      GrownMore(l1, k, l, n, l2, k2);
      forall r | 1 <= r < y ensures Seen(white, p, s, r, s.End(), l2, k2) {
        SeenKept(white, p, s, r, s.End(), l, n, l2, k2);
      }
    }
  }

  const NONE: int := 500

  /** The column reported for a code. */
  function Middle(c: Code): int {
    (c.x1 + c.x0) / 2
  }

  /** What is reported: the middle columns of the codes in the order found, or one
      value no code has. */
  method Report(white: Picture, p: Params, l1: seq<Code>, k: nat) returns (out: seq<int>)
    requires Recorded(white, p, l1, k)
    ensures k == 0 ==> out == [500]
    ensures k > 0 ==> |out| == k && forall z | 0 <= z < k ::
                        2 * out[z] <= l1[z].x0 + l1[z].x1 < 2 * out[z] + 2 && 0 <= out[z] < WIDTH
  {
    out := [];
    for z := 0 to CODES
      invariant |out| == (if z < k then z else k)
      invariant forall i | 0 <= i < |out| ::
                  2 * out[i] <= l1[i].x0 + l1[i].x1 < 2 * out[i] + 2 && 0 <= out[i] < WIDTH
    {
      if l1[z].o {
        assert Certified(white, p, l1[z]);
        out := out + [Middle(l1[z])];
      }
    }
    if !l1[0].o {
      out := out + [NONE];
    }
  }

  /** One frame: the table, whatever the last frame left in it, is cleared, filled by
      the two passes and reported. */
  method Detect(white: Picture, p: Params, last: seq<Code>) returns (l1: seq<Code>, k: nat, out: seq<int>)
    requires p.minL >= 1 && |last| == CODES
    ensures Recorded(white, p, l1, k)
    ensures forall y | 1 <= y < WIDTH :: NoneMissed(white, p, Rightward, y, l1, k) && NoneMissed(white, p, Leftward, y, l1, k)
    ensures k == 0 ==> out == [500]
    ensures k > 0 ==> |out| == k && forall z | 0 <= z < k ::
                        2 * out[z] <= l1[z].x0 + l1[z].x1 < 2 * out[z] + 2 && 0 <= out[z] < WIDTH
  {
    l1, k := last, 0;
    for nr := 0 to CODES
      invariant |l1| == CODES && forall z | 0 <= z < nr :: !l1[z].o
    {
      l1 := l1[nr := l1[nr].(o := false)];
    }
    l1, k := Pass(white, p, Rightward, l1, k);
    ghost var l, n := l1, k;
    l1, k := Pass(white, p, Leftward, l1, k);
    forall y | 1 <= y < WIDTH
      ensures NoneMissed(white, p, Rightward, y, l1, k) && NoneMissed(white, p, Leftward, y, l1, k)
    {
      SeenKept(white, p, Rightward, y, Rightward.End(), l, n, l1, k);
      SeenMissesNone(white, p, Rightward, y, l1, k);
      SeenMissesNone(white, p, Leftward, y, l1, k);
    }
    out := Report(white, p, l1, k);
  }
}
