/** The debouncing scan of the key matrix. */
module KeyMatrix {
  import opened Words
  import opened Mailbox

  const DEBOUNCE_US := 10000
  const TWO64: int := 0x1_0000_0000_0000_0000

  type u64 = x: int | 0 <= x < 0x1_0000_0000_0000_0000

  /** 64-bit unsigned subtraction, wrapping. */
  function Sub64(a: u64, b: u64): u64 {
    if b <= a then a - b else a - b + TWO64
  }

  /** One key: its debounced state and when that last changed. */
  datatype Cell = Cell(pressed: bool, stamp: u64)

  predicate Changes(c: Cell, now: u64, level: bool) {
    level != c.pressed && Sub64(now, c.stamp) > DEBOUNCE_US
  }

  function Sample(c: Cell, now: u64, level: bool): Cell {
    if Changes(c, now, level) then Cell(level, now) else c
  }

  // ------------------------------------------------------------------
  // One key over a run
  // ------------------------------------------------------------------

  datatype Reading = Read(now: u64, level: bool)
  datatype KeyEvent = KeyEvent(at: u64, down: bool)
  datatype KeyRun = KeyRun(cell: Cell, events: seq<KeyEvent>)

  function Observe(r: KeyRun, x: Reading): KeyRun {
    KeyRun(Sample(r.cell, x.now, x.level),
           if Changes(r.cell, x.now, x.level) then r.events + [KeyEvent(x.now, x.level)] else r.events)
  }

  function ObserveAll(h: seq<Reading>): KeyRun {
    if h == [] then KeyRun(Cell(false, 0), []) else Observe(ObserveAll(h[..|h| - 1]), h[|h| - 1])
  }

  predicate Monotone(h: seq<Reading>) {
    forall i, j | 0 <= i < j < |h| :: h[i].now <= h[j].now
  }

  function Downs(events: seq<KeyEvent>): int {
    if events == [] then 0
    else Downs(events[..|events| - 1]) + if events[|events| - 1].down then 1 else 0
  }

  function Ups(events: seq<KeyEvent>): int {
    if events == [] then 0
    else Ups(events[..|events| - 1]) + if events[|events| - 1].down then 0 else 1
  }

  /** Events alternate from DOWN and lie more than 10 ms apart. */
  predicate Alternating(events: seq<KeyEvent>) {
    && (events != [] ==> events[0].down && events[0].at > 10000)
    && (forall i | 0 < i < |events| ::
          events[i].down == !events[i - 1].down && events[i].at > events[i - 1].at + 10000)
  }

  /** The key's state as its events tell it. */
  function LastOf(events: seq<KeyEvent>): Cell {
    if events == [] then Cell(false, 0) else Cell(events[|events| - 1].down, events[|events| - 1].at)
  }

  /** The key's state is its last event's, and accounts for all downs and ups. */
  predicate Debounced(r: KeyRun) {
    && Alternating(r.events)
    && r.cell == LastOf(r.events)
    && Flag(r.cell.pressed, 1) == Downs(r.events) - Ups(r.events)
  }

  lemma CountsSnoc(events: seq<KeyEvent>, e: KeyEvent)
    ensures Downs(events + [e]) - Ups(events + [e]) == Downs(events) - Ups(events) + if e.down then 1 else -1
  {
    assert (events + [e])[..|events|] == events;
  }

  lemma AlternatingSnoc(events: seq<KeyEvent>, e: KeyEvent)
    requires Alternating(events)
    requires e.down == !LastOf(events).pressed && e.at > LastOf(events).stamp + DEBOUNCE_US
    ensures Alternating(events + [e])
  {
  }

  lemma ObserveKeeps(r: KeyRun, x: Reading)
    requires Debounced(r) && r.cell.stamp <= x.now
    ensures Debounced(Observe(r, x)) && Observe(r, x).cell.stamp <= x.now
  {
    if Changes(r.cell, x.now, x.level) {
      CountsSnoc(r.events, KeyEvent(x.now, x.level));
      AlternatingSnoc(r.events, KeyEvent(x.now, x.level));
    }
  }

  /** With a monotone clock every run is debounced. */
  lemma {:induction false} RunIsDebounced(h: seq<Reading>)
    requires Monotone(h)
    ensures Debounced(ObserveAll(h))
    ensures ObserveAll(h).cell.stamp <= if h == [] then 0 else h[|h| - 1].now
  {
    if h != [] {
      var front := h[..|h| - 1];
      RunIsDebounced(front);
      ObserveKeeps(ObserveAll(front), h[|h| - 1]);
    }
  }

  lemma ReadingStep(h: seq<Reading>, x: Reading)
    ensures ObserveAll(h + [x]) == Observe(ObserveAll(h), x)
  {
    assert (h + [x])[..|h|] == h;
  }

  lemma MonotonePrefix(h: seq<Reading>, x: Reading)
    requires Monotone(h + [x])
    ensures Monotone(h) && (h != [] ==> h[|h| - 1].now <= x.now)
  {
    assert forall i | 0 <= i < |h| :: (h + [x])[i] == h[i];
    assert (h + [x])[|h|] == x;
  }

  /** A reading that differs is taken up as soon as the key has been quiet for 10 ms. */
  lemma ChangeIsTaken(h: seq<Reading>, x: Reading)
    requires Monotone(h + [x])
    ensures var r := ObserveAll(h + [x]);
            r.cell.pressed == x.level ||
            (r.events != [] && x.now - r.events[|r.events| - 1].at <= 10000) ||
            (r.events == [] && x.now <= 10000)
  {
    ReadingStep(h, x);
    RunIsDebounced(h + [x]);
    assert (h + [x])[..|h|] == h;
    MonotonePrefix(h, x);
    RunIsDebounced(h);
  }

  // ------------------------------------------------------------------
  // The scan loop
  // ------------------------------------------------------------------

  const ROWS := 5
  const COLS := 8

  /** The events of a row scan, in column order. */
  function ScanEvents(cells: seq<Cell>, now: u64, levels: seq<bool>, row: int, n: nat): seq<Event>
    requires n <= |levels| <= |cells|
  {
    if n == 0 then []
    else
      ScanEvents(cells, now, levels, row, n - 1) +
      if Changes(cells[n - 1], now, levels[n - 1]) then [Event(levels[n - 1], row, n - 1)] else []
  }

  /** One scan of a row: when it was read, and the levels of its columns. */
  datatype Scan = Scan(row: nat, now: u64, levels: seq<bool>)

  type Grid = seq<seq<Cell>>

  predicate IsGrid(g: Grid) {
    |g| == ROWS && forall r | 0 <= r < ROWS :: |g[r]| == COLS
  }

  function WithCell(g: Grid, r: nat, c: nat, x: Cell): (h: Grid)
    requires IsGrid(g) && r < ROWS && c < COLS
    ensures IsGrid(h)
  {
    g[r := g[r][c := x]]
  }

  predicate Fits(s: Scan) {
    s.row < ROWS && |s.levels| <= COLS
  }

  predicate AllFit(scans: seq<Scan>) {
    forall i | 0 <= i < |scans| :: Fits(scans[i])
  }

  /** The cells of a row after its first `n` columns are read. */
  function ScanCells(cells: seq<Cell>, s: Scan, n: nat): (r: seq<Cell>)
    requires n <= |s.levels| <= |cells|
    ensures |r| == |cells|
    ensures forall c | 0 <= c < |cells| :: r[c] == if c < n then Sample(cells[c], s.now, s.levels[c]) else cells[c]
  {
    if n == 0 then cells
    else ScanCells(cells, s, n - 1)[n - 1 := Sample(cells[n - 1], s.now, s.levels[n - 1])]
  }

  function ScanGrid(g: Grid, s: Scan, n: nat): (r: Grid)
    requires IsGrid(g) && Fits(s) && n <= |s.levels|
    ensures IsGrid(r)
  {
    g[s.row := ScanCells(g[s.row], s, n)]
  }

  function RunScans(g: Grid, scans: seq<Scan>): (r: Grid)
    requires IsGrid(g) && AllFit(scans)
    ensures IsGrid(r)
  {
    if scans == [] then g
    else
      var k := |scans| - 1;
      ScanGrid(RunScans(g, scans[..k]), scans[k], |scans[k].levels|)
  }

  /** The events that a scan of the grid queues, in column order. */
  function EventsIn(g: Grid, s: Scan): seq<Event>
    requires IsGrid(g) && Fits(s)
  {
    ScanEvents(g[s.row], s.now, s.levels, s.row, |s.levels|)
  }

  function RunEvents(g: Grid, scans: seq<Scan>): seq<Event>
    requires IsGrid(g) && AllFit(scans)
  {
    if scans == [] then []
    else
      var k := |scans| - 1;
      RunEvents(g, scans[..k]) + EventsIn(RunScans(g, scans[..k]), scans[k])
  }

  /** One pass over the rows, from the top. */
  function Pass(times: seq<u64>, levels: seq<seq<bool>>): (scans: seq<Scan>)
    requires |times| == |levels|
    ensures |scans| == |levels| && forall r | 0 <= r < |scans| :: scans[r] == Scan(r, times[r], levels[r])
  {
    if levels == [] then []
    else
      var r := |levels| - 1;
      Pass(times[..r], levels[..r]) + [Scan(r, times[r], levels[r])]
  }

  function OfferAll(b: Box, events: seq<Event>): Box {
    if events == [] then b else Offer(OfferAll(b, events[..|events| - 1]), events[|events| - 1])
  }

  const UP := Cell(false, 0)
  const UP_ROW := [UP, UP, UP, UP, UP, UP, UP, UP]

  /** All keys up, as at start. */
  const RELEASED: Grid := [UP_ROW, UP_ROW, UP_ROW, UP_ROW, UP_ROW]

  class Scanner {
    const matrix: array2<bool>
    const stamps: array2<u64>
    const box: MatrixMailbox

    /** The cells that the two arrays hold. */
    ghost var grid: Grid

    ghost predicate Valid()
      reads this, box, matrix, stamps
    {
      && matrix.Length0 == ROWS && matrix.Length1 == COLS
      && stamps.Length0 == ROWS && stamps.Length1 == COLS
      && box.Valid()
      && IsGrid(grid)
      && forall r, c | 0 <= r < ROWS && 0 <= c < COLS :: grid[r][c] == Cell(matrix[r, c], stamps[r, c])
    }

    constructor ()
      ensures Valid()
      ensures fresh(matrix) && fresh(stamps) && fresh(box) && fresh(box.queue)
      ensures grid == RELEASED
    {
      matrix := new bool[ROWS, COLS]((_, _) => false);
      stamps := new u64[ROWS, COLS]((_, _) => 0);
      box := new MatrixMailbox();
      grid := RELEASED;
    }

    /** One column of the scan. */
    method ScanKey(r: nat, c: nat, now: u64, level: bool)
      requires Valid() && r < ROWS && c < COLS
      modifies this`grid, matrix, stamps, box`matrixEvent, box`dataPresent, box`queueIndex, box.queue
      ensures Valid()
      ensures grid == WithCell(old(grid), r, c, Sample(old(grid)[r][c], now, level))
      ensures box.View() == if Changes(old(grid)[r][c], now, level) then Offer(old(box.View()), Event(level, r, c))
                            else old(box.View())
    {
      grid := WithCell(grid, r, c, Sample(grid[r][c], now, level));
      if level != matrix[r, c] {
        if Sub64(now, stamps[r, c]) > DEBOUNCE_US {
          matrix[r, c] := level;
          stamps[r, c] := now;
          box.EventQueue(Event(level, r, c));
        }
      }
    }

    /** Reads the columns of one row and queues an event for each debounced change. */
    method ScanRow(s: Scan)
      requires Valid() && Fits(s)
      modifies this`grid, matrix, stamps, box`matrixEvent, box`dataPresent, box`queueIndex, box.queue
      ensures Valid()
      ensures grid == ScanGrid(old(grid), s, |s.levels|)
      ensures box.View() == OfferAll(old(box.View()), EventsIn(old(grid), s))
    {
      ghost var g, b := grid, box.View();
      for c := 0 to |s.levels|
        invariant Valid()
        invariant grid == ScanGrid(g, s, c)
        invariant box.View() == OfferAll(b, ScanEvents(g[s.row], s.now, s.levels, s.row, c))
      {
        OfferSnoc(b, ScanEvents(g[s.row], s.now, s.levels, s.row, c), Event(s.levels[c], s.row, c));
        ScanKey(s.row, c, s.now, s.levels[c]);
      }
    }

    /** The first `r` of the scans are done. */
    ghost predicate Scanned(b: Box, g: Grid, scans: seq<Scan>, r: nat)
      requires r <= |scans| && IsGrid(g) && AllFit(scans)
      reads this, box, box.queue, matrix, stamps
    {
      Valid() && grid == RunScans(g, scans[..r]) && box.View() == OfferAll(b, RunEvents(g, scans[..r]))
    }

    method ScanNext(s: Scan, ghost b: Box, ghost g: Grid, ghost scans: seq<Scan>, ghost r: nat)
      requires r < |scans| && IsGrid(g) && AllFit(scans) && s == scans[r] && Scanned(b, g, scans, r)
      modifies this`grid, matrix, stamps, box`matrixEvent, box`dataPresent, box`queueIndex, box.queue
      ensures Scanned(b, g, scans, r + 1)
    {
      ScanRow(s);
      PassStep(b, g, scans, r);
    }

    /** One pass of the endless loop: all rows, then the mailbox is refilled. */
    method ScanMatrix(times: seq<u64>, levels: seq<seq<bool>>)
      requires Valid() && |times| == |levels| <= ROWS && forall r | 0 <= r < |levels| :: |levels[r]| <= COLS
      modifies this`grid, matrix, stamps, box`matrixEvent, box`dataPresent, box`queueIndex, box.queue
      ensures Valid()
      ensures grid == RunScans(old(grid), Pass(times, levels))
      ensures box.View() == Refill(OfferAll(old(box.View()), RunEvents(old(grid), Pass(times, levels))))
    {
      ghost var g, b, scans := grid, box.View(), Pass(times, levels);
      for r := 0 to |levels|
        invariant Scanned(b, g, scans, r)
      {
        ScanNext(Scan(r, times[r], levels[r]), b, g, scans, r);
      }
      assert scans[..|levels|] == scans;
      box.QueueHandle();
    }
  }

  lemma RunStep(g: Grid, scans: seq<Scan>, r: nat)
    requires IsGrid(g) && r < |scans| && AllFit(scans)
    ensures var before := RunScans(g, scans[..r]);
            && RunScans(g, scans[..r + 1]) == ScanGrid(before, scans[r], |scans[r].levels|)
            && RunEvents(g, scans[..r + 1]) == RunEvents(g, scans[..r]) + EventsIn(before, scans[r])
  {
    assert scans[..r + 1][..r] == scans[..r];
  }

  lemma PassStep(b: Box, g: Grid, scans: seq<Scan>, r: nat)
    requires IsGrid(g) && r < |scans| && AllFit(scans)
    ensures var before := RunScans(g, scans[..r]);
            && RunScans(g, scans[..r + 1]) == ScanGrid(before, scans[r], |scans[r].levels|)
            && OfferAll(b, RunEvents(g, scans[..r + 1])) ==
               OfferAll(OfferAll(b, RunEvents(g, scans[..r])), EventsIn(before, scans[r]))
  {
    RunStep(g, scans, r);
    OfferConcat(b, RunEvents(g, scans[..r]), EventsIn(RunScans(g, scans[..r]), scans[r]));
  }

  lemma {:induction false} OfferConcat(b: Box, first: seq<Event>, second: seq<Event>)
    ensures OfferAll(b, first + second) == OfferAll(OfferAll(b, first), second)
  {
    if second == [] {
      assert first + second == first;
    } else {
      var k := |second| - 1;
      OfferConcat(b, first, second[..k]);
      assert first + second == first + second[..k] + [second[k]];
      OfferSnoc(b, first + second[..k], second[k]);
    }
  }

  lemma OfferSnoc(b: Box, events: seq<Event>, e: Event)
    ensures OfferAll(b, events + [e]) == Offer(OfferAll(b, events), e)
    ensures events + [] == events
  {
    assert (events + [e])[..|events|] == events;
  }

  // ------------------------------------------------------------------
  // Every key of the matrix over a whole run
  // ------------------------------------------------------------------

  /** What the scans read of one key. */
  function Readings(scans: seq<Scan>, r: nat, c: nat): seq<Reading> {
    if scans == [] then []
    else
      var front, s := Readings(scans[..|scans| - 1], r, c), scans[|scans| - 1];
      if s.row == r && c < |s.levels| then front + [Read(s.now, s.levels[c])] else front
  }

  /** The events of one key among those queued by one scan at time `at`. */
  function OfKey(events: seq<Event>, at: u64, r: nat, c: nat): seq<KeyEvent> {
    if events == [] then []
    else
      var front, e := OfKey(events[..|events| - 1], at, r, c), events[|events| - 1];
      if e.row == r && e.col == c then front + [KeyEvent(at, e.down)] else front
  }

  /** The events of one key over a run from `g`, in order. */
  function KeyEvents(g: Grid, scans: seq<Scan>, r: nat, c: nat): seq<KeyEvent>
    requires IsGrid(g) && AllFit(scans)
  {
    if scans == [] then []
    else
      var k := |scans| - 1;
      KeyEvents(g, scans[..k], r, c) + OfKey(EventsIn(RunScans(g, scans[..k]), scans[k]), scans[k].now, r, c)
  }

  lemma OfKeySnoc(events: seq<Event>, e: Event, at: u64, r: nat, c: nat)
    ensures OfKey(events + [e], at, r, c) ==
            OfKey(events, at, r, c) + if e.row == r && e.col == c then [KeyEvent(at, e.down)] else []
  {
    assert (events + [e])[..|events|] == events;
  }

  lemma {:induction false} OfKeyInScan(cells: seq<Cell>, now: u64, levels: seq<bool>, row: nat, n: nat, r: nat, c: nat)
    requires n <= |levels| <= |cells|
    ensures OfKey(ScanEvents(cells, now, levels, row, n), now, r, c) ==
            if row == r && c < n && Changes(cells[c], now, levels[c]) then [KeyEvent(now, levels[c])] else []
  {
    if n > 0 {
      var k, front := n - 1, ScanEvents(cells, now, levels, row, n - 1);
      OfKeyInScan(cells, now, levels, row, k, r, c);
      OfKeySnoc(front, Event(levels[k], row, k), now, r, c);
      assert front + [] == front;
    }
  }

  /** One scan changes a key and queues its event as one observation of that key would. */
  lemma ScanIsObserved(g: Grid, s: Scan, r: nat, c: nat, run: KeyRun)
    requires IsGrid(g) && Fits(s) && r < ROWS && c < COLS && run.cell == g[r][c]
    ensures KeyRun(ScanGrid(g, s, |s.levels|)[r][c], run.events + OfKey(EventsIn(g, s), s.now, r, c)) ==
            if s.row == r && c < |s.levels| then Observe(run, Read(s.now, s.levels[c])) else run
  {
    OfKeyInScan(g[s.row], s.now, s.levels, s.row, |s.levels|, r, c);
  }

  /** Scanned with all the others, each key behaves as if it were observed alone. */
  lemma {:induction false} KeysAreIndependent(g: Grid, scans: seq<Scan>, r: nat, c: nat)
    requires IsGrid(g) && AllFit(scans) && r < ROWS && c < COLS && g[r][c] == UP
    ensures KeyRun(RunScans(g, scans)[r][c], KeyEvents(g, scans, r, c)) == ObserveAll(Readings(scans, r, c))
  {
    if scans != [] {
      var k := |scans| - 1;
      var s, h := scans[k], Readings(scans[..k], r, c);
      KeysAreIndependent(g, scans[..k], r, c);
      ScanIsObserved(RunScans(g, scans[..k]), s, r, c, ObserveAll(h));
      if s.row == r && c < |s.levels| {
        ReadingStep(h, Read(s.now, s.levels[c]));
      }
    }
  }

  predicate MonotoneScans(scans: seq<Scan>) {
    forall i, j | 0 <= i < j < |scans| :: scans[i].now <= scans[j].now
  }

  lemma {:induction false} ReadingsMonotone(scans: seq<Scan>, r: nat, c: nat)
    requires MonotoneScans(scans)
    ensures Monotone(Readings(scans, r, c))
    ensures forall x | x in Readings(scans, r, c) :: x.now <= scans[|scans| - 1].now
  {
    if scans != [] {
      ReadingsMonotone(scans[..|scans| - 1], r, c);
    }
  }

  /** With a monotone clock every key of the matrix is debounced, whatever the scans read. */
  lemma MatrixIsDebounced(scans: seq<Scan>, r: nat, c: nat)
    requires r < ROWS && c < COLS && AllFit(scans)
    requires MonotoneScans(scans)
    ensures Debounced(KeyRun(RunScans(RELEASED, scans)[r][c], KeyEvents(RELEASED, scans, r, c)))
  {
    KeysAreIndependent(RELEASED, scans, r, c);
    ReadingsMonotone(scans, r, c);
    RunIsDebounced(Readings(scans, r, c));
  }
}
