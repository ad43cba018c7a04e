/** From matrix rows to key events (keyboard.c): ghost detection and change detection. */
module Matrix {
  import opened MatrixRow

  /** One switch that went down or up. */
  datatype Change = Change(row: nat, col: nat, pressed: bool)

  datatype Event = Tick | Key(change: Change)

  datatype Config = Config(rows: nat, cols: nat, hasGhost: bool, mapped: (nat, nat) -> bool)

  // ----- Ghosts -----

  /** A column of a row in which a key of the keymap reads as pressed. */
  predicate RealAt(k: Config, row: nat, data: Row, c: nat)
    requires k.cols <= MAX_COLS
  {
    c < k.cols && k.mapped(row, c) && Has(data, c)
  }

  /** get_real_keys */
  method GetRealKeys(k: Config, row: nat, data: Row) returns (out: Row)
    requires k.cols <= MAX_COLS
    ensures forall c: nat :: c < MAX_COLS ==> (Has(out, c) <==> RealAt(k, row, data, c))
  {
    hide Has, Col;
    out := 0;
    forall c: nat | c < MAX_COLS
      ensures !Has(0, c)
    {
      Nothing(c);
    }
    for col := 0 to k.cols
      invariant forall c: nat :: c < MAX_COLS ==> (Has(out, c) <==> c < col && RealAt(k, row, data, c))
    {
      if k.mapped(row, col) && Has(data, col) {
        ghost var before := out;
        out := out | Col(col);
        forall c: nat | c < MAX_COLS
          ensures Has(out, c) <==> c == col || Has(before, c)
        {
          AddCol(before, col, c);
        }
      }
    }
  }

  /** Two rows share two columns in which both have real keys pressed. */
  predicate ShareTwo(k: Config, m: seq<Row>, r: nat, i: nat)
    requires k.cols <= MAX_COLS && r < |m| && i < |m|
  {
    exists a: nat, b: nat :: a < b < MAX_COLS
      && RealAt(k, r, m[r], a) && RealAt(k, i, m[i], a)
      && RealAt(k, r, m[r], b) && RealAt(k, i, m[i], b)
  }

  predicate Ghosted(k: Config, m: seq<Row>, r: nat)
    requires k.cols <= MAX_COLS && r < |m|
  {
    k.hasGhost && exists i: nat :: i < |m| && i != r && ShareTwo(k, m, r, i)
  }

  /** Ghosted rows come in pairs: the row that makes another a ghost is one itself. */
  lemma GhostSymmetric(k: Config, m: seq<Row>, r: nat) returns (i: nat)
    requires k.cols <= MAX_COLS && r < |m| && Ghosted(k, m, r)
    ensures i < |m| && i != r && Ghosted(k, m, i)
    ensures ShareTwo(k, m, r, i) && ShareTwo(k, m, i, r)
  {
    i :| i < |m| && i != r && ShareTwo(k, m, r, i);
    var a: nat, b: nat :| a < b < MAX_COLS
      && RealAt(k, r, m[r], a) && RealAt(k, i, m[i], a)
      && RealAt(k, r, m[r], b) && RealAt(k, i, m[i], b);
    assert ShareTwo(k, m, i, r);
  }

  /** has_ghost_in_row */
  method HasGhostInRow(k: Config, m: seq<Row>, row: nat) returns (ghosted: bool)
    requires k.cols <= MAX_COLS && |m| == k.rows && row < k.rows
    ensures ghosted <==> Ghosted(k, m, row)
  {
    if !k.hasGhost {
      return false;
    }
    hide Has, Col;
    var data := GetRealKeys(k, row, m[row]);
    if !PopcountMoreThanOne(data) {
      forall i: nat | i < |m| && i != row
        ensures !ShareTwo(k, m, row, i)
      {
        FewKeys(k, m, row, i, data);
      }
      return false;
    }
    for i := 0 to k.rows
      invariant forall j: nat :: j < i && j != row ==> !ShareTwo(k, m, row, j)
    {
      var other := GetRealKeys(k, i, m[i]);
      SharedColumns(k, m, row, i, data, other);
      if i != row && PopcountMoreThanOne(other & data) {
        return true;
      }
    }
    return false;
  }

  lemma FewKeys(k: Config, m: seq<Row>, row: nat, i: nat, data: Row)
    requires k.cols <= MAX_COLS && row < |m| && i < |m| && !HasTwo(data)
    requires forall c: nat :: c < MAX_COLS ==> (Has(data, c) <==> RealAt(k, row, m[row], c))
    ensures !ShareTwo(k, m, row, i)
  {
    hide Has;
    forall a: nat, b: nat | a < b < MAX_COLS && RealAt(k, row, m[row], a)
      ensures !RealAt(k, row, m[row], b)
    {
      assert Has(data, a);
    }
  }

  lemma SharedColumns(k: Config, m: seq<Row>, row: nat, i: nat, data: Row, other: Row)
    requires k.cols <= MAX_COLS && row < |m| && i < |m|
    requires forall c: nat :: c < MAX_COLS ==> (Has(data, c) <==> RealAt(k, row, m[row], c))
    requires forall c: nat :: c < MAX_COLS ==> (Has(other, c) <==> RealAt(k, i, m[i], c))
    ensures HasTwo(other & data) <==> ShareTwo(k, m, row, i)
  {
    hide Has, RealAt;
    forall c: nat | c < MAX_COLS
      ensures Has(other & data, c) <==> RealAt(k, row, m[row], c) && RealAt(k, i, m[i], c)
    {
      Both(other, data, c);
    }
    if HasTwo(other & data) {
      var a, b :| 0 <= a < b < MAX_COLS && Has(other & data, a) && Has(other & data, b);
      assert RealAt(k, row, m[row], a) && RealAt(k, row, m[row], b);
    }
    if ShareTwo(k, m, row, i) {
      var a: nat, b: nat :| a < b < MAX_COLS
        && RealAt(k, row, m[row], a) && RealAt(k, i, m[i], a)
        && RealAt(k, row, m[row], b) && RealAt(k, i, m[i], b);
      assert Has(other & data, a) && Has(other & data, b);
    }
  }

  // ----- Replaying changes -----

  /** Whether a switch is down after a log of changes, starting with all of them up. */
  predicate Down(log: seq<Change>, row: nat, col: nat) {
    if log == [] then false
    else
      var last := log[|log| - 1];
      if last.row == row && last.col == col then last.pressed else Down(log[..|log| - 1], row, col)
  }

  /** Every change turns its switch over: presses and releases alternate, beginning with
      a press. */
  predicate Alternates(log: seq<Change>) {
    forall i :: 0 <= i < |log| ==> log[i].pressed != Down(log[..i], log[i].row, log[i].col)
  }

  lemma DownAfter(log: seq<Change>, c: Change, row: nat, col: nat)
    ensures Down(log + [c], row, col) == if c.row == row && c.col == col then c.pressed else Down(log, row, col)
  {
    assert (log + [c])[..|log|] == log;
  }

  lemma AlternatesAfter(log: seq<Change>, c: Change)
    requires Alternates(log) && c.pressed != Down(log, c.row, c.col)
    ensures Alternates(log + [c])
  {
    var l := log + [c];
    forall i | 0 <= i < |l|
      ensures l[i].pressed != Down(l[..i], l[i].row, l[i].col)
    {
      assert l[..i] == log[..i];
      assert i == |log| ==> log[..i] == log;
    }
  }

  // ----- One pass over the matrix -----

  predicate NoChange(was: Row, now: Row)
    ensures NoChange(was, now) <==> was == now
  {
    SameRow(now, was);
    now ^ was == 0
  }

  predicate Changed(was: Row, now: Row, c: nat)
    requires c < MAX_COLS
    ensures Changed(was, now, c) <==> Has(now, c) != Has(was, c)
  {
    hide Has;
    Differ(now, was, c);
    Has(now ^ was, c)
  }

  /** The changed columns of a row, among the first `n`, in order. */
  function RowChanges(row: nat, was: Row, now: Row, n: nat): seq<Change>
    requires n <= MAX_COLS
  {
    if n == 0 then []
    else
      var before := RowChanges(row, was, now, n - 1);
      if Changed(was, now, n - 1) then before + [Change(row, n - 1, Has(now, n - 1))] else before
  }

  predicate Skipped(k: Config, was: seq<Row>, now: seq<Row>, r: nat)
    requires k.cols <= MAX_COLS && |was| == |now| && r < |now|
  {
    NoChange(was[r], now[r]) || Ghosted(k, now, r)
  }

  /** What one row adds to the events of a task. */
  function RowDelta(k: Config, was: seq<Row>, now: seq<Row>, r: nat): seq<Change>
    requires k.cols <= MAX_COLS && |was| == |now| && r < |now|
  {
    if Skipped(k, was, now, r) then [] else RowChanges(r, was[r], now[r], k.cols)
  }

  function TaskChanges(k: Config, was: seq<Row>, now: seq<Row>, n: nat): seq<Change>
    requires k.cols <= MAX_COLS && |was| == |now| && n <= |now|
  {
    if n == 0 then [] else TaskChanges(k, was, now, n - 1) + RowDelta(k, was, now, n - 1)
  }

  function Remembered(k: Config, was: seq<Row>, now: seq<Row>, r: nat): Row
    requires k.cols <= MAX_COLS && |was| == |now| && r < |now|
  {
    if Skipped(k, was, now, r) then was[r] else now[r]
  }

  /** A log replays to rows of bits. */
  predicate Replays(k: Config, log: seq<Change>, rows: seq<Row>)
    requires k.cols <= MAX_COLS
  {
    && Alternates(log)
    && forall r, c :: 0 <= r < |rows| && 0 <= c < k.cols ==> Down(log, r, c) == Has(rows[r], c)
  }

  /** What is down when the first `n` columns of row `r` have been replayed. */
  predicate Midway(rows: seq<Row>, r: nat, now: Row, n: nat, i: nat, c: nat)
    requires i < |rows| && c < MAX_COLS
  {
    if i == r && c < n then Has(now, c) else Has(rows[i], c)
  }

  lemma {:induction false} RowReplay(k: Config, log: seq<Change>, rows: seq<Row>, r: nat, now: Row, n: nat)
    requires n <= k.cols <= MAX_COLS && r < |rows| && Replays(k, log, rows)
    ensures var log' := log + RowChanges(r, rows[r], now, n);
      && Alternates(log')
      && (forall i, c :: 0 <= i < |rows| && 0 <= c < k.cols ==> Down(log', i, c) == Midway(rows, r, now, n, i, c))
  {
    hide Has, Alternates, Down, Changed;
    var all := RowChanges(r, rows[r], now, n);
    if n == 0 {
      assert log + [] == log;
    } else {
      RowReplay(k, log, rows, r, now, n - 1);
      var before := RowChanges(r, rows[r], now, n - 1);
      if Changed(rows[r], now, n - 1) {
        var last := Change(r, n - 1, Has(now, n - 1));
        assert log + all == (log + before) + [last];
        AlternatesAfter(log + before, last);
        forall i, c | 0 <= i < |rows| && 0 <= c < k.cols
          ensures Down(log + all, i, c) == Midway(rows, r, now, n, i, c)
        {
          DownAfter(log + before, last, i, c);
        }
      }
    }
  }

  /** The changes of one row turn the row over in what is replayed. */
  lemma RowReplays(k: Config, log: seq<Change>, rows: seq<Row>, r: nat, now: Row)
    requires k.cols <= MAX_COLS && r < |rows| && Replays(k, log, rows)
    ensures Replays(k, log + RowChanges(r, rows[r], now, k.cols), rows[r := now])
  {
    hide Has, Alternates, Down, RowChanges;
    RowReplay(k, log, rows, r, now, k.cols);
  }

  /** The changes of a task turn a replay of what was remembered into a replay of what
      is remembered now. */
  lemma {:induction false} TaskReplay(k: Config, log: seq<Change>, was: seq<Row>, now: seq<Row>, n: nat, rows: seq<Row>)
    requires k.cols <= MAX_COLS && |was| == |now| == |rows| && n <= |now| && Replays(k, log, was)
    requires forall r :: 0 <= r < |rows| ==> rows[r] == if r < n then Remembered(k, was, now, r) else was[r]
    ensures Replays(k, log + TaskChanges(k, was, now, n), rows)
  {
    hide Has, Alternates, Skipped, Replays, RowChanges;
    if n == 0 {
      assert log + [] == log && rows == was;
    } else {
      var before := TaskChanges(k, was, now, n - 1);
      var rows' := rows[n - 1 := was[n - 1]];
      TaskReplay(k, log, was, now, n - 1, rows');
      if Skipped(k, was, now, n - 1) {
        assert rows == rows';
        assert before + [] == before;
      } else {
        RowReplays(k, log + before, rows', n - 1, now[n - 1]);
        assert rows == rows'[n - 1 := now[n - 1]];
        var changes := RowChanges(n - 1, was[n - 1], now[n - 1], k.cols);
        assert log + (before + changes) == (log + before) + changes;
      }
    }
  }

  predicate Before(a: Change, b: Change) {
    a.row < b.row || (a.row == b.row && a.col < b.col)
  }

  predicate Ascending(changes: seq<Change>) {
    forall i, j :: 0 <= i < j < |changes| ==> Before(changes[i], changes[j])
  }

  lemma {:induction false} RowAscending(row: nat, was: Row, now: Row, n: nat)
    requires n <= MAX_COLS
    ensures var changes := RowChanges(row, was, now, n);
      Ascending(changes) && forall i :: 0 <= i < |changes| ==> changes[i].row == row && changes[i].col < n
  {
    hide Changed, Has;
    if n > 0 {
      RowAscending(row, was, now, n - 1);
    }
  }

  /** The events of a task come row by row and column by column, at most one for each
      switch. */
  lemma {:induction false} TaskAscending(k: Config, was: seq<Row>, now: seq<Row>, n: nat)
    requires k.cols <= MAX_COLS && |was| == |now| && n <= |now|
    ensures var changes := TaskChanges(k, was, now, n);
      Ascending(changes) && forall i :: 0 <= i < |changes| ==> changes[i].row < n && changes[i].col < k.cols
  {
    hide Skipped, RowChanges;
    if n > 0 {
      TaskAscending(k, was, now, n - 1);
      RowAscending(n - 1, was[n - 1], now[n - 1], k.cols);
    }
  }

  /** Rows that are not ghosts are remembered as they are. */
  lemma UnghostedUpToDate(k: Config, was: seq<Row>, now: seq<Row>, r: nat)
    requires k.cols <= MAX_COLS && |was| == |now| && r < |now|
    ensures !Ghosted(k, now, r) ==> Remembered(k, was, now, r) == now[r]
    ensures Remembered(k, was, now, r) != now[r] ==> Ghosted(k, now, r) && Remembered(k, was, now, r) == was[r]
  {
    hide Ghosted;
    SameRow(now[r], was[r]);
  }

  lemma SameRow(x: Row, y: Row)
    ensures x ^ y == 0 <==> x == y
  {
  }

  /** Every event of a task is a change of an unghosted row that is remembered. */
  lemma {:induction false} TaskChangesAre(k: Config, was: seq<Row>, now: seq<Row>, n: nat, i: nat)
    requires k.cols <= MAX_COLS && |was| == |now| && n <= |now| && i < |TaskChanges(k, was, now, n)|
    ensures var d := TaskChanges(k, was, now, n)[i];
      && d.row < n && d.col < k.cols && !Skipped(k, was, now, d.row)
      && Has(was[d.row], d.col) != Has(now[d.row], d.col)
  {
    hide Skipped, Has, RowChanges;
    var before := TaskChanges(k, was, now, n - 1);
    if i < |before| {
      TaskChangesAre(k, was, now, n - 1, i);
    } else {
      RowChangesAre(n - 1, was[n - 1], now[n - 1], k.cols, i - |before|);
    }
  }

  lemma {:induction false} RowChangesAre(row: nat, was: Row, now: Row, n: nat, i: nat)
    requires n <= MAX_COLS && i < |RowChanges(row, was, now, n)|
    ensures var d := RowChanges(row, was, now, n)[i];
      d.row == row && d.col < n && Has(was, d.col) != Has(now, d.col)
  {
    hide Has, Changed;
    if i < |RowChanges(row, was, now, n - 1)| {
      RowChangesAre(row, was, now, n - 1, i);
    }
  }

  /** A key of the keymap reads as pressed. */
  predicate Pressed(k: Config, now: seq<Row>, r: nat, c: nat)
    requires k.cols <= MAX_COLS && r < |now|
  {
    c < k.cols && k.mapped(r, c) && Has(now[r], c)
  }

  /** Four keys at the corners of a rectangle read as pressed, two of them in row `r`. */
  predicate Corner(k: Config, now: seq<Row>, r: nat, i: nat, a: nat, b: nat)
    requires k.cols <= MAX_COLS && r < |now| && i < |now|
  {
    i != r && a < b && Pressed(k, now, r, a) && Pressed(k, now, r, b) && Pressed(k, now, i, a) && Pressed(k, now, i, b)
  }

  lemma GhostedIff(k: Config, now: seq<Row>, r: nat)
    requires k.cols <= MAX_COLS && r < |now|
    ensures Ghosted(k, now, r) <==> k.hasGhost && exists i: nat, a, b :: i < |now| && Corner(k, now, r, i, a, b)
  {
    hide Has;
    if Ghosted(k, now, r) {
      var i: nat :| i < |now| && i != r && ShareTwo(k, now, r, i);
      var a: nat, b: nat :| a < b < MAX_COLS
        && RealAt(k, r, now[r], a) && RealAt(k, i, now[i], a)
        && RealAt(k, r, now[r], b) && RealAt(k, i, now[i], b);
      assert Corner(k, now, r, i, a, b);
    }
    if i: nat, a, b :| i < |now| && Corner(k, now, r, i, a, b) {
      assert RealAt(k, r, now[r], a) && RealAt(k, r, now[r], b);
      assert ShareTwo(k, now, r, i);
    }
  }

  lemma {:induction false} RowComplete(row: nat, was: Row, now: Row, n: nat, c: nat)
    requires n <= MAX_COLS && c < n
    ensures Change(row, c, Has(now, c)) in RowChanges(row, was, now, n) <==> Has(was, c) != Has(now, c)
    ensures Change(row, c, !Has(now, c)) !in RowChanges(row, was, now, n)
  {
    hide Has;
    RowAscending(row, was, now, n - 1);
    if c < n - 1 {
      RowComplete(row, was, now, n - 1, c);
    }
  }

  lemma {:induction false} RowPart(k: Config, was: seq<Row>, now: seq<Row>, n: nat, d: Change)
    requires k.cols <= MAX_COLS && |was| == |now| && n <= |now|
    ensures d in TaskChanges(k, was, now, n) <==> d.row < n && d in RowDelta(k, was, now, d.row)
  {
    hide Skipped, RowChanges;
    if n > 0 {
      RowPart(k, was, now, n - 1, d);
      if !Skipped(k, was, now, n - 1) {
        RowAscending(n - 1, was[n - 1], now[n - 1], k.cols);
      }
    }
  }

  /** Which changes a task reports: a switch that turned over, with its new state, unless
      its row is a corner row of a rectangle of pressed keys on a board that ghosts. */
  lemma ReportedIff(k: Config, was: seq<Row>, now: seq<Row>, r: nat, c: nat, down: bool)
    requires k.cols <= MAX_COLS && |was| == |now| && r < |now| && c < k.cols
    ensures Change(r, c, down) in TaskChanges(k, was, now, |now|)
      <==> && Has(was[r], c) != Has(now[r], c) && down == Has(now[r], c)
           && !(k.hasGhost && exists i: nat, a, b :: i < |now| && Corner(k, now, r, i, a, b))
  {
    hide Has, Ghosted, RowChanges, Corner;
    GhostedIff(k, now, r);
    RowPart(k, was, now, |now|, Change(r, c, down));
    RowComplete(r, was[r], now[r], k.cols, c);
    SameRow(now[r], was[r]);
  }

  /** A log that replayed to the remembered matrix does not replay to the new one when
      the events of a task are kept from it. */
  lemma KeptBack(k: Config, log: seq<Change>, was: seq<Row>, now: seq<Row>, rows: seq<Row>)
    requires k.cols <= MAX_COLS && |rows| == |was| == |now| && Replays(k, log, was)
    requires forall r :: 0 <= r < |rows| ==> rows[r] == Remembered(k, was, now, r)
    requires TaskChanges(k, was, now, |now|) != []
    ensures !Replays(k, log, rows)
  {
    TaskChangesAre(k, was, now, |now|, 0);
    var d := TaskChanges(k, was, now, |now|)[0];
    hide Has, Alternates, Skipped, TaskChanges;
    assert Down(log, d.row, d.col) == Has(was[d.row], d.col) != Has(rows[d.row], d.col);
  }

  /** One key is pressed while key presses are not processed: the press is remembered,
      and the key events do not say so. */
  lemma LostPress()
    ensures var k := Config(1, 1, false, (_, _) => true);
      && TaskChanges(k, [0], [1], 1) == [Change(0, 0, true)]
      && Replays(k, [], [0]) && Remembered(k, [0], [1], 0) == 1
      && !Replays(k, KeysOf([] + Sent(false, TaskChanges(k, [0], [1], 1))), [1])
  {
    var k := Config(1, 1, false, (_, _) => true);
    assert !Has(0, 0) && Has(1, 0);
    assert RowChanges(0, 0, 1, 0) == [];
    assert RowChanges(0, 0, 1, 1) == [Change(0, 0, true)];
    assert TaskChanges(k, [0], [1], 0) == [];
    KeptBack(k, [], [0], [1], [1]);
  }

  // ----- The events handed on -----

  function Emitted(changes: seq<Change>): seq<Event> {
    if changes == [] then [] else Emitted(changes[..|changes| - 1]) + [Key(changes[|changes| - 1])]
  }

  function KeysOf(events: seq<Event>): seq<Change> {
    if events == [] then []
    else
      var before, last := KeysOf(events[..|events| - 1]), events[|events| - 1];
      if last.Key? then before + [last.change] else before
  }

  /** What action_exec gets of some changes. */
  function Sent(processKeypress: bool, changes: seq<Change>): seq<Event> {
    if processKeypress then Emitted(changes) else []
  }

  lemma EmittedConcat(a: seq<Change>, b: seq<Change>)
    ensures Emitted(a + b) == Emitted(a) + Emitted(b)
  {
    if b == [] {
      assert a + b == a;
    } else {
      var n := |b| - 1;
      EmittedConcat(a, b[..n]);
      assert (a + b)[..|a| + n] == a + b[..n];
    }
  }

  lemma SentAfter(p: bool, log: seq<Event>, a: seq<Change>, b: seq<Change>)
    ensures (log + Sent(p, a)) + Sent(p, b) == log + Sent(p, a + b)
  {
    if p {
      EmittedConcat(a, b);
      hide Emitted;
      Appended(log, Emitted(a), Emitted(b));
    }
  }

  lemma Appended<T>(log: seq<T>, a: seq<T>, b: seq<T>)
    ensures (log + a) + b == log + (a + b)
    ensures log + [] == log
  {
  }

  lemma {:induction false} KeysOfEmitted(events: seq<Event>, changes: seq<Change>)
    ensures KeysOf(events + Emitted(changes)) == KeysOf(events) + changes
  {
    if changes == [] {
      assert events + [] == events;
    } else {
      var n := |changes| - 1;
      KeysOfEmitted(events, changes[..n]);
      var before := events + Emitted(changes[..n]);
      assert events + Emitted(changes) == before + [Key(changes[n])];
      assert (before + [Key(changes[n])])[..|before|] == before;
    }
  }

  /** Keeping changes back makes a log shorter for good. */
  lemma KeysAfter(keys: seq<Change>, switches: seq<Change>, changes: seq<Change>)
    requires |keys| <= |switches|
    ensures |keys + changes| <= |switches + changes|
    ensures keys + changes == switches + changes <==> keys == switches
    ensures keys == switches + changes <==> keys == switches && changes == []
  {
    if keys + changes == switches + changes {
      assert keys == (keys + changes)[..|keys|] && switches == (switches + changes)[..|switches|];
    }
    assert changes == [] ==> switches + changes == switches;
  }

  lemma KeysSent(events: seq<Event>, p: bool, changes: seq<Change>)
    ensures KeysOf(events + Sent(p, changes)) == if p then KeysOf(events) + changes else KeysOf(events)
  {
    KeysOfEmitted(events, changes);
    assert events + [] == events;
  }

  /** What a task makes of logs that replayed to the remembered matrix: the switch events go
      on replaying, and the key events do if and only if no change was kept from them. */
  lemma GoesOn(k: Config, keys: seq<Change>, switches: seq<Change>, was: seq<Row>, now: seq<Row>, rows: seq<Row>,
               p: bool)
    requires k.cols <= MAX_COLS && |rows| == |was| == |now| && |keys| <= |switches| && Replays(k, switches, was)
    requires forall r :: 0 <= r < |rows| ==> rows[r] == Remembered(k, was, now, r)
    ensures var changes := TaskChanges(k, was, now, |now|);
      var keys' := if p then keys + changes else keys;
      && Replays(k, switches + changes, rows)
      && |keys'| <= |switches + changes|
      && (keys' == switches + changes <==> keys == switches && (p || changes == []))
      && (Replays(k, keys, was) ==> (Replays(k, keys', rows) <==> p || changes == []))
  {
    hide Replays, Remembered, TaskChanges;
    var changes := TaskChanges(k, was, now, |now|);
    TaskReplay(k, switches, was, now, |now|, rows);
    KeysAfter(keys, switches, changes);
    if Replays(k, keys, was) {
      if p || changes == [] {
        assert changes == [] ==> keys + changes == keys;
        TaskReplay(k, keys, was, now, |now|, rows);
      } else {
        KeptBack(k, keys, was, now, rows);
      }
    }
  }

  class Scanner {
    const k: Config
    const matrixPrevious: array<Row>
    var lastTick: nat
    /** The calls to switch_events and to action_exec. */
    var switches: seq<Change>
    var events: seq<Event>
    /** Whether no event was ever kept from action_exec. */
    ghost var always: bool

    /** The switch events replay to the remembered matrix, and the key events are the
        switch events exactly when none was kept back. */
    ghost predicate Valid()
      reads this, matrixPrevious
    {
      && k.cols <= MAX_COLS && matrixPrevious.Length == k.rows
      && Replays(k, switches, matrixPrevious[..])
      && |KeysOf(events)| <= |switches|
      && (always <==> KeysOf(events) == switches)
    }

    /** The key events replay to the remembered matrix. */
    ghost predicate KeysReplay()
      requires k.cols <= MAX_COLS
      reads this, matrixPrevious
    {
      Replays(k, KeysOf(events), matrixPrevious[..])
    }

    constructor (k: Config)
      requires k.cols <= MAX_COLS
      ensures Valid() && this.k == k && always && switches == [] && events == [] && KeysReplay()
      ensures fresh(matrixPrevious) && forall r :: 0 <= r < k.rows ==> matrixPrevious[r] == 0
    {
      this.k := k;
      matrixPrevious := new Row[k.rows](_ => 0);
      lastTick, switches, events, always := 0, [], [], true;
      new;
      forall c: nat | c < MAX_COLS
        ensures !Has(0, c)
      {
        Nothing(c);
      }
    }

    /** generate_tick_event: at most one tick for each value of the 16-bit timer. */
    method GenerateTickEvent(now: nat)
      modifies this`events, this`lastTick
      ensures var due := (now - old(lastTick)) % 0x1_0000 != 0;
        && events == old(events) + (if due then [Tick] else [])
        && lastTick == if due then now else old(lastTick)
      ensures KeysOf(events) == KeysOf(old(events))
    {
      if (now - lastTick) % 0x1_0000 != 0 {
        assert (events + [Tick])[..|events|] == events;
        events := events + [Tick];
        lastTick := now;
      } else {
        assert events + [] == events;
      }
    }

    /** matrix_task, for the matrix that the scan has read. */
    method MatrixTask(canRead: bool, current: seq<Row>, processKeypress: bool, now: nat) returns (changed: bool)
      requires Valid() && |current| == k.rows
      modifies this, matrixPrevious
      ensures Valid()
      ensures var kept := canRead && !processKeypress && TaskChanges(k, old(matrixPrevious[..]), current, k.rows) != [];
        && always == (old(always) && !kept)
        && (old(KeysReplay()) ==> (KeysReplay() <==> !kept))
      ensures changed <==> canRead && old(matrixPrevious[..]) != current
      ensures if canRead then
          && switches == old(switches) + TaskChanges(k, old(matrixPrevious[..]), current, k.rows)
          && forall r :: 0 <= r < k.rows ==>
               matrixPrevious[r] == Remembered(k, old(matrixPrevious[..]), current, r)
        else
          switches == old(switches) && matrixPrevious[..] == old(matrixPrevious[..])
      ensures changed ==>
        events == old(events) + Sent(processKeypress, TaskChanges(k, old(matrixPrevious[..]), current, k.rows))
      ensures var due := !changed && (now - old(lastTick)) % 0x1_0000 != 0;
        && lastTick == (if due then now else old(lastTick))
        && (!changed ==> events == old(events) + if due then [Tick] else [])
      ensures !changed ==> KeysOf(events) == KeysOf(old(events))
    {
      hide Replays, Has, Ghosted, TaskChanges, Remembered, KeysOf, Sent;
      if !canRead {
        GenerateTickEvent(now);
        return false;
      }
      ghost var was := matrixPrevious[..];
      changed := AnyChange(current);
      if !changed {
        NothingToDo(k, was, current, k.rows);
        assert switches + [] == switches;
        GenerateTickEvent(now);
        return;
      }
      ProcessRows(current, processKeypress);
      ghost var changes := TaskChanges(k, was, current, k.rows);
      always := always && (processKeypress || changes == []);
      KeysSent(old(events), processKeypress, changes);
      GoesOn(k, KeysOf(old(events)), old(switches), was, current, matrixPrevious[..], processKeypress);
    }

    /** The rows of matrix_task. */
    method ProcessRows(current: seq<Row>, processKeypress: bool)
      requires k.cols <= MAX_COLS && |current| == k.rows == matrixPrevious.Length
      modifies this`switches, this`events, matrixPrevious
      ensures var changes := TaskChanges(k, old(matrixPrevious[..]), current, k.rows);
        && switches == old(switches) + changes
        && events == old(events) + Sent(processKeypress, changes)
      ensures forall r :: 0 <= r < k.rows ==>
                matrixPrevious[r] == Remembered(k, old(matrixPrevious[..]), current, r)
    {
      hide Has, Ghosted, Changed, Emitted, Skipped;
      ghost var was := matrixPrevious[..];
      Appended(switches, [], []);
      NoneSent(processKeypress);
      Appended(events, [], []);
      for row := 0 to k.rows
        invariant switches == old(switches) + TaskChanges(k, was, current, row)
        invariant events == old(events) + Sent(processKeypress, TaskChanges(k, was, current, row))
        invariant forall r :: 0 <= r < row ==> matrixPrevious[r] == Remembered(k, was, current, r)
        invariant forall r :: row <= r < k.rows ==> matrixPrevious[r] == was[r]
      {
        ghost var a, b := TaskChanges(k, was, current, row), RowDelta(k, was, current, row);
        ProcessRow(row, current, processKeypress, was);
        Appended(old(switches), a, b);
        SentAfter(processKeypress, old(events), a, b);
        assert TaskChanges(k, was, current, row + 1) == a + b;
      }
    }

    method AnyChange(current: seq<Row>) returns (changed: bool)
      requires |current| == k.rows == matrixPrevious.Length
      ensures changed <==> matrixPrevious[..] != current
    {
      changed := false;
      var row := 0;
      while row < k.rows && !changed
        invariant 0 <= row <= k.rows
        invariant changed ==> matrixPrevious[..] != current
        invariant !changed ==> forall r :: 0 <= r < row ==> matrixPrevious[r] == current[r]
      {
        changed := !NoChange(matrixPrevious[row], current[row]);
        assert changed ==> matrixPrevious[..][row] != current[row];
        row := row + 1;
      }
    }

    /** One row of matrix_task. */
    method ProcessRow(row: nat, current: seq<Row>, processKeypress: bool, ghost was: seq<Row>)
      requires k.cols <= MAX_COLS && |current| == |was| == k.rows == matrixPrevious.Length && row < k.rows
      requires matrixPrevious[row] == was[row]
      modifies this`switches, this`events, matrixPrevious
      ensures switches == old(switches) + RowDelta(k, was, current, row)
      ensures events == old(events) + Sent(processKeypress, RowDelta(k, was, current, row))
      ensures matrixPrevious[row] == Remembered(k, was, current, row)
      ensures forall r :: 0 <= r < k.rows && r != row ==> matrixPrevious[r] == old(matrixPrevious[r])
    {
      hide Has, Ghosted, RowChanges, Sent;
      NoneSent(processKeypress);
      Appended(switches, [], []);
      Appended(events, [], []);
      hide NoChange;
      if NoChange(matrixPrevious[row], current[row]) {
        return;
      }
      var ghosted := HasGhostInRow(k, current, row);
      if ghosted {
        return;
      }
      ProcessColumns(row, matrixPrevious[row], current[row], processKeypress);
      matrixPrevious[row] := current[row];
    }

    /** The columns of one row of matrix_task. */
    method ProcessColumns(row: nat, previous: Row, current: Row, processKeypress: bool)
      requires k.cols <= MAX_COLS
      modifies this`switches, this`events
      ensures switches == old(switches) + RowChanges(row, previous, current, k.cols)
      ensures events == old(events) + Sent(processKeypress, RowChanges(row, previous, current, k.cols))
    {
      hide Has, Changed, Sent;
      NoneSent(processKeypress);
      Appended(switches, [], []);
      Appended(events, [], []);
      for col := 0 to k.cols
        invariant switches == old(switches) + RowChanges(row, previous, current, col)
        invariant events == old(events) + Sent(processKeypress, RowChanges(row, previous, current, col))
      {
        if Changed(previous, current, col) {
          var change := Change(row, col, Has(current, col));
          ghost var before := RowChanges(row, previous, current, col);
          SentAfter(processKeypress, old(events), before, [change]);
          OneSent(processKeypress, change);
          Appended(old(switches), before, [change]);
          if processKeypress {
            events := events + [Key(change)];
          } else {
            Appended(events, [], []);
          }
          switches := switches + [change];
        }
      }
    }
  }

  lemma NoneSent(p: bool)
    ensures Sent(p, []) == []
  {
  }

  lemma OneSent(p: bool, c: Change)
    ensures Sent(p, [c]) == if p then [Key(c)] else []
  {
    NoneSent(true);
    assert [c][..0] == [];
    assert Emitted([c]) == Emitted([]) + [Key(c)];
  }

  lemma {:induction false} NothingToDo(k: Config, was: seq<Row>, now: seq<Row>, n: nat)
    requires k.cols <= MAX_COLS && was == now && n <= |now|
    ensures TaskChanges(k, was, now, n) == []
    ensures forall r :: 0 <= r < n ==> Remembered(k, was, now, r) == was[r]
  {
    hide Ghosted;
    if n > 0 {
      NothingToDo(k, was, now, n - 1);
      SameRow(now[n - 1], was[n - 1]);
    }
  }
}
