/** Agreement of presses and releases: the release of a key undoes what its
    press did.  A press delivered with tap count c (0 for a hold or an ordinary
    key) is followed, among the deliveries of its key, by a release that carries
    the same count. */
module TapBalance {
  import opened TapModel
  import opened TapLedger
  import opened TapOrder

  datatype Last = Nothing | Last(rec: Record)

  /** The latest delivery of a key. */
  function LastOf(k: KeyPos, log: Log): (l: Last)
    ensures l.Last? ==> l.rec.event.key == k
  {
    if log == [] then Nothing
    else
      var n := |log| - 1;
      if log[n].rec.event.key == k then Last(log[n].rec) else LastOf(k, log[..n])
  }

  /** The waiting records of one key, oldest first. */
  function Queue(k: KeyPos, buf: seq<Record>): (q: seq<Record>)
    ensures |q| <= |buf|
    ensures forall i :: 0 <= i < |q| ==> q[i].event.key == k && q[i] in buf
  {
    if buf == [] then []
    else (if buf[0].event.key == k then [buf[0]] else []) + Queue(k, buf[1..])
  }

  lemma {:induction false} QueueConcat(k: KeyPos, a: seq<Record>, b: seq<Record>)
    ensures Queue(k, a + b) == Queue(k, a) + Queue(k, b)
  {
    if a == [] {
      assert a + b == b;
    } else {
      assert (a + b)[1..] == a[1..] + b;
      QueueConcat(k, a[1..], b);
    }
  }

  lemma {:induction false} QueueEvents(k: KeyPos, buf: seq<Record>)
    ensures Lane(k, Events(buf)) == Events(Queue(k, buf))
  {
    if buf != [] {
      var rest := buf[1..];
      QueueEvents(k, rest);
      EventsTail(buf);
      LaneConcat(k, [buf[0].event], Events(rest));
      LaneOne(k, buf[0].event);
    }
  }

  /** After a press only the matching release may come. */
  predicate Follows(last: Last, r: Record) {
    last.Last? && last.rec.event.pressed ==> !r.event.pressed && r.tap.count == last.rec.tap.count
  }

  predicate Agreement(log: Log) {
    log != [] ==>
      var n := |log| - 1;
      && Agreement(log[..n])
      && Follows(LastOf(log[n].rec.event.key, log[..n]), log[n].rec)
      && (log[n].why.Synthetic? ==> !log[n].rec.event.pressed)
  }

  lemma LogAppend(k: KeyPos, log: Log, d: Delivery)
    ensures LastOf(k, log + [d]) == if d.rec.event.key == k then Last(d.rec) else LastOf(k, log)
    ensures Agreement(log + [d])
       <==> (Agreement(log) && Follows(LastOf(d.rec.event.key, log), d.rec)
             && (d.why.Synthetic? ==> !d.rec.event.pressed))
  {
    assert (log + [d])[..|log|] == log;
  }

  /** Has the key been pressed, and not released since? */
  predicate Open(k: KeyPos, log: Log) {
    LastOf(k, log).Last? && LastOf(k, log).rec.event.pressed
  }

  function OpenCount(k: KeyPos, log: Log): TapCount
    requires Open(k, log)
  {
    LastOf(k, log).rec.tap.count
  }

  /** For one key, with `q` its waiting records: a tapped press has its release
      waiting, first in line and marked; a repeated tap is the tapping key; and
      no other waiting record is marked. */
  predicate Owed(k: KeyPos, t: Record, log: Log, q: seq<Record>) {
    && (Open(k, log) && OpenCount(k, log) == 1 ==> q != [] && !q[0].event.pressed && q[0].tap.count == 1)
    && (Open(k, log) && OpenCount(k, log) >= 2 ==> Tapped(t) && t.event.key == k)
    && (Tapped(t) && t.event.key == k ==> Open(k, log) && OpenCount(k, log) == t.tap.count)
    && (q != [] && q[0].tap.count != 0 ==> Open(k, log) && OpenCount(k, log) == 1)
    && (forall j :: 1 <= j < |q| ==> q[j].tap.count == 0)
  }

  ghost predicate Balanced(st: State) {
    Agreement(st.log) && forall k :: Owed(k, st.tapping, st.log, Queue(k, st.buf))
  }

  // ----- What alternation says about the next event of a key -----

  ghost predicate Alternating(st: State) {
    forall k :: Alternates(Lane(k, Timeline(st)))
  }

  /** Of an open or undecided key a release comes next, and no key is both. */
  predicate Ready(k: KeyPos, t: Record, log: Log, q: seq<Record>) {
    && (Open(k, log) || (Undecided(t) && t.event.key == k) ==> q != [] ==> !q[0].event.pressed)
    && !(Open(k, log) && Undecided(t) && t.event.key == k)
  }

  /** An open key's press is the last of its delivered events. */
  lemma {:induction false} OpenLane(k: KeyPos, log: Log)
    requires Agreement(log) && Open(k, log)
    ensures var l := Lane(k, Originals(log));
      l != [] && l[|l| - 1].pressed
  {
    hide Lane, Originals;
    var n := |log| - 1;
    var d := log[n];
    assert log == log[..n] + [d];
    OriginalsAppend(log[..n], d);
    if d.why.Synthetic? {
      assert Originals(log) == Originals(log[..n]);
      OpenLane(k, log[..n]);
    } else {
      LaneOfLog(k, log[..n], d);
      if d.rec.event.key != k {
        OpenLane(k, log[..n]);
      }
    }
  }

  lemma AlternationReady(st: State, k: KeyPos)
    requires Agreement(st.log) && Alternates(Lane(k, Timeline(st)))
    ensures Ready(k, st.tapping, st.log, Queue(k, st.buf))
  {
    hide Lane, Alternates, Agreement, Originals, Events, Queue;
    var o, u, b := Originals(st.log), UndecidedPart(st.tapping), Events(st.buf);
    var q := Queue(k, st.buf);
    ThreeLanes(k, o, u, b);
    LaneOne(k, st.tapping.event);
    QueueEvents(k, st.buf);
    EventsHead(q);
    var lo, lu := Lane(k, o), Lane(k, u);
    if Open(k, st.log) {
      OpenLane(k, st.log);
      NextOf(lo, lu, Lane(k, b));
    }
    if Undecided(st.tapping) && st.tapping.event.key == k {
      assert lo + lu + [] == lo + lu;
      NextOf(lo + lu, [], Lane(k, b));
    }
  }

  lemma EventsHead(q: seq<Record>)
    ensures q != [] ==> Events(q) != [] && Events(q)[0] == q[0].event
  {
  }

  lemma ThreeLanes(k: KeyPos, o: seq<Event>, u: seq<Event>, b: seq<Event>)
    ensures Lane(k, o + u + b) == Lane(k, o) + Lane(k, u) + Lane(k, b)
  {
    hide Lane;
    LaneConcat(k, o + u, b);
    LaneConcat(k, o, u);
  }

  lemma NextOf(a: seq<Event>, u: seq<Event>, b: seq<Event>)
    requires Alternates(a + u + b)
    requires a != [] && a[|a| - 1].pressed
    ensures u != [] ==> !u[0].pressed
    ensures u == [] && b != [] ==> !b[0].pressed
  {
    var all := a + u + b;
    assert all[|a| - 1] == a[|a| - 1];
    if u != [] {
      assert all[|a|] == u[0];
    } else if b != [] {
      assert all[|a|] == b[0];
    }
  }

  // ----- One exit -----

  /** The exits that take the event in hand, if it is the next one of its key. */
  lemma DoneOwed(c: Config, st: State, r: Record, v: Verdict, k: KeyPos, q: seq<Record>)
    requires Fits(c, st.tapping, st.buf, r, v) && Clean(r)
    requires v.Pass? || v.ReleaseTap? || v.TapAgain? || v.Restart?
    requires k == r.event.key ==> q != [] && q[0] == r
    requires Agreement(st.log)
    requires Owed(k, st.tapping, st.log, q) && Ready(k, st.tapping, st.log, q)
    ensures var st' := Apply(c, st, r, v);
      && Owed(k, st'.tapping, st'.log, if k == r.event.key then q[1..] else q)
      && (k == r.event.key ==> Agreement(st'.log))
  {
    hide Agreement, LastOf, Elapsed;
    var st' := Apply(c, st, r, v);
    if st'.log != st.log {
      var d := st'.log[|st.log|];
      assert st'.log == st.log + [d];
      LogAppend(k, st.log, d);
    }
  }

  /** The exits that settle the undecided key.  A tap marks its release, which
      must be the next event of the key. */
  lemma SettleOwed(c: Config, st: State, r: Record, v: Verdict, k: KeyPos, q: seq<Record>)
    requires Fits(c, st.tapping, st.buf, r, v)
    requires v.SettleTap? || v.SettleHold?
    requires v.SettleTap? && k == r.event.key ==> q != [] && q[0] == r
    requires Agreement(st.log)
    requires Owed(k, st.tapping, st.log, q) && Ready(k, st.tapping, st.log, q)
    ensures var st' := Apply(c, st, r, v);
      && Owed(k, st'.tapping, st'.log, if v.SettleTap? && k == r.event.key then q[0 := Patch(st.tapping, r, v)] else q)
      && (k == st.tapping.event.key ==> Agreement(st'.log))
  {
    hide Agreement, LastOf, Elapsed;
    var st' := Apply(c, st, r, v);
    var d := st'.log[|st.log|];
    assert st'.log == st.log + [d];
    LogAppend(k, st.log, d);
  }

  /** The exits that leave the event waiting and deliver nothing. */
  lemma WaitOwed(c: Config, st: State, r: Record, v: Verdict, k: KeyPos, q: seq<Record>)
    requires Fits(c, st.tapping, st.buf, r, v)
    requires v.Wait? || v.Expire? || v.Ignore?
    requires Owed(k, st.tapping, st.log, q)
    ensures var st' := Apply(c, st, r, v);
      st'.log == st.log && Owed(k, st'.tapping, st'.log, q)
  {
  }

  // ----- A new tapping key -----

  /** The state just before the buffer is searched for the new key's release. */
  function Taken(st: State, r: Record, v: Verdict): State {
    var t := st.tapping;
    var log' := if v.Replace? && t.tap.count > 1 then st.log + [Delivery(SyntheticRelease(t, r.event), Synthetic)]
                else st.log;
    st.(tapping := r, log := log')
  }

  lemma TakenOwed(c: Config, st: State, r: Record, v: Verdict, k: KeyPos, q: seq<Record>)
    requires Fits(c, st.tapping, st.buf, r, v) && Clean(r)
    requires v.Begin? || v.Replace?
    requires k == r.event.key ==> q != [] && q[0] == r
    requires Agreement(st.log)
    requires Owed(k, st.tapping, st.log, q) && Ready(k, st.tapping, st.log, q)
    ensures var st' := Taken(st, r, v);
      var q' := if k == r.event.key then q[1..] else q;
      && Owed(k, st'.tapping, st'.log, q')
      && (k == r.event.key ==> !Open(k, st'.log))
      && (k == st.tapping.event.key ==> Agreement(st'.log))
  {
    var d := Delivery(SyntheticRelease(st.tapping, r.event), Synthetic);
    LogAppend(k, st.log, d);
  }

  /** Waiting events are in the order of their times, and none has waited for a
      whole period of the timer. */
  predicate Sorted(buf: seq<Record>) {
    forall i, j :: 0 <= i < j < |buf| ==>
      buf[i].event.time <= buf[j].event.time < buf[i].event.time + TIMER_PERIOD
  }

  /** The release that the search finds is the next event of the key. */
  lemma FoundIsNext(c: Config, t: Record, rest: seq<Record>, i: nat)
    requires Sorted([t] + rest) && Undecided(t)
    requires forall j :: 0 <= j < |rest| ==> IsEvent(rest[j].event)
    requires Queue(t.event.key, rest) != [] ==> !Queue(t.event.key, rest)[0].event.pressed
    requires i == FindTapEnd(c, t, rest) < |rest|
    ensures Queue(t.event.key, rest[..i]) == []
  {
    var k := t.event.key;
    assert rest == rest[..i] + rest[i..];
    QueueConcat(k, rest[..i], rest[i..]);
    var all := [t] + rest;
    forall j | 0 <= j < i
      ensures rest[j].event.key == k ==> rest[j].event.pressed
    {
      assert all[0] == t && all[1 + j] == rest[j] && all[1 + i] == rest[i];
    }
  }

  lemma QueueCons(k: KeyPos, r: Record, b: seq<Record>)
    ensures Queue(k, [r] + b) == if k == r.event.key then [r] + Queue(k, b) else Queue(k, b)
  {
    assert ([r] + b)[1..] == b;
  }

  lemma MarkedQueue(k: KeyPos, buf: seq<Record>, i: nat, w: Record)
    requires i < |buf| && w.event.key == buf[i].event.key
    requires Queue(w.event.key, buf[..i]) == []
    ensures var q := Queue(k, buf);
      if k == w.event.key then q != [] && q[0] == buf[i] && Queue(k, buf[i := w]) == q[0 := w]
      else Queue(k, buf[i := w]) == q
  {
    hide Queue;
    var a, b := buf[..i], buf[i + 1..];
    assert buf == a + ([buf[i]] + b) && buf[i := w] == a + ([w] + b);
    QueueConcat(k, a, [buf[i]] + b);
    QueueConcat(k, a, [w] + b);
    QueueCons(k, buf[i], b);
    QueueCons(k, w, b);
  }

  function Marked(w: Record): Record {
    w.(tap := w.tap.(count := 1))
  }

  /** What the search does when the new tapping key's own record heads the buffer. */
  lemma ScanShape(c: Config, st: State, rest: seq<Record>)
    requires Undecided(st.tapping) && st.buf == [st.tapping] + rest
    ensures var st' := Scan(c, st);
      var i := FindTapEnd(c, st.tapping, rest);
      if i == |rest| then st' == st
      else
        && st'.tapping == Marked(st.tapping)
        && |st'.buf| == |st.buf| && st'.buf[1..] == rest[i := Marked(rest[i])]
        && st'.log == st.log + [Delivery(Marked(st.tapping), Settled)]
  {
    var i := FindTapEnd(c, st.tapping, rest);
    assert st.buf[1..] == rest;
    assert FindTapEnd(c, st.tapping, st.buf) == 1 + i;
    if i < |rest| {
      assert st.buf[1 + i := Marked(rest[i])][1..] == rest[i := Marked(rest[i])];
    }
  }

  /** The search keeps the balance: `rest` waits behind the new tapping key,
      whose own record still stands at the head of the buffer. */
  lemma ScanOwed(c: Config, st: State, rest: seq<Record>, k: KeyPos)
    requires Undecided(st.tapping) && st.buf == [st.tapping] + rest
    requires Sorted(st.buf) && forall j :: 0 <= j < |rest| ==> IsEvent(rest[j].event)
    requires Agreement(st.log) && !Open(st.tapping.event.key, st.log)
    requires Owed(k, st.tapping, st.log, Queue(k, rest))
    requires var q := Queue(st.tapping.event.key, rest); q != [] ==> !q[0].event.pressed
    ensures var st' := Scan(c, st);
      && |st'.buf| == |st.buf|
      && Owed(k, st'.tapping, st'.log, Queue(k, st'.buf[1..]))
      && Agreement(st'.log)
  {
    hide Sorted, Agreement, Queue, FindTapEnd, LastOf, Scan;
    ScanShape(c, st, rest);
    var t := st.tapping;
    var i := FindTapEnd(c, t, rest);
    assert st.buf[1..] == rest;
    if i < |rest| {
      FoundIsNext(c, t, rest, i);
      MarkedQueue(k, rest, i, Marked(rest[i]));
      var st' := Scan(c, st);
      var d := Delivery(Marked(t), Settled);
      LogAppend(k, st.log, d);
      LogAppend(t.event.key, st.log, d);
      var q, q' := Queue(k, rest), Queue(k, rest[i := Marked(rest[i])]);
      MarkedOwed(k, t, Marked(t), st.log, st'.log, q, q', Marked(rest[i]));
    }
  }

  /** A key settled as a tap while its marked release waits. */
  lemma MarkedOwed(k: KeyPos, t: Record, t': Record, log: Log, log': Log, q: seq<Record>, q': seq<Record>, w: Record)
    requires Undecided(t) && Tapped(t') && t'.event == t.event && t'.tap.count == 1
    requires LastOf(k, log') == if k == t.event.key then Last(t') else LastOf(k, log)
    requires if k == t.event.key then q != [] && q' == q[0 := w] else q' == q
    requires !w.event.pressed && w.tap.count == 1
    requires Owed(k, t, log, q)
    ensures Owed(k, t', log', q')
  {
  }

  // ----- Retrying a waiting event -----

  ghost predicate Sound(st: State) {
    CleanBuffer(st.buf) && Sorted(st.buf) && Alternating(st) && Balanced(st)
  }

  lemma RetryAlternates(c: Config, env: Env, st: State)
    requires CleanBuffer(st.buf) && st.buf != [] && Alternating(st)
    ensures CleanBuffer(Retry(c, env, st).buf) && Alternating(Retry(c, env, st))
  {
    hide Retry, Alternates, Lane, Timeline, CleanBuffer;
    var st' := Retry(c, env, st);
    forall k
      ensures Alternates(Lane(k, Timeline(st')))
    {
      RetryLane(c, env, st, k);
    }
    RetryLane(c, env, st, st.tapping.event.key);
  }

  lemma HeadQueue(buf: seq<Record>, r: Record, k: KeyPos)
    requires buf != [] && r.event.key == buf[0].event.key
    ensures if k == r.event.key
            then Queue(k, buf) == [buf[0]] + Queue(k, buf[1..]) && Queue(k, buf[0 := r]) == Queue(k, buf)[0 := r]
            else Queue(k, buf[1..]) == Queue(k, buf) == Queue(k, buf[0 := r])
  {
    assert buf[0 := r][1..] == buf[1..];
  }

  /** What is known about a key when the head of the buffer is retried. */
  ghost predicate AtHead(c: Config, st: State, r: Record, v: Verdict, k: KeyPos) {
    var q := Queue(k, st.buf);
    && st.buf != [] && r == st.buf[0] && Fits(c, st.tapping, st.buf, r, v) && Clean(r)
    && Agreement(st.log)
    && Owed(k, st.tapping, st.log, q) && Ready(k, st.tapping, st.log, q)
    && (k == r.event.key ==> q != [] && q[0] == r)
  }

  lemma RetryDone(c: Config, st: State, r: Record, v: Verdict, k: KeyPos)
    requires AtHead(c, st, r, v, k) && AtHead(c, st, r, v, r.event.key) && AtHead(c, st, r, v, st.tapping.event.key)
    requires Done(v) && !v.Ignore? && !v.Begin? && !v.Replace?
    ensures var st' := Apply(c, st, r, v);
      && st'.buf == st.buf && Agreement(st'.log)
      && Owed(k, st'.tapping, st'.log, Queue(k, st'.buf[1..]))
  {
    hide Fits, Owed, Ready, Agreement, Queue, LastOf;
    HeadQueue(st.buf, r, k);
    DoneOwed(c, st, r, v, k, Queue(k, st.buf));
    DoneOwed(c, st, r, v, r.event.key, Queue(r.event.key, st.buf));
  }

  lemma RetryWaits(c: Config, st: State, r: Record, v: Verdict, k: KeyPos)
    requires AtHead(c, st, r, v, k) && AtHead(c, st, r, v, r.event.key) && AtHead(c, st, r, v, st.tapping.event.key)
    requires !Done(v)
    ensures var st' := Apply(c, st, r, v);
      && st'.buf == st.buf && Agreement(st'.log)
      && Owed(k, st'.tapping, st'.log, Queue(k, st'.buf[0 := Patch(st.tapping, r, v)]))
  {
    assert v.SettleTap? ==> r.event.key == st.tapping.event.key;
    hide Fits, Owed, Ready, Agreement, LastOf, Queue;
    HeadQueue(st.buf, Patch(st.tapping, r, v), k);
    if v.SettleTap? || v.SettleHold? {
      SettleOwed(c, st, r, v, k, Queue(k, st.buf));
      SettleOwed(c, st, r, v, st.tapping.event.key, Queue(st.tapping.event.key, st.buf));
    } else {
      WaitOwed(c, st, r, v, k, Queue(k, st.buf));
    }
    if !v.SettleTap? {
      assert st.buf[0 := r] == st.buf;
    }
  }

  /** Before the search: the new tapping key's own record no longer counts as waiting. */
  lemma HeadTaken(c: Config, st: State, r: Record, v: Verdict, k: KeyPos)
    requires AtHead(c, st, r, v, k) && AtHead(c, st, r, v, r.event.key) && AtHead(c, st, r, v, st.tapping.event.key)
    requires v.Begin? || v.Replace?
    ensures var st1 := Taken(st, r, v);
      && Agreement(st1.log) && !Open(r.event.key, st1.log)
      && Owed(k, st1.tapping, st1.log, Queue(k, st.buf[1..]))
  {
    hide Fits, Owed, Ready, Agreement, Queue, LastOf, Taken;
    HeadQueue(st.buf, r, k);
    TakenOwed(c, st, r, v, k, Queue(k, st.buf));
    TakenOwed(c, st, r, v, r.event.key, Queue(r.event.key, st.buf));
    TakenOwed(c, st, r, v, st.tapping.event.key, Queue(st.tapping.event.key, st.buf));
  }

  lemma TakenHead(c: Config, st: State, r: Record, v: Verdict)
    requires AtHead(c, st, r, v, r.event.key) && (v.Begin? || v.Replace?) && CleanBuffer(st.buf)
    ensures var st1, rest := Taken(st, r, v), st.buf[1..];
      && Apply(c, st, r, v) == Scan(c, st1)
      && Undecided(r) && st1.tapping == r && st1.buf == st.buf == [r] + rest
      && forall j :: 0 <= j < |rest| ==> IsEvent(rest[j].event)
  {
    hide Owed, Ready, Agreement, Queue, Scan;
  }

  lemma RetryTaken(c: Config, st: State, r: Record, v: Verdict, k: KeyPos)
    requires AtHead(c, st, r, v, k) && AtHead(c, st, r, v, r.event.key) && AtHead(c, st, r, v, st.tapping.event.key)
    requires v.Begin? || v.Replace?
    requires Sorted(st.buf) && CleanBuffer(st.buf)
    requires var q := Queue(r.event.key, st.buf[1..]); q != [] ==> !q[0].event.pressed
    ensures var st' := Apply(c, st, r, v);
      && |st'.buf| == |st.buf| && Agreement(st'.log)
      && Owed(k, st'.tapping, st'.log, Queue(k, st'.buf[1..]))
  {
    hide *;
    TakenHead(c, st, r, v);
    HeadTaken(c, st, r, v, k);
    ScanOwed(c, Taken(st, r, v), st.buf[1..], k);
  }

  lemma TakenPressed(c: Config, st: State, r: Record, v: Verdict)
    requires AtHead(c, st, r, v, r.event.key) && (v.Begin? || v.Replace?)
    ensures r.event.pressed
  {
  }

  lemma RetryOwed(c: Config, env: Env, st: State, k: KeyPos)
    requires Sound(st) && st.buf != []
    ensures var st' := Retry(c, env, st);
      Owed(k, st'.tapping, st'.log, Queue(k, st'.buf)) && Agreement(st'.log)
  {
    var r := st.buf[0];
    var v := HeadVerdict(c, env, st);
    HeadsReady(c, env, st, k);
    hide AtHead, HeadVerdict, Apply, Owed, Agreement, Queue, Sorted, Sound, Patch, CleanBuffer;
    if v.Begin? || v.Replace? {
      SoundClean(st);
      TakenPressed(c, st, r, v);
      NextPair(st, r);
      RetryTaken(c, st, r, v, k);
    } else if Done(v) {
      RetryDone(c, st, r, v, k);
    } else {
      RetryWaits(c, st, r, v, k);
    }
  }

  lemma HeadReady(c: Config, env: Env, st: State, k: KeyPos)
    requires Sound(st) && st.buf != []
    ensures AtHead(c, st, st.buf[0], HeadVerdict(c, env, st), k)
  {
    var r := st.buf[0];
    DecideFits(c, env, st.tapping, st.buf, st.log, r);
    hide Decide, Fits, Owed, Ready, Agreement, Queue;
    AlternationReady(st, k);
    HeadQueue(st.buf, r, k);
  }

  lemma HeadsReady(c: Config, env: Env, st: State, k: KeyPos)
    requires Sound(st) && st.buf != []
    ensures var r, v := st.buf[0], HeadVerdict(c, env, st);
      && AtHead(c, st, r, v, k) && AtHead(c, st, r, v, r.event.key) && AtHead(c, st, r, v, st.tapping.event.key)
      && !v.Ignore?
  {
    hide Sound, HeadVerdict;
    HeadReady(c, env, st, k);
    HeadReady(c, env, st, st.buf[0].event.key);
    HeadReady(c, env, st, st.tapping.event.key);
    assert CleanBuffer(st.buf) by {
      SoundClean(st);
    }
  }

  lemma SoundClean(st: State)
    requires Sound(st)
    ensures CleanBuffer(st.buf) && Sorted(st.buf)
  {
  }

  /** Behind a waiting press, the next event of its key is a release. */
  lemma NextPair(st: State, r: Record)
    requires Sound(st) && st.buf != [] && r == st.buf[0] && r.event.pressed
    ensures var q := Queue(r.event.key, st.buf[1..]); q != [] ==> !q[0].event.pressed
  {
    hide Alternates, Lane, Queue, Originals, Agreement;
    var k := r.event.key;
    var f, q := Lane(k, Front(st)), Queue(k, st.buf[1..]);
    LaneConcat(k, Front(st), Events(st.buf));
    QueueEvents(k, st.buf);
    HeadQueue(st.buf, r, k);
    EventsTail(Queue(k, st.buf));
    assert Queue(k, st.buf)[1..] == q;
    assert Lane(k, Timeline(st)) == f + ([r.event] + Events(q));
    assert Alternates(Lane(k, Timeline(st)));
    assert f + ([r.event] + Events(q)) == (f + [r.event]) + [] + Events(q);
    NextOf(f + [r.event], [], Events(q));
    EventsHead(q);
  }

  lemma SortedEvents(a: seq<Record>, b: seq<Record>)
    requires Sorted(a)
    ensures Events(b) == Events(a) ==> Sorted(b)
    ensures a != [] && Events(b) == Events(a)[1..] ==> Sorted(b)
  {
    if Events(b) == Events(a) {
      forall i | 0 <= i < |b|
        ensures b[i].event == a[i].event
      {
        assert Events(b)[i] == Events(a)[i];
      }
    }
    if a != [] && Events(b) == Events(a)[1..] {
      forall i | 0 <= i < |b|
        ensures b[i].event == a[i + 1].event
      {
        assert Events(b)[i] == Events(a)[i + 1];
      }
    }
  }

  lemma RetrySorted(c: Config, env: Env, st: State)
    requires CleanBuffer(st.buf) && st.buf != [] && Sorted(st.buf)
    ensures Sorted(Retry(c, env, st).buf)
  {
    hide Fits, Decide, Apply, Sorted;
    var r := st.buf[0];
    var v := HeadVerdict(c, env, st);
    DecideFits(c, env, st.tapping, st.buf, st.log, r);
    ApplyFront(c, st, r, v);
    PatchKeepsEvent(st.tapping, r, v);
    var st1 := Apply(c, st, r, v);
    EventsTail(st1.buf);
    assert Events(st1.buf)[0] == r.event;
    EventsPatched(st1.buf, Patch(st.tapping, r, v));
    SortedEvents(st.buf, Retry(c, env, st).buf);
  }

  lemma RetrySound(c: Config, env: Env, st: State)
    requires Sound(st) && st.buf != []
    ensures Sound(Retry(c, env, st))
  {
    RetryAlternates(c, env, st);
    RetrySorted(c, env, st);
    hide Retry, Owed, Agreement, Queue;
    var st' := Retry(c, env, st);
    forall k
      ensures Owed(k, st'.tapping, st'.log, Queue(k, st'.buf))
    {
      RetryOwed(c, env, st, k);
    }
    RetryOwed(c, env, st, st.tapping.event.key);
  }

  lemma {:induction false} DrainSound(c: Config, env: Env, st: State)
    requires Sound(st)
    ensures Sound(Drain(c, env, st))
    decreases |st.buf|
  {
    hide Sound;
    if st.buf != [] {
      RetrySound(c, env, st);
      if Done(HeadVerdict(c, env, st)) {
        DrainSound(c, env, Retry(c, env, st));
      }
    }
  }

  // ----- Accepting a new event -----

  /** No event may wait for a whole period of the timer, and time goes on. */
  predicate Timely(st: State, e: Event) {
    IsEvent(e) ==>
      forall i :: 0 <= i < |st.buf| ==> st.buf[i].event.time <= e.time < st.buf[i].event.time + TIMER_PERIOD
  }

  /** The release that makes the undecided key a tap must be the next event of
      that key: no earlier event of it may wait. */
  predicate AnswersPress(c: Config, st: State, e: Event) {
    Undecided(st.tapping) && IsEvent(e) && SameKey(st.tapping, e) && !e.pressed && WithinTerm(c, e, st.tapping)
    ==> Queue(e.key, st.buf) == []
  }

  /** The state in which the offered event already stands at the end of the buffer. */
  function Joined(st: State, r: Record): State {
    st.(buf := st.buf + [r], input := st.input + [r.event])
  }

  lemma QueueSnoc(k: KeyPos, buf: seq<Record>, r: Record)
    ensures Queue(k, buf + [r]) == if k == r.event.key then Queue(k, buf) + [r] else Queue(k, buf)
  {
    QueueConcat(k, buf, [r]);
    assert [r][1..] == [];
    assert Queue(k, [r]) == if k == r.event.key then [r] else [];
  }

  lemma JoinedReady(st: State, r: Record, k: KeyPos)
    requires InOrder(st) && Agreement(st.log) && Clean(r) && r.tap.count == 0
    requires Owed(k, st.tapping, st.log, Queue(k, st.buf))
    requires Alternates(Lane(k, st.input + [r.event]))
    ensures var q := Queue(k, st.buf + [r]);
      && q == (if k == r.event.key then Queue(k, st.buf) + [r] else Queue(k, st.buf))
      && Owed(k, st.tapping, st.log, q) && Ready(k, st.tapping, st.log, q)
  {
    var st' := Joined(st, r);
    hide Alternates, Lane, Agreement, Queue, LastOf, Originals, Front;
    QueueSnoc(k, st.buf, r);
    assert Timeline(st') == Timeline(st) + [r.event] by {
      assert Events(st'.buf) == Events(st.buf) + [r.event];
      FrontKept(st.(buf := st'.buf), st'.buf);
      FrontKept(st, st'.buf);
    }
    LaneConcat(k, Timeline(st), [r.event]);
    LaneConcat(k, st.input, [r.event]);
    assert Lane(k, Timeline(st)) == Lane(k, st.input);
    AlternationReady(st', k);
  }

  ghost predicate InputAlternates(st: State, e: Event) {
    forall k :: Alternates(Lane(k, Offered(st, e).input))
  }

  lemma InputAlternating(st: State, e: Event)
    requires InOrder(st) && InputAlternates(st, e)
    ensures Alternating(st)
  {
    forall k
      ensures Alternates(Lane(k, Timeline(st)))
    {
      assert Lane(k, Timeline(st)) == Lane(k, st.input);
      var s := Offered(st, e).input;
      assert Alternates(Lane(k, s));
      LaneConcat(k, st.input, [e]);
      AlternatesPrefix(Lane(k, st.input), Lane(k, s));
    }
  }

  lemma AlternatesPrefix(a: seq<Event>, b: seq<Event>)
    requires Alternates(b) && a <= b
    ensures Alternates(a)
  {
  }

  /** What is known about a key when a new event is processed, with `q` its
      waiting records followed by the new one. */
  ghost predicate AtEnd(c: Config, st: State, r: Record, v: Verdict, k: KeyPos, q: seq<Record>) {
    && Fits(c, st.tapping, st.buf, r, v) && Clean(r) && Agreement(st.log)
    && q == (if k == r.event.key then Queue(k, st.buf) + [r] else Queue(k, st.buf))
    && Owed(k, st.tapping, st.log, q) && Ready(k, st.tapping, st.log, q)
  }

  lemma EndReady(c: Config, env: Env, st: State, e: Event, k: KeyPos)
    requires InOrder(st) && Balanced(st) && InputAlternates(st, e) && IsEvent(e)
    ensures var r := Record(e, NO_TAP);
      var v := Decide(c, env, st.tapping, st.buf, st.log, r);
      AtEnd(c, st, r, v, k, Queue(k, st.buf + [r]))
  {
    var r := Record(e, NO_TAP);
    DecideFits(c, env, st.tapping, st.buf, st.log, r);
    assert Alternates(Lane(k, Offered(st, e).input));
    hide Fits, Decide, Alternates, Lane, Agreement, Queue;
    JoinedReady(st, r, k);
  }

  /** A processed event is the next one of its key. */
  lemma EndDone(c: Config, st: State, r: Record, v: Verdict, k: KeyPos, q: seq<Record>, q0: seq<Record>)
    requires AtEnd(c, st, r, v, k, q) && AtEnd(c, st, r, v, r.event.key, q0)
    requires Queue(r.event.key, st.buf) == []
    requires Done(v) && !v.Ignore? && !v.Begin? && !v.Replace?
    ensures var st' := Apply(c, st, r, v);
      && st'.buf == st.buf && Agreement(st'.log)
      && Owed(k, st'.tapping, st'.log, Queue(k, st'.buf))
  {
    hide Fits, Owed, Ready, Agreement, Queue, LastOf;
    DoneOwed(c, st, r, v, k, q);
    DoneOwed(c, st, r, v, r.event.key, q0);
    if k == r.event.key {
      assert q[1..] == Queue(k, st.buf);
    }
  }

  /** A new tapping key finds no release of its own waiting. */
  lemma EndTaken(c: Config, st: State, r: Record, v: Verdict, k: KeyPos, q: seq<Record>, q1: seq<Record>)
    requires AtEnd(c, st, r, v, k, q) && AtEnd(c, st, r, v, st.tapping.event.key, q1)
    requires Queue(r.event.key, st.buf) == []
    requires v.Begin? || v.Replace?
    ensures var st' := Taken(st, r, v);
      Agreement(st'.log) && Owed(k, st'.tapping, st'.log, Queue(k, st.buf))
  {
    hide Fits, Ready, Agreement, LastOf, Queue;
    TakenOwed(c, st, r, v, k, q);
    TakenOwed(c, st, r, v, st.tapping.event.key, q1);
    if k == r.event.key {
      assert q[1..] == Queue(k, st.buf);
    }
  }

  lemma TakenShape(c: Config, st: State, r: Record, v: Verdict)
    requires (v.Begin? || v.Replace?) && Queue(r.event.key, st.buf) == []
    ensures Apply(c, st, r, v) == Taken(st, r, v)
    ensures Taken(st, r, v).buf == st.buf
  {
    NothingFound(c, r, st.buf);
  }

  lemma {:induction false} NothingFound(c: Config, t: Record, buf: seq<Record>)
    requires Queue(t.event.key, buf) == []
    ensures FindTapEnd(c, t, buf) == |buf|
  {
    if buf != [] {
      NothingFound(c, t, buf[1..]);
    }
  }

  lemma EndWaits(c: Config, st: State, r: Record, v: Verdict, k: KeyPos, q: seq<Record>, q1: seq<Record>)
    requires AtEnd(c, st, r, v, k, q) && AtEnd(c, st, r, v, st.tapping.event.key, q1)
    requires !Done(v) && (v.SettleTap? ==> Queue(r.event.key, st.buf) == [])
    ensures var st' := Apply(c, st, r, v);
      && st'.buf == st.buf && Agreement(st'.log)
      && Owed(k, st'.tapping, st'.log, Queue(k, st'.buf + [Patch(st.tapping, r, v)]))
  {
    var r' := Patch(st.tapping, r, v);
    PatchKeepsEvent(st.tapping, r, v);
    QueueSnoc(k, st.buf, r');
    assert v.SettleTap? ==> r.event.key == st.tapping.event.key;
    hide Fits, Owed, Ready, Agreement, LastOf, Queue;
    if v.SettleTap? || v.SettleHold? {
      SettleOwed(c, st, r, v, k, q);
      SettleOwed(c, st, r, v, st.tapping.event.key, q1);
    } else {
      WaitOwed(c, st, r, v, k, q);
    }
  }

  /** With the event in its place, every key stays balanced. */
  lemma AcceptOwed(c: Config, env: Env, st: State, e: Event, k: KeyPos)
    requires CleanBuffer(st.buf) && InOrder(st) && Balanced(st) && InputAlternates(st, e)
    requires OfferOk(c, st, e) && AnswersPress(c, st, e) && !Overflows(c, env, st, e)
    ensures var st' := Accept(c, env, st, e);
      Owed(k, st'.tapping, st'.log, Queue(k, st'.buf)) && Agreement(st'.log)
  {
    var r := Record(e, NO_TAP);
    var v := Decide(c, env, st.tapping, st.buf, st.log, r);
    if IsEvent(e) {
      AcceptEventOwed(c, env, st, e, k);
    } else {
      InputAlternating(st, e);
      DecideFits(c, env, st.tapping, st.buf, st.log, r);
      var j := st.tapping.event.key;
      assert Alternates(Lane(k, Timeline(st))) && Alternates(Lane(j, Timeline(st)));
      assert v.Ignore? || v.SettleHold? || v.Expire?;
      hide Fits, Decide, Owed, Ready, Agreement, Queue, Alternates, Lane;
      AlternationReady(st, k);
      AlternationReady(st, j);
      if v.SettleHold? {
        SettleOwed(c, st, r, v, k, Queue(k, st.buf));
        SettleOwed(c, st, r, v, j, Queue(j, st.buf));
      } else {
        WaitOwed(c, st, r, v, k, Queue(k, st.buf));
      }
    }
  }

  /** A processed event finds no earlier event of its key waiting. */
  lemma ProcessedIsNext(c: Config, env: Env, st: State, e: Event)
    requires IsEvent(e) && InOrder(st) && InputAlternates(st, e) && OfferOk(c, st, e)
    requires Done(Decide(c, env, st.tapping, st.buf, st.log, Record(e, NO_TAP)))
    ensures Queue(e.key, st.buf) == []
  {
    AcceptFacts(c, env, st, e);
    assert Alternates(Lane(e.key, Offered(st, e).input));
    assert Lane(e.key, Timeline(st)) == Lane(e.key, st.input);
    hide Decide, Alternates, Lane, Queue;
    QueueEvents(e.key, st.buf);
    if Lane(e.key, Events(st.buf)) != [] {
      LastWaiting(st, e);
    }
  }

  lemma AcceptEventOwed(c: Config, env: Env, st: State, e: Event, k: KeyPos)
    requires IsEvent(e) && InOrder(st) && Balanced(st) && InputAlternates(st, e)
    requires OfferOk(c, st, e) && AnswersPress(c, st, e) && !Overflows(c, env, st, e) && CleanBuffer(st.buf)
    ensures var st' := Accept(c, env, st, e);
      Owed(k, st'.tapping, st'.log, Queue(k, st'.buf)) && Agreement(st'.log)
  {
    var r := Record(e, NO_TAP);
    var v := Decide(c, env, st.tapping, st.buf, st.log, r);
    DecideFits(c, env, st.tapping, st.buf, st.log, r);
    assert v.SettleTap? ==> Queue(e.key, st.buf) == [];
    assert !v.Ignore?;
    var j := st.tapping.event.key;
    hide Fits, Decide, Owed, Agreement, Queue, AtEnd, OfferOk, InOrder, Balanced, Apply;
    EndReady(c, env, st, e, k);
    EndReady(c, env, st, e, j);
    EndReady(c, env, st, e, e.key);
    var q, q0, q1 := Queue(k, st.buf + [r]), Queue(e.key, st.buf + [r]), Queue(j, st.buf + [r]);
    OfferedOwed(c, st, e, r, v, k);
    PatchKeepsEvent(st.tapping, r, v);
    if Done(v) {
      ProcessedIsNext(c, env, st, e);
      if v.Begin? || v.Replace? {
        EndTaken(c, st, r, v, k, q, q1);
        TakenShape(c, st, r, v);
      } else {
        EndDone(c, st, r, v, k, q, q0);
      }
    } else {
      EndWaits(c, st, r, v, k, q, q1);
    }
  }

  /** Recording an event as offered changes nothing else. */
  lemma OfferedOwed(c: Config, st: State, e: Event, r: Record, v: Verdict, k: KeyPos)
    ensures var a, b := Apply(c, Offered(st, e), r, v), Apply(c, st, r, v);
      a.tapping == b.tapping && a.buf == b.buf && a.log == b.log
  {
  }

  /** Accepting an event keeps the invariant of the ring if and only if a release that
      settles its key as a tap is the next event of that key. */
  lemma AcceptBalance(c: Config, env: Env, st: State, e: Event)
    requires CleanBuffer(st.buf) && InOrder(st) && Balanced(st) && InputAlternates(st, e)
    requires OfferOk(c, st, e) && !Overflows(c, env, st, e)
    ensures Balanced(Accept(c, env, st, e)) <==> AnswersPress(c, st, e)
  {
    var st' := Accept(c, env, st, e);
    if AnswersPress(c, st, e) {
      hide Accept, Decide, Owed, Agreement, Queue, InOrder, InputAlternates, OfferOk, Overflows, AnswersPress;
      forall k
        ensures Owed(k, st'.tapping, st'.log, Queue(k, st'.buf))
      {
        AcceptOwed(c, env, st, e, k);
      }
      AcceptOwed(c, env, st, e, e.key);
    } else {
      UnansweredPress(c, env, st, e);
    }
  }

  /** Otherwise the older release keeps its place, unmarked. */
  lemma UnansweredPress(c: Config, env: Env, st: State, e: Event)
    requires CleanBuffer(st.buf) && InOrder(st) && Balanced(st) && InputAlternates(st, e)
    requires !Overflows(c, env, st, e) && !AnswersPress(c, st, e)
    ensures !Balanced(Accept(c, env, st, e))
  {
    var k, t := e.key, st.tapping;
    var st' := Accept(c, env, st, e);
    SettledTapShape(c, env, st, e);
    InputAlternating(st, e);
    assert Alternates(Lane(k, Timeline(st)));
    var q, q' := Queue(k, st.buf), Queue(k, st'.buf);
    assert Owed(k, t, st.log, q) && q != [];
    hide Alternates, Lane, Queue, Decide, Timeline, Agreement, Accept, CleanBuffer, InOrder, InputAlternates, LastOf;
    AlternationReady(st, k);
    LogAppend(k, st.log, Delivery(Marked(t), Settled));
    QueueConcat(k, st.buf, [Record(e, Marked(t).tap)]);
    assert q'[0] == q[0];
    assert !Owed(k, st'.tapping, st'.log, q');
  }

  lemma SettledTapShape(c: Config, env: Env, st: State, e: Event)
    requires CleanBuffer(st.buf) && !Overflows(c, env, st, e)
    requires Undecided(st.tapping) && IsEvent(e) && SameKey(st.tapping, e) && !e.pressed && WithinTerm(c, e, st.tapping)
    ensures var st' := Accept(c, env, st, e);
      && st'.tapping == Marked(st.tapping)
      && st'.log == st.log + [Delivery(Marked(st.tapping), Settled)]
      && st'.buf == st.buf + [Record(e, Marked(st.tapping).tap)]
  {
    assert Decide(c, env, st.tapping, st.buf, st.log, Record(e, NO_TAP)) == SettleTap;
  }

  lemma AcceptSorted(c: Config, env: Env, st: State, e: Event)
    requires CleanBuffer(st.buf) && Sorted(st.buf) && Timely(st, e) && !Overflows(c, env, st, e)
    ensures Sorted(Accept(c, env, st, e).buf)
  {
    var r := Record(e, NO_TAP);
    var v := Decide(c, env, st.tapping, st.buf, st.log, r);
    DecideFits(c, env, st.tapping, st.buf, st.log, r);
    hide Fits, Decide, Apply;
    ApplyFront(c, Offered(st, e), r, v);
    PatchKeepsEvent(st.tapping, r, v);
    var st1 := Apply(c, Offered(st, e), r, v);
    SortedEvents(st.buf, st1.buf);
    forall i | 0 <= i < |st1.buf|
      ensures st1.buf[i].event == st.buf[i].event
    {
      assert Events(st1.buf)[i] == Events(st.buf)[i];
    }
  }

  /** The conditions on one offer. */
  ghost predicate Fair(c: Config, env: Env, st: State, e: Event) {
    && OfferOk(c, st, e) && AnswersPress(c, st, e) && Timely(st, e) && !Overflows(c, env, st, e)
    && InputAlternates(st, e)
  }

  lemma CallSound(c: Config, env: Env, st: State, e: Event)
    requires Sound(st) && InOrder(st) && Fair(c, env, st, e)
    ensures var st' := Call(c, env, st, e);
      Sound(st') && InOrder(st') && st'.input == Offered(st, e).input
  {
    var st1 := Accept(c, env, st, e);
    assert IsEvent(e) ==> Alternates(Lane(e.key, Offered(st, e).input));
    assert Balanced(st);
    hide Accept, Drain, Balanced, Alternates, Lane, OfferOk, AnswersPress, Overflows, Timely, Owed;
    AcceptBalance(c, env, st, e);
    AcceptSorted(c, env, st, e);
    AcceptOrder(c, env, st, e);
    AcceptKeeps(c, env, st, e);
    AcceptedAlternates(st, e, st1);
    CallOrder(c, env, st, e);
    CallInput(c, env, st, e);
    DrainSound(c, env, st1);
  }

  lemma AcceptedAlternates(st: State, e: Event, st1: State)
    requires InputAlternates(st, e) && InOrder(st1) && st1.input == Offered(st, e).input
    ensures Alternating(st1)
  {
    forall k
      ensures Alternates(Lane(k, Timeline(st1)))
    {
      assert Lane(k, Timeline(st1)) == Lane(k, st1.input);
      assert Alternates(Lane(k, Offered(st, e).input));
    }
  }

  // ----- Runs -----

  ghost predicate FairRun(c: Config, offers: seq<Offer>) {
    offers != [] ==>
      var n := |offers| - 1;
      FairRun(c, offers[..n]) && Fair(c, offers[n].env, Run(c, offers[..n]), offers[n].event)
  }

  lemma {:induction false} FairRunSound(c: Config, offers: seq<Offer>)
    requires FairRun(c, offers)
    ensures Sound(Run(c, offers)) && InOrder(Run(c, offers))
  {
    if offers == [] {
      InitialSound();
    } else {
      var n := |offers| - 1;
      hide Call, Fair, Sound, InOrder;
      FairRunSound(c, offers[..n]);
      CallSound(c, offers[n].env, Run(c, offers[..n]), offers[n].event);
    }
  }

  lemma InitialSound()
    ensures Sound(INITIAL) && InOrder(INITIAL)
  {
    forall k
      ensures Timeline(INITIAL) == [] && Lane(k, []) == [] && Queue(k, []) == [] && LastOf(k, []) == Nothing
    {
    }
  }

  /** In the log of a fair run every press is followed, among the deliveries of
      its key, by a release that carries the same tap count. */
  lemma ReleaseMatchesPress(c: Config, offers: seq<Offer>, i: nat, j: nat)
    requires FairRun(c, offers)
    requires var log := Run(c, offers).log;
      && i < j < |log|
      && log[i].rec.event.key == log[j].rec.event.key && log[i].rec.event.pressed
      && (forall m :: i < m < j ==> log[m].rec.event.key != log[i].rec.event.key)
    ensures var log := Run(c, offers).log;
      !log[j].rec.event.pressed && log[j].rec.tap.count == log[i].rec.tap.count
  {
    var log := Run(c, offers).log;
    FairRunSound(c, offers);
    AgreementAt(log, j);
    hide Run, FairRun;
    LastOfAt(log[i].rec.event.key, log[..j], i);
  }

  lemma {:induction false} AgreementAt(log: Log, j: nat)
    requires Agreement(log) && j < |log|
    ensures Follows(LastOf(log[j].rec.event.key, log[..j]), log[j].rec)
  {
    var n := |log| - 1;
    if j < n {
      AgreementAt(log[..n], j);
      assert log[..n][..j] == log[..j];
    }
  }

  lemma {:induction false} LastOfAt(k: KeyPos, log: Log, i: nat)
    requires i < |log| && log[i].rec.event.key == k
    requires forall m :: i < m < |log| ==> log[m].rec.event.key != k
    ensures LastOf(k, log) == Last(log[i].rec)
  {
    var n := |log| - 1;
    if i < n {
      LastOfAt(k, log[..n], i);
    }
  }

  /** And while that release is still to come it is accounted for: a tapped press
      has its marked release waiting, next of its key; a repeated tap is held by
      the tapping key. */
  lemma OpenTapAccounted(c: Config, offers: seq<Offer>, k: KeyPos)
    requires FairRun(c, offers)
    requires Open(k, Run(c, offers).log)
    ensures var st := Run(c, offers);
      var n, q := OpenCount(k, st.log), Queue(k, st.buf);
      && (n == 1 ==> q != [] && !q[0].event.pressed && q[0].tap.count == 1)
      && (n >= 2 ==> Tapped(st.tapping) && st.tapping.event.key == k && st.tapping.tap.count == n)
      && (n == 0 && q != [] ==> !q[0].event.pressed && q[0].tap.count == 0)
  {
    var st := Run(c, offers);
    FairRunSound(c, offers);
    assert Owed(k, st.tapping, st.log, Queue(k, st.buf));
    AlternationReady(st, k);
  }
}
