/** The layer cache around the resolver (quantum.c, action_layer.c).  A press chooses a
    layer and stores it in the entry of its key, and a release recalls it.  A press does so
    twice: when it arrives, before the resolver has it, and when the resolver delivers it.
    The resolver delays events, and layers change meanwhile, so that a release that waits
    can find the choice of the next press of its key in the entry.  The condition is exact. */
module TapLayers {
  import opened Bits
  import opened TapModel
  import opened TapLedger
  import opened TapOrder
  import opened TapDecisions
  import PressRelease

  type Board = PressRelease.Board

  type Layer = PressRelease.Layer

  /** The layer that the keymap chooses for a position, after these deliveries.  It is given
      for each offer, since layers also change with time. */
  type Choice = (Log, KeyPos) -> Layer

  /** An event meets the cache when it arrives, with so many deliveries made, and when it is
      delivered; `chosen` is the layer of its key at that moment. */
  datatype Touch =
    | Arrives(call: nat, seen: nat, arriving: Event, chosen: Layer)
    | Leaves(index: nat, delivery: Delivery, chosen: Layer)
  {
    function Subject(): Event {
      match this
      case Arrives(_, _, e, _) => e
      case Leaves(_, d, _) => d.rec.event
    }
  }

  function Arriving(call: nat, log: Log, e: Event, top: Choice): seq<Touch> {
    if IsEvent(e) then [Arrives(call, |log|, e, top(log, e.key))] else []
  }

  /** The deliveries from a place of the log on. */
  function Leaving(log: Log, from: nat, top: Choice): (s: seq<Touch>)
    requires from <= |log|
    ensures |s| == |log| - from
    ensures forall i :: 0 <= i < |s| ==>
      s[i] == Leaves(from + i, log[from + i], top(log[..from + i], log[from + i].rec.event.key))
  {
    seq(|log| - from, i requires 0 <= i < |log| - from =>
      Leaves(from + i, log[from + i], top(log[..from + i], log[from + i].rec.event.key)))
  }

  /** Everything that meets the cache over a run, in order: in each call the event that
      arrives, then what the call delivers. */
  function Trace(c: Config, offers: seq<Offer>, tops: seq<Choice>): seq<Touch>
    requires |tops| == |offers|
  {
    if offers == [] then []
    else
      var n := |offers| - 1;
      var log, e := Run(c, offers[..n]).log, offers[n].event;
      CallAppends(c, offers[n].env, Run(c, offers[..n]), e);
      Trace(c, offers[..n], tops[..n]) + Arriving(n, log, e, tops[n]) + Leaving(Run(c, offers).log, |log|, tops[n])
  }

  // ----- The cache -----

  /** What is remembered of the layers after these events. */
  function Remembered(b: Board, touches: seq<Touch>): PressRelease.Notes
    requires b.layerBits <= CHAR_BIT
  {
    if touches == [] then PressRelease.BLANK
    else
      var n := |touches| - 1;
      var e := touches[n].Subject();
      PressRelease.LayerStep(b, Remembered(b, touches[..n]), e.key, e.pressed, touches[n].chosen, false).0
  }

  /** The layer on which an event is looked up. */
  function LookedUp(b: Board, touches: seq<Touch>, x: nat): Layer
    requires b.layerBits <= CHAR_BIT && x < |touches|
  {
    var e := touches[x].Subject();
    PressRelease.LayerStep(b, Remembered(b, touches[..x]), e.key, e.pressed, touches[x].chosen, false).1
  }

  /** The choices can be numbered with the layer bits. */
  predicate Numbered(b: Board, touches: seq<Touch>)
    requires b.layerBits <= CHAR_BIT
  {
    forall x :: 0 <= x < |touches| ==> Low(touches[x].chosen, b.layerBits) == touches[x].chosen
  }

  predicate Presses(t: Touch, k: KeyPos) {
    t.Subject().key == k && t.Subject().pressed
  }

  /** The last press of a key, arriving or delivered, or -1. */
  function LastWrite(k: KeyPos, touches: seq<Touch>): (x: int)
    ensures -1 <= x < |touches|
    ensures 0 <= x ==> Presses(touches[x], k)
    ensures forall y :: x < y < |touches| ==> !Presses(touches[y], k)
  {
    if touches == [] then -1
    else
      var n := |touches| - 1;
      if Presses(touches[n], k) then n else LastWrite(k, touches[..n])
  }

  /** What one more event does to the entry of a matrix key. */
  lemma EntryAfter(b: Board, touches: seq<Touch>, t: Touch, k: KeyPos)
    requires b.layerBits <= CHAR_BIT && b.InMatrix(k) && Low(t.chosen, b.layerBits) == t.chosen
    ensures var c := b.LayerCell(k);
      Remembered(b, touches + [t]).LayerAt(c)
      == if Presses(t, k) then t.chosen else Remembered(b, touches).LayerAt(c)
  {
    var e := t.Subject();
    assert (touches + [t])[..|touches|] == touches;
    if e.key != k && b.InMatrix(e.key) {
      b.MatrixCellsApart(e.key, k);
    }
  }

  /** The entry of a matrix key holds the choice of its last press. */
  lemma {:induction false} EntryHolds(b: Board, touches: seq<Touch>, k: KeyPos)
    requires b.layerBits <= CHAR_BIT && b.InMatrix(k) && Numbered(b, touches)
    ensures var x := LastWrite(k, touches);
      Remembered(b, touches).LayerAt(b.LayerCell(k)) == if x < 0 then 0 else touches[x].chosen
  {
    if touches != [] {
      var n := |touches| - 1;
      EntryHolds(b, touches[..n], k);
      assert touches == touches[..n] + [touches[n]];
      hide Low;
      EntryAfter(b, touches[..n], touches[n], k);
    }
  }

  /** A release of a matrix key is looked up on the layer that the last press of its key
      chose, whether that press was delivered by then or had only arrived; on layer 0 if
      there was none. */
  lemma ReleaseLookedUp(b: Board, touches: seq<Touch>, x: nat)
    requires b.layerBits <= CHAR_BIT && Numbered(b, touches) && x < |touches|
    requires b.InMatrix(touches[x].Subject().key) && !touches[x].Subject().pressed
    ensures var w := LastWrite(touches[x].Subject().key, touches[..x]);
      LookedUp(b, touches, x) == if w < 0 then 0 else touches[w].chosen
  {
    EntryHolds(b, touches[..x], touches[x].Subject().key);
  }

  // ----- The trace of a run -----

  lemma TraceSnoc(c: Config, offers: seq<Offer>, tops: seq<Choice>, o: Offer, top: Choice)
    requires |tops| == |offers|
    ensures Run(c, offers).log <= Run(c, offers + [o]).log
    ensures var log, log' := Run(c, offers).log, Run(c, offers + [o]).log;
      Trace(c, offers + [o], tops + [top])
      == Trace(c, offers, tops) + Arriving(|offers|, log, o.event, top) + Leaving(log', |log|, top)
  {
    hide Run, Call, Accept, Arriving, Leaving;
    RunSnoc(c, offers, o);
    CallAppends(c, o.env, Run(c, offers), o.event);
    assert (offers + [o])[..|offers|] == offers && (tops + [top])[..|tops|] == tops;
  }

  /** Deliveries come in order, and arrivals between those before and after them. */
  predicate Timed(touches: seq<Touch>, total: nat) {
    && (forall x, y :: 0 <= x < y < |touches| && touches[x].Leaves? && touches[y].Leaves?
          ==> touches[x].index < touches[y].index)
    && (forall x :: 0 <= x < |touches| ==>
          if touches[x].Leaves? then touches[x].index < total else touches[x].seen <= total)
    && (forall x, y :: 0 <= x < |touches| && 0 <= y < |touches| && touches[x].Arrives? && touches[y].Leaves?
          ==> (y < x <==> touches[y].index < touches[x].seen))
  }

  lemma TimedArrival(touches: seq<Touch>, total: nat, t: Touch)
    requires Timed(touches, total) && t.Arrives? && t.seen == total
    ensures Timed(touches + [t], total)
  {
  }

  lemma TimedLeaving(touches: seq<Touch>, log: Log, from: nat, top: Choice)
    requires from <= |log| && Timed(touches, from)
    ensures Timed(touches + Leaving(log, from, top), |log|)
  {
  }

  /** What a trace says is what happened in the run. */
  predicate Tells(c: Config, offers: seq<Offer>, t: Touch) {
    match t
    case Arrives(call, seen, e, _) =>
      call < |offers| && e == offers[call].event && IsEvent(e) && seen == |Run(c, offers[..call]).log|
    case Leaves(i, d, _) => i < |Run(c, offers).log| && Run(c, offers).log[i] == d
  }

  ghost predicate Traced(c: Config, offers: seq<Offer>, touches: seq<Touch>) {
    Timed(touches, |Run(c, offers).log|) && forall x :: 0 <= x < |touches| ==> Tells(c, offers, touches[x])
  }

  lemma TellsLater(c: Config, offers: seq<Offer>, o: Offer, t: Touch)
    requires Tells(c, offers, t)
    ensures Tells(c, offers + [o], t)
  {
    RunSnoc(c, offers, o);
    CallAppends(c, o.env, Run(c, offers), o.event);
    hide Run, Call, Accept;
    if t.Arrives? {
      assert (offers + [o])[..t.call] == offers[..t.call];
    }
  }

  lemma {:induction false} TraceOfRun(c: Config, offers: seq<Offer>, tops: seq<Choice>)
    requires |tops| == |offers|
    ensures Traced(c, offers, Trace(c, offers, tops))
  {
    if offers != [] {
      var n := |offers| - 1;
      var before, o := offers[..n], offers[n];
      assert offers == before + [o];
      var touches, log, log' := Trace(c, before, tops[..n]), Run(c, before).log, Run(c, offers).log;
      TraceOfRun(c, before, tops[..n]);
      CallAppends(c, o.env, Run(c, before), o.event);
      hide Run, Call, Accept, Tells, Timed;
      forall t <- touches
        ensures Tells(c, offers, t)
      {
        TellsLater(c, before, o, t);
      }
      TraceGrows(c, before, o, touches, Arriving(n, log, o.event, tops[n]), tops[n]);
    }
  }

  lemma TraceGrows(c: Config, offers: seq<Offer>, o: Offer, touches: seq<Touch>, arriving: seq<Touch>, top: Choice)
    requires Timed(touches, |Run(c, offers).log|) && forall t <- touches :: Tells(c, offers + [o], t)
    requires arriving == Arriving(|offers|, Run(c, offers).log, o.event, top)
    requires Run(c, offers).log <= Run(c, offers + [o]).log
    ensures Traced(c, offers + [o],
                   touches + arriving + Leaving(Run(c, offers + [o]).log, |Run(c, offers).log|, top))
  {
    var log, log' := Run(c, offers).log, Run(c, offers + [o]).log;
    hide Run, Timed;
    assert touches + [] == touches;
    assert (offers + [o])[..|offers|] == offers;
    if IsEvent(o.event) {
      TimedArrival(touches, |log|, arriving[0]);
    }
    TimedLeaving(touches + arriving, log', |log|, top);
  }

  /** Where a delivery stands in the trace. */
  lemma {:induction false} PlaceOf(c: Config, offers: seq<Offer>, tops: seq<Choice>, i: nat) returns (x: nat)
    requires |tops| == |offers| && i < |Run(c, offers).log|
    ensures var touches := Trace(c, offers, tops);
      x < |touches| && touches[x].Leaves? && touches[x].index == i
  {
    if offers != [] {
      var n := |offers| - 1;
      var log, e := Run(c, offers[..n]).log, offers[n].event;
      CallAppends(c, offers[n].env, Run(c, offers[..n]), e);
      if i < |log| {
        x := PlaceOf(c, offers[..n], tops[..n], i);
      } else {
        x := |Trace(c, offers[..n], tops[..n]) + Arriving(n, log, e, tops[n])| + i - |log|;
      }
    }
  }

  ghost predicate AllNumbered(b: Board, tops: seq<Choice>)
    requires b.layerBits <= CHAR_BIT
  {
    forall i, log, k :: 0 <= i < |tops| ==> Low(tops[i](log, k), b.layerBits) == tops[i](log, k)
  }

  lemma {:induction false} TraceNumbered(c: Config, offers: seq<Offer>, tops: seq<Choice>, b: Board)
    requires |tops| == |offers| && b.layerBits <= CHAR_BIT && AllNumbered(b, tops)
    ensures Numbered(b, Trace(c, offers, tops))
  {
    if offers != [] {
      hide Low, Run;
      TraceNumbered(c, offers[..|offers| - 1], tops[..|tops| - 1], b);
    }
  }

  // ----- In orderly runs it is the key's own press -----

  lemma {:induction false} OrderlyAlternates(c: Config, offers: seq<Offer>, k: KeyPos)
    requires Orderly(c, offers)
    ensures Alternates(Lane(k, KeyEvents(offers)))
  {
    if offers != [] {
      var n := |offers| - 1;
      OrderlyAlternates(c, offers[..n], k);
      var e, s := offers[n].event, KeyEvents(offers[..n]);
      if IsEvent(e) && e.key != k {
        LaneConcat(k, s, [e]);
        LaneOne(k, e);
        assert Lane(k, s) + [] == Lane(k, s);
      } else if !IsEvent(e) {
        assert s + [] == s;
      }
    }
  }

  lemma {:induction false} OriginalsPrefix(k: KeyPos, log: Log, j: nat)
    requires j <= |log|
    ensures Lane(k, Originals(log[..j])) <= Lane(k, Originals(log))
  {
    if j == |log| {
      assert log[..j] == log;
    } else {
      var n := |log| - 1;
      OriginalsPrefix(k, log[..n], j);
      assert log[..n][..j] == log[..j];
      LaneConcat(k, Originals(log[..n]), if log[n].why.Synthetic? then [] else [log[n].rec.event]);
    }
  }

  /** The last delivered press of a key, or -1. */
  function LastPressed(k: KeyPos, log: Log): (i: int)
    ensures -1 <= i < |log|
    ensures 0 <= i ==> log[i].rec.event.key == k && log[i].rec.event.pressed
    ensures forall m :: i < m < |log| ==> !(log[m].rec.event.key == k && log[m].rec.event.pressed)
  {
    if log == [] then -1
    else
      var n := |log| - 1;
      if log[n].rec.event.key == k && log[n].rec.event.pressed then n else LastPressed(k, log[..n])
  }

  /** No press is made up. */
  predicate PressesReal(log: Log) {
    forall i :: 0 <= i < |log| && log[i].why.Synthetic? ==> !log[i].rec.event.pressed
  }

  /** What one more delivery adds to the events of a key and to its last press. */
  lemma OneDelivery(k: KeyPos, log: Log, d: Delivery)
    requires d.why.Synthetic? ==> !d.rec.event.pressed
    ensures var mine := d.rec.event.key == k && !d.why.Synthetic?;
      Lane(k, Originals(log + [d])) == if mine then Lane(k, Originals(log)) + [d.rec.event] else Lane(k, Originals(log))
    ensures var e := d.rec.event;
      LastPressed(k, log + [d]) == if e.key == k && e.pressed then |log| else LastPressed(k, log)
  {
    assert (log + [d])[..|log|] == log;
    hide Lane, Originals;
    var o := Originals(log);
    OriginalsAppend(log, d);
    if d.why.Synthetic? {
      assert o + [] == o;
    } else {
      LaneOfLog(k, log, d);
      assert Lane(k, o) + [] == Lane(k, o);
    }
  }

  lemma NothingDelivered(k: KeyPos)
    ensures Lane(k, Originals([])) == []
  {
  }

  lemma RealBefore(log: Log)
    requires PressesReal(log) && log != []
    ensures PressesReal(log[..|log| - 1])
    ensures log[|log| - 1].why.Synthetic? ==> !log[|log| - 1].rec.event.pressed
  {
  }

  /** When the last delivered event of a key is a press, that is its last delivered press. */
  lemma {:induction false} LastIsPress(k: KeyPos, log: Log)
    requires PressesReal(log)
    requires var l := Lane(k, Originals(log)); l != [] && l[|l| - 1].pressed
    ensures var i, l := LastPressed(k, log), Lane(k, Originals(log));
      && 0 <= i && log[i].rec.event == l[|l| - 1]
      && Lane(k, Originals(log[..i + 1])) == l
  {
    hide *;
    NothingDelivered(k);
    var n := |log| - 1;
    var d := log[n];
    assert log == log[..n] + [d];
    RealBefore(log);
    OneDelivery(k, log[..n], d);
    if d.rec.event.key != k || d.why.Synthetic? {
      LastIsPress(k, log[..n]);
      var i := LastPressed(k, log);
      assert log[..n][..i + 1] == log[..i + 1];
    } else {
      assert log[..n + 1] == log;
    }
  }

  lemma RealPresses(c: Config, offers: seq<Offer>)
    ensures PressesReal(Run(c, offers).log)
  {
    hide Run;
    RunReasoned(c, offers);
    var log := Run(c, offers).log;
    forall i | 0 <= i < |log| && log[i].why.Synthetic?
      ensures !log[i].rec.event.pressed
    {
      assert Justified(c, log[..i], log[i]);
    }
  }

  /** A delivered event follows, among those of its key, the ones delivered before it. */
  lemma DeliveredNext(k: KeyPos, log: Log, j: nat)
    requires j < |log| && !log[j].why.Synthetic? && log[j].rec.event.key == k
    ensures Lane(k, Originals(log[..j])) + [log[j].rec.event] <= Lane(k, Originals(log))
  {
    hide *;
    assert log[..j + 1] == log[..j] + [log[j]];
    LaneOfLog(k, log[..j], log[j]);
    OriginalsPrefix(k, log, j + 1);
  }

  lemma ReleaseAfterPress(l: seq<Event>, before: seq<Event>, e: Event)
    requires Alternates(l) && before + [e] <= l && !e.pressed
    ensures 0 < |before| < |l| && l[|before|] == e && before[|before| - 1] == l[|before| - 1]
    ensures before[|before| - 1].pressed
  {
    assert l[|before|] == (before + [e])[|before|] == e;
    assert l[|before| - 1] == (before + [e])[|before| - 1];
  }

  /** The `j`-th delivery is a release, and the press before it, among the events of its key
      that are listed in `l`, is the one that was delivered last. */
  predicate Paired(k: KeyPos, l: seq<Event>, log: Log, j: nat)
    requires j < |log|
  {
    var m, i := |Lane(k, Originals(log[..j]))|, LastPressed(k, log[..j]);
    && 0 < m < |l| && l[m] == log[j].rec.event
    && l[m - 1].pressed && 0 <= i && log[i].rec.event == l[m - 1]
    && |Lane(k, Originals(log[..i + 1]))| == m
  }

  lemma PairedInLane(k: KeyPos, l: seq<Event>, log: Log, rest: seq<Event>, j: nat)
    requires j < |log| && !log[j].rec.event.pressed && !log[j].why.Synthetic? && log[j].rec.event.key == k
    requires Alternates(l) && l == Lane(k, Originals(log)) + rest && PressesReal(log)
    ensures Paired(k, l, log, j)
  {
    assert PressesReal(log[..j]);
    hide Lane, Originals, LastPressed, PressesReal, Alternates;
    DeliveredNext(k, log, j);
    ReleaseAfterPress(l, Lane(k, Originals(log[..j])), log[j].rec.event);
    LastIsPress(k, log[..j]);
    var i := LastPressed(k, log[..j]);
    assert log[..j][..i + 1] == log[..i + 1];
  }

  /** In an orderly run the event before a delivered release, among those of its key, is the
      press that was delivered last. */
  lemma OwnPress(c: Config, offers: seq<Offer>, j: nat)
    requires Orderly(c, offers)
    requires var log := Run(c, offers).log;
      j < |log| && !log[j].rec.event.pressed && !log[j].why.Synthetic?
    ensures var log := Run(c, offers).log;
      var k := log[j].rec.event.key;
      Paired(k, Lane(k, KeyEvents(offers)), log, j) && Alternates(Lane(k, KeyEvents(offers)))
  {
    hide *;
    var st := Run(c, offers);
    var k := st.log[j].rec.event.key;
    RealPresses(c, offers);
    PerKeyOrder(c, offers, k);
    OrderlyAlternates(c, offers, k);
    PairedInLane(k, Lane(k, KeyEvents(offers)), st.log, Lane(k, Pending(st)), j);
  }

  /** A press of the key that arrives in between finds the release waiting in the ring. */
  lemma ReleaseWaits(c: Config, offers: seq<Offer>, more: seq<Offer>, o: Offer, j: nat)
    requires Orderly(c, offers + [o] + more)
    requires var log, k := Run(c, offers + [o] + more).log, o.event.key;
      && j < |log| && !log[j].rec.event.pressed && !log[j].why.Synthetic? && log[j].rec.event.key == k
      && LastPressed(k, log[..j]) < |Run(c, offers).log| <= j
    requires IsEvent(o.event) && o.event.pressed
    ensures Run(c, offers + [o] + more).log[j].rec.event in Events(Run(c, offers).buf)
  {
    var all, st, k := offers + [o] + more, Run(c, offers), o.event.key;
    var log := Run(c, all).log;
    hide *;
    OwnPress(c, all, j);
    OrderlyBefore(c, offers + [o], more);
    OrderlyBefore(c, offers, [o]);
    PerKeyOrder(c, offers, k);
    RunAppends(c, offers, [o] + more);
    assert offers + ([o] + more) == all;
    LanePrefix(k, offers, o, more);
    StillWaits(k, log, st, Lane(k, KeyEvents(all)), Lane(k, KeyEvents(offers)), j, o.event);
  }

  lemma {:induction false} LanePrefix(k: KeyPos, offers: seq<Offer>, o: Offer, more: seq<Offer>)
    requires IsEvent(o.event) && o.event.key == k
    ensures Lane(k, KeyEvents(offers)) + [o.event] <= Lane(k, KeyEvents(offers + [o] + more))
    decreases |more|
  {
    var l := Lane(k, KeyEvents(offers));
    if more == [] {
      assert offers + [o] + more == offers + [o];
      assert (offers + [o])[..|offers|] == offers;
      LaneConcat(k, KeyEvents(offers), [o.event]);
      LaneOne(k, o.event);
    } else {
      var before, last := offers + [o] + more[..|more| - 1], more[|more| - 1];
      assert offers + [o] + more == before + [last];
      assert (before + [last])[..|before|] == before;
      LanePrefix(k, offers, o, more[..|more| - 1]);
      LaneConcat(k, KeyEvents(before), if IsEvent(last.event) then [last.event] else []);
    }
  }

  lemma StillWaits(k: KeyPos, log: Log, st: State, all: seq<Event>, mine: seq<Event>, j: nat, e: Event)
    requires j < |log| && st.log <= log && |st.log| <= j && Alternates(all) && e.pressed
    requires mine + [e] <= all && mine == Lane(k, Originals(st.log)) + Lane(k, Pending(st))
    requires !log[j].rec.event.pressed && LastPressed(k, log[..j]) < |st.log| && Paired(k, all, log, j)
    ensures log[j].rec.event in Events(st.buf)
  {
    hide Lane, Originals, LastPressed, Events;
    var m, i := |Lane(k, Originals(log[..j]))|, LastPressed(k, log[..j]);
    OriginalsPrefix(k, log[..j], |st.log|);
    assert log[..j][..|st.log|] == st.log;
    OriginalsPrefix(k, st.log, i + 1);
    assert st.log[..i + 1] == log[..i + 1];
    assert |Lane(k, Originals(st.log))| == m;
    assert all[|mine|] == e;
    var p := Lane(k, Pending(st));
    assert mine[m] == all[m] && p[0] == mine[m];
    LaneFrom(k, Pending(st), p[0]);
  }

  /** No press of the key arrives while the release waits. */
  ghost predicate Undisturbed(c: Config, offers: seq<Offer>, w: Event) {
    forall n :: 0 <= n < |offers| && offers[n].event.key == w.key && offers[n].event.pressed
      ==> w !in Events(Run(c, offers[..n]).buf)
  }

  /** The press and the release belong together: they are neighbours among the events of
      their key, where the release is the one that the `j`-th delivery brings. */
  predicate OwnEvents(c: Config, offers: seq<Offer>, j: nat, press: Event, release: Event) {
    var log, k := Run(c, offers).log, release.key;
    && j < |log| && log[j].rec.event == release
    && var l, m := Lane(k, KeyEvents(offers)), |Lane(k, Originals(log[..j]))|;
       0 < m < |l| && l[m] == release && l[m - 1] == press && press.pressed
  }

  /** The last write before a release: its own press, or a press that has arrived since. */
  lemma WriteBetween(c: Config, offers: seq<Offer>, touches: seq<Touch>, p: nat, x: nat)
    requires Traced(c, offers, touches) && p < |touches| && x < |touches|
    requires touches[p].Leaves? && touches[x].Leaves? && touches[x].index < |Run(c, offers).log|
    requires var i := LastPressed(touches[x].Subject().key, Run(c, offers).log[..touches[x].index]);
      0 <= i && touches[p].index == i
    ensures var w := LastWrite(touches[x].Subject().key, touches[..x]);
      && p <= w < x
      && (w != p ==> touches[w].Arrives? && touches[p].index < touches[w].seen <= touches[x].index)
  {
    hide Run, LastPressed, LastWrite;
    var k, log := touches[x].Subject().key, Run(c, offers).log;
    assert Tells(c, offers, touches[p]) && Tells(c, offers, touches[x]);
    assert p < x;
    forall y | p < y < x && touches[y].Leaves?
      ensures !Presses(touches[y], k)
    {
      assert Tells(c, offers, touches[y]);
      assert log[..touches[x].index][touches[y].index] == touches[y].delivery;
    }
    assert touches[..x][p] == touches[p] && Presses(touches[p], k);
    var w := LastWrite(k, touches[..x]);
    assert p <= w && touches[..x][w] == touches[w];
  }

  /** Such a press arrived while the release waited. */
  lemma ArrivedMeanwhile(c: Config, offers: seq<Offer>, n: nat, j: nat)
    requires Orderly(c, offers) && n < |offers| && IsEvent(offers[n].event) && offers[n].event.pressed
    requires var log, k := Run(c, offers).log, offers[n].event.key;
      && j < |log| && !log[j].rec.event.pressed && !log[j].why.Synthetic? && log[j].rec.event.key == k
      && LastPressed(k, log[..j]) < |Run(c, offers[..n]).log| <= j
    ensures Run(c, offers).log[j].rec.event in Events(Run(c, offers[..n]).buf)
  {
    hide *;
    var before, o, more := offers[..n], offers[n], offers[n + 1..];
    assert before + [o] + more == offers;
    ReleaseWaits(c, before, more, o, j);
  }

  lemma PressLookedUp(b: Board, touches: seq<Touch>, p: nat)
    requires b.layerBits <= CHAR_BIT && p < |touches| && touches[p].Subject().pressed
    ensures LookedUp(b, touches, p) == touches[p].chosen
  {
  }

  /** A delivered release that was not made up. */
  predicate Releases(touches: seq<Touch>, x: nat) {
    && x < |touches| && touches[x].Leaves? && !touches[x].delivery.why.Synthetic?
    && !touches[x].Subject().pressed
  }

  lemma OwnPlace(c: Config, offers: seq<Offer>, tops: seq<Choice>, x: nat) returns (p: nat)
    requires |tops| == |offers| && Orderly(c, offers) && Releases(Trace(c, offers, tops), x)
    ensures var touches, log := Trace(c, offers, tops), Run(c, offers).log;
      && p < |touches| && touches[p].Leaves? && touches[x].index < |log|
      && touches[p].index == LastPressed(touches[x].Subject().key, log[..touches[x].index])
      && OwnEvents(c, offers, touches[x].index, touches[p].Subject(), touches[x].Subject())
  {
    var touches, log := Trace(c, offers, tops), Run(c, offers).log;
    TraceOfRun(c, offers, tops);
    assert Tells(c, offers, touches[x]);
    hide Run, Orderly, Trace, Lane, KeyEvents, Originals, LastPressed, Timed;
    OwnPress(c, offers, touches[x].index);
    p := PlaceOf(c, offers, tops, LastPressed(touches[x].Subject().key, log[..touches[x].index]));
    assert Tells(c, offers, touches[p]);
  }

  lemma LastWriter(c: Config, offers: seq<Offer>, touches: seq<Touch>, p: nat, x: nat)
    requires Traced(c, offers, touches) && Orderly(c, offers) && Releases(touches, x)
    requires p < |touches| && touches[p].Leaves? && touches[x].index < |Run(c, offers).log|
    requires touches[p].index == LastPressed(touches[x].Subject().key, Run(c, offers).log[..touches[x].index])
    ensures var w := LastWrite(touches[x].Subject().key, touches[..x]);
      && p <= w < x && Presses(touches[w], touches[x].Subject().key)
      && (w != p ==>
            && touches[w].Arrives? && touches[w].call < |offers|
            && touches[x].Subject() in Events(Run(c, offers[..touches[w].call]).buf))
  {
    hide Run, Orderly, Timed, LastPressed, LastWrite;
    WriteBetween(c, offers, touches, p, x);
    var w := LastWrite(touches[x].Subject().key, touches[..x]);
    assert touches[..x][w] == touches[w];
    assert Tells(c, offers, touches[x]);
    if w != p {
      assert Tells(c, offers, touches[w]);
      ArrivedMeanwhile(c, offers, touches[w].call, touches[x].index);
    }
  }

  lemma DisturbedBy(c: Config, offers: seq<Offer>, touches: seq<Touch>, w: nat, release: Event)
    requires Traced(c, offers, touches) && w < |touches| && touches[w].Arrives? && touches[w].call < |offers|
    requires Presses(touches[w], release.key) && release in Events(Run(c, offers[..touches[w].call]).buf)
    ensures !Undisturbed(c, offers, release)
  {
    assert Tells(c, offers, touches[w]);
  }

  /** In an orderly run a delivered release of a matrix key is looked up on the layer of its
      own press if and only if the last press of its key before it in the trace chose that
      layer.  This is its own press, delivered, or a later one that arrived while the
      release waited in the ring. */
  lemma ReleaseOnLayerOfPress(c: Config, offers: seq<Offer>, tops: seq<Choice>, b: Board, x: nat)
    returns (p: nat, w: nat)
    requires |tops| == |offers| && Orderly(c, offers) && b.layerBits <= CHAR_BIT && AllNumbered(b, tops)
    requires var touches := Trace(c, offers, tops);
      Releases(touches, x) && b.InMatrix(touches[x].Subject().key)
    ensures var touches := Trace(c, offers, tops);
      && p <= w < x && touches[p].Leaves? && w == LastWrite(touches[x].Subject().key, touches[..x])
      && OwnEvents(c, offers, touches[x].index, touches[p].Subject(), touches[x].Subject())
      && (w != p ==>
            && touches[w].Arrives? && touches[w].call < |offers|
            && touches[x].Subject() in Events(Run(c, offers[..touches[w].call]).buf))
      && (LookedUp(b, touches, x) == LookedUp(b, touches, p) <==> touches[w].chosen == touches[p].chosen)
      && (Undisturbed(c, offers, touches[x].Subject()) ==> LookedUp(b, touches, x) == LookedUp(b, touches, p))
  {
    var touches := Trace(c, offers, tops);
    TraceOfRun(c, offers, tops);
    TraceNumbered(c, offers, tops, b);
    p := OwnPlace(c, offers, tops, x);
    hide Run, Orderly, Trace, Traced, LastPressed, LastWrite, Undisturbed, AllNumbered, Numbered, LookedUp;
    LastWriter(c, offers, touches, p, x);
    w := LastWrite(touches[x].Subject().key, touches[..x]);
    if w != p {
      DisturbedBy(c, offers, touches, w, touches[x].Subject());
    }
    assert touches[..x][w] == touches[w];
    ReleaseLookedUp(b, touches, x);
    PressLookedUp(b, touches, p);
  }
}
