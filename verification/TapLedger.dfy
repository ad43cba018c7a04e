/** Conservation: over every run, whatever the keymap answers, each event that
    was offered is delivered once, still pending, or was dropped by an overflow. */
module TapLedger {
  import opened TapModel

  /** The events delivered as themselves, in order; made-up releases are left out. */
  function Originals(log: Log): (s: seq<Event>) {
    if log == [] then []
    else
      var n := |log| - 1;
      Originals(log[..n]) + if log[n].why.Synthetic? then [] else [log[n].rec.event]
  }

  lemma OriginalsAppend(log: Log, d: Delivery)
    ensures Originals(log + [d]) == Originals(log) + if d.why.Synthetic? then [] else [d.rec.event]
  {
    assert (log + [d])[..|log|] == log;
  }

  function UndecidedPart(t: Record): seq<Event> {
    if Undecided(t) then [t.event] else []
  }

  /** Everything older than the waiting events: the delivered ones and the undecided key. */
  function Front(st: State): seq<Event> {
    Originals(st.log) + UndecidedPart(st.tapping)
  }

  /** A press carries no tap count before it is settled. */
  predicate Clean(r: Record) {
    r.event.pressed ==> r.tap.count == 0
  }

  predicate CleanBuffer(buf: seq<Record>) {
    |buf| < WAITING_BUFFER_SIZE && forall i :: 0 <= i < |buf| ==> IsEvent(buf[i].event) && Clean(buf[i])
  }

  /** What an exit adds to the front: the event itself if it was processed. */
  function Gain(r: Record, v: Verdict): seq<Event> {
    if Done(v) && IsEvent(r.event) then [r.event] else []
  }

  /** A new tapping key joins the front, whether or not it is settled on the spot. */
  lemma ScanFront(c: Config, st: State)
    requires IsEvent(st.tapping.event) && st.tapping.event.pressed && st.tapping.tap.count == 0
    ensures var st' := Scan(c, st);
      && Front(st') == Originals(st.log) + [st.tapping.event]
      && Events(st'.buf) == Events(st.buf)
      && (CleanBuffer(st.buf) ==> CleanBuffer(st'.buf))
      && st'.input == st.input && st'.dropped == st.dropped
  {
    var st' := Scan(c, st);
    if st'.log != st.log {
      OriginalsAppend(st.log, st'.log[|st.log|]);
    }
  }

  /** When each exit can be taken. */
  predicate Fits(c: Config, t: Record, buf: seq<Record>, r: Record, v: Verdict) {
    var e := r.event;
    match v
    case Ignore => !IsEvent(e)
    case Begin => IsEvent(e) && e.pressed && !(IsEvent(t.event) && t.event.pressed)
    case Restart => IsEvent(e) && e.pressed && Released(t) && SameKey(t, e)
    case Replace => IsEvent(e) && e.pressed && Tapped(t)
    case Pass(i) =>
      && IsEvent(e)
      && (Undecided(t) ==> !i && !e.pressed && !SameKey(t, e) && !Typed(buf, e) && WithinTerm(c, e, t))
      && (Tapped(t) ==> !i && (SameKey(t, e) ==> e.pressed))
      && (i ==> e.pressed)
    case SettleTap => IsEvent(e) && Undecided(t) && SameKey(t, e) && !e.pressed && WithinTerm(c, e, t)
    case SettleHold(i) =>
      && Undecided(t)
      && (|| !WithinTerm(c, e, t)
          || (IsEvent(e) && c.permissiveHold && !e.pressed && Typed(buf, e))
          || (IsEvent(e) && c.holdOnOtherKeyPress && e.pressed))
    case Wait(i) => IsEvent(e) && Undecided(t) && WithinTerm(c, e, t) && (SameKey(t, e) ==> e.pressed)
    case ReleaseTap(keep) => IsEvent(e) && Tapped(t) && SameKey(t, e) && !e.pressed && keep == WithinTerm(c, e, t)
    case TapAgain =>
      && IsEvent(e) && e.pressed && Released(t) && SameKey(t, e)
      && WithinQuickTerm(c, e, t) && t.tap.count > 0 && !t.tap.interrupted
    case Expire => Released(t) && !WithinTerm(c, e, t)
  }

  predicate Tapped(t: Record) {
    IsEvent(t.event) && t.event.pressed && t.tap.count > 0
  }

  predicate Released(t: Record) {
    IsEvent(t.event) && !t.event.pressed
  }

  lemma DecideFits(c: Config, env: Env, t: Record, buf: seq<Record>, log: Log, r: Record)
    ensures Fits(c, t, buf, r, Decide(c, env, t, buf, log, r))
  {
  }

  /** Only one exit lets an event overtake the undecided key. */
  predicate Overtakes(st: State, v: Verdict) {
    Undecided(st.tapping) && v.Pass?
  }

  /** What one exit does to the front; the waiting events stay as they are. */
  lemma ApplyFront(c: Config, st: State, r: Record, v: Verdict)
    requires Clean(r) && Fits(c, st.tapping, st.buf, r, v)
    ensures var st' := Apply(c, st, r, v);
      && Front(st') == (if Overtakes(st, v) then Originals(st.log) + [r.event, st.tapping.event]
                        else Front(st) + Gain(r, v))
      && (Overtakes(st, v) ==> Gain(r, v) == [r.event])
      && Events(st'.buf) == Events(st.buf)
      && (CleanBuffer(st.buf) ==> CleanBuffer(st'.buf))
      && st'.input == st.input && st'.dropped == st.dropped
  {
    hide Originals, Elapsed;
    match v {
      case Begin => ScanFront(c, st.(tapping := r));
      case Replace => ReplaceFront(c, st, r);
      case Pass(_) => DeliverFront(c, st, r, v);
      case SettleTap => DeliverFront(c, st, r, v);
      case SettleHold(_) => DeliverFront(c, st, r, v);
      case ReleaseTap(_) => DeliverFront(c, st, r, v);
      case TapAgain => DeliverFront(c, st, r, v);
      case _ =>
    }
  }

  lemma ReplaceFront(c: Config, st: State, r: Record)
    requires Clean(r) && Fits(c, st.tapping, st.buf, r, Replace)
    ensures var st' := Apply(c, st, r, Replace);
      && Front(st') == Front(st) + [r.event]
      && Events(st'.buf) == Events(st.buf)
      && (CleanBuffer(st.buf) ==> CleanBuffer(st'.buf))
      && st'.input == st.input && st'.dropped == st.dropped
  {
    var d := Delivery(SyntheticRelease(st.tapping, r.event), Synthetic);
    OriginalsAppend(st.log, d);
    ScanFront(c, st.(tapping := r, log := if st.tapping.tap.count > 1 then st.log + [d] else st.log));
  }

  /** The exits that make one delivery and nothing else. */
  lemma DeliverFront(c: Config, st: State, r: Record, v: Verdict)
    requires Fits(c, st.tapping, st.buf, r, v)
    requires v.Pass? || v.SettleTap? || v.SettleHold? || v.ReleaseTap? || v.TapAgain?
    ensures var st' := Apply(c, st, r, v);
      Front(st') == if Overtakes(st, v) then Originals(st.log) + [r.event, st.tapping.event] else Front(st) + Gain(r, v)
  {
    hide Originals, Elapsed;
    var st' := Apply(c, st, r, v);
    var d := st'.log[|st.log|];
    OriginalsAppend(st.log, d);
    assert st'.log == st.log + [d];
    if v.SettleTap? || v.SettleHold? {
      assert d.rec.event == st.tapping.event;
    } else {
      assert d.rec.event == r.event;
    }
  }

  // ----- Deliveries are never taken back -----

  lemma {:induction false} DrainAppends(c: Config, env: Env, st: State)
    ensures st.log <= Drain(c, env, st).log
    decreases |st.buf|
  {
    if st.buf != [] && Done(HeadVerdict(c, env, st)) {
      DrainAppends(c, env, Retry(c, env, st));
    }
  }

  lemma CallAppends(c: Config, env: Env, st: State, e: Event)
    ensures st.log <= Accept(c, env, st, e).log <= Call(c, env, st, e).log
  {
    assert st.log <= Accept(c, env, st, e).log;
    hide Accept, Drain;
    DrainAppends(c, env, Accept(c, env, st, e));
  }

  // ----- Conservation -----

  function Occurs(x: Event, s: seq<Event>): nat {
    if s == [] then 0 else Occurs(x, s[..|s| - 1]) + if s[|s| - 1] == x then 1 else 0
  }

  lemma {:induction false} OccursConcat(x: Event, a: seq<Event>, b: seq<Event>)
    ensures Occurs(x, a + b) == Occurs(x, a) + Occurs(x, b)
  {
    if b == [] {
      assert a + b == a;
    } else {
      var n := |b| - 1;
      assert (a + b)[..|a + b| - 1] == a + b[..n];
      OccursConcat(x, a, b[..n]);
    }
  }

  /** How often an event is delivered, pending or dropped. */
  function Tally(st: State, x: Event): nat {
    Occurs(x, Front(st)) + Occurs(x, Events(st.buf)) + Occurs(x, st.dropped)
  }

  lemma FrontTally(c: Config, st: State, r: Record, v: Verdict, x: Event)
    requires Clean(r) && Fits(c, st.tapping, st.buf, r, v)
    ensures var st' := Apply(c, st, r, v);
      && Tally(st', x) == Tally(st, x) + Occurs(x, Gain(r, v))
      && Events(st'.buf) == Events(st.buf)
      && (CleanBuffer(st.buf) ==> CleanBuffer(st'.buf))
      && st'.input == st.input
  {
    hide Fits, Apply;
    ApplyFront(c, st, r, v);
    var o := Originals(st.log);
    if Overtakes(st, v) {
      OccursConcat(x, o, [r.event, st.tapping.event]);
      OccursConcat(x, [r.event], [st.tapping.event]);
      OccursConcat(x, o, [st.tapping.event]);
    } else {
      OccursConcat(x, Front(st), Gain(r, v));
    }
  }

  lemma EnqueueTally(st: State, r: Record, x: Event)
    requires IsEvent(r.event) && Clean(r) && CleanBuffer(st.buf)
    ensures var st' := Enqueue(st, r);
      && Tally(st', x) == Tally(st, x) + Occurs(x, [r.event])
      && CleanBuffer(st'.buf) && st'.input == st.input
  {
    var st' := Enqueue(st, r);
    if |st.buf| < WAITING_BUFFER_SIZE - 1 {
      assert Events(st'.buf) == Events(st.buf) + [r.event];
      OccursConcat(x, Events(st.buf), [r.event]);
    } else {
      var u, b := UndecidedPart(st.tapping), Events(st.buf);
      OccursConcat(x, Originals(st.log), u);
      OccursConcat(x, Originals(st.log), []);
      OccursConcat(x, u, b);
      OccursConcat(x, st.dropped, u + b);
      OccursConcat(x, st.dropped + (u + b), [r.event]);
      assert Pending(st) == u + b;
    }
  }

  /** Nothing is lost, nothing is made up. */
  ghost predicate Conserved(st: State) {
    && CleanBuffer(st.buf)
    && forall x :: Tally(st, x) == Occurs(x, st.input)
  }

  lemma AcceptTally(c: Config, env: Env, st: State, e: Event, x: Event)
    requires CleanBuffer(st.buf) && Tally(st, x) == Occurs(x, st.input)
    ensures var st' := Accept(c, env, st, e);
      CleanBuffer(st'.buf) && Tally(st', x) == Occurs(x, st'.input)
  {
    hide Fits, Decide, Apply;
    var r := Record(e, NO_TAP);
    var v := Decide(c, env, st.tapping, st.buf, st.log, r);
    DecideFits(c, env, st.tapping, st.buf, st.log, r);
    var st0 := Offered(st, e);
    OccursConcat(x, st.input, [e]);
    FrontTally(c, st0, r, v, x);
    var st1 := Apply(c, st0, r, v);
    if !Done(v) && IsEvent(e) {
      EnqueueTally(st1, Patch(st.tapping, r, v), x);
    }
  }

  lemma RetryTally(c: Config, env: Env, st: State, x: Event)
    requires CleanBuffer(st.buf) && st.buf != []
    ensures var st' := Retry(c, env, st);
      CleanBuffer(st'.buf) && Tally(st', x) == Tally(st, x) && st'.input == st.input
  {
    hide Fits, Decide, Apply;
    var r := st.buf[0];
    var v := HeadVerdict(c, env, st);
    DecideFits(c, env, st.tapping, st.buf, st.log, r);
    FrontTally(c, st, r, v, x);
    var st1 := Apply(c, st, r, v);
    if Done(v) {
      EventsTail(st1.buf);
      OccursConcat(x, [r.event], Events(st1.buf[1..]));
    } else {
      EventsPatched(st1.buf, Patch(st.tapping, r, v));
    }
  }

  lemma PatchKeepsEvent(t: Record, r: Record, v: Verdict)
    ensures Patch(t, r, v).event == r.event
    ensures Clean(r) && !Done(v) && (v.SettleTap? ==> !r.event.pressed) ==> Clean(Patch(t, r, v))
  {
  }

  lemma EventsTail(buf: seq<Record>)
    requires buf != []
    ensures Events(buf) == [buf[0].event] + Events(buf[1..])
    ensures Events(buf[1..]) == Events(buf)[1..]
    ensures CleanBuffer(buf) ==> CleanBuffer(buf[1..])
  {
  }

  lemma EventsPatched(buf: seq<Record>, r: Record)
    requires buf != [] && r.event == buf[0].event
    ensures Events(buf[0 := r]) == Events(buf)
    ensures CleanBuffer(buf) && Clean(r) ==> CleanBuffer(buf[0 := r])
  {
  }

  lemma {:induction false} DrainTally(c: Config, env: Env, st: State, x: Event)
    requires CleanBuffer(st.buf)
    ensures var st' := Drain(c, env, st);
      CleanBuffer(st'.buf) && Tally(st', x) == Tally(st, x) && st'.input == st.input
    decreases |st.buf|
  {
    if st.buf != [] {
      RetryTally(c, env, st, x);
      if Done(HeadVerdict(c, env, st)) {
        DrainTally(c, env, Retry(c, env, st), x);
      }
    }
  }

  lemma CallConserves(c: Config, env: Env, st: State, e: Event)
    requires Conserved(st)
    ensures Conserved(Call(c, env, st, e))
  {
    forall x
      ensures var st' := Call(c, env, st, e);
        CleanBuffer(st'.buf) && Tally(st', x) == Occurs(x, st'.input)
    {
      AcceptTally(c, env, st, e, x);
      DrainTally(c, env, Accept(c, env, st, e), x);
    }
    assert CleanBuffer(Call(c, env, st, e).buf) by {
      AcceptTally(c, env, st, e, e);
      DrainTally(c, env, Accept(c, env, st, e), e);
    }
  }

  /** The key events of a run, in the order in which they were offered. */
  function KeyEvents(offers: seq<Offer>): seq<Event> {
    if offers == [] then []
    else
      var n := |offers| - 1;
      KeyEvents(offers[..n]) + if IsEvent(offers[n].event) then [offers[n].event] else []
  }

  lemma {:induction false} RunInvariant(c: Config, offers: seq<Offer>)
    ensures Conserved(Run(c, offers)) && Run(c, offers).input == KeyEvents(offers)
  {
    if offers != [] {
      var n := |offers| - 1;
      RunInvariant(c, offers[..n]);
      var env, st, e := offers[n].env, Run(c, offers[..n]), offers[n].event;
      CallConserves(c, env, st, e);
      CallInput(c, env, st, e);
    }
  }

  lemma CallInput(c: Config, env: Env, st: State, e: Event)
    requires CleanBuffer(st.buf)
    ensures Call(c, env, st, e).input == Offered(st, e).input
  {
    hide Fits, Decide, Apply;
    var r := Record(e, NO_TAP);
    DecideFits(c, env, st.tapping, st.buf, st.log, r);
    var v := Decide(c, env, st.tapping, st.buf, st.log, r);
    FrontTally(c, Offered(st, e), r, v, e);
    AcceptClean(c, env, st, e);
    DrainTally(c, env, Accept(c, env, st, e), e);
  }

  lemma AcceptClean(c: Config, env: Env, st: State, e: Event)
    requires CleanBuffer(st.buf)
    ensures CleanBuffer(Accept(c, env, st, e).buf)
  {
    hide Fits, Decide, Apply;
    var r := Record(e, NO_TAP);
    DecideFits(c, env, st.tapping, st.buf, st.log, r);
    var v := Decide(c, env, st.tapping, st.buf, st.log, r);
    var st0 := Offered(st, e);
    FrontTally(c, st0, r, v, e);
    if !Done(v) && IsEvent(e) {
      EnqueueTally(Apply(c, st0, r, v), Patch(st.tapping, r, v), e);
    }
  }

  lemma {:induction false} OccursIsCount(x: Event, s: seq<Event>)
    ensures Occurs(x, s) == multiset(s)[x]
  {
    if s != [] {
      OccursIsCount(x, s[..|s| - 1]);
      assert s == s[..|s| - 1] + [s[|s| - 1]];
    }
  }

  /** Over every run, the events offered are exactly those delivered as
      themselves, those still pending, and those dropped by an overflow: each
      in one place, and as often as it was offered. */
  lemma RunConserves(c: Config, offers: seq<Offer>)
    ensures var st := Run(c, offers);
      multiset(KeyEvents(offers)) == multiset(Originals(st.log)) + multiset(Pending(st)) + multiset(st.dropped)
  {
    hide Run, KeyEvents;
    var st := Run(c, offers);
    RunInvariant(c, offers);
    var o, u, b := Originals(st.log), UndecidedPart(st.tapping), Events(st.buf);
    forall x: Event
      ensures multiset(KeyEvents(offers))[x] == (multiset(o) + multiset(u + b) + multiset(st.dropped))[x]
    {
      assert Tally(st, x) == Occurs(x, st.input);
      OccursConcat(x, o, u);
      OccursConcat(x, u, b);
      OccursIsCount(x, st.input);
      OccursIsCount(x, o);
      OccursIsCount(x, u + b);
      OccursIsCount(x, st.dropped);
    }
    assert Pending(st) == u + b;
  }
}
