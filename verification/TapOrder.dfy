/** Per-key order: each key's events are delivered in the order in which they
    were offered, provided no event is offered into a leftover buffer that holds
    an earlier event of the same key.  The condition is exact, and a run of four
    key events shows what happens without it. */
module TapOrder {
  import opened TapModel
  import opened TapLedger

  /** The events of one key, in order. */
  function Lane(k: KeyPos, s: seq<Event>): (l: seq<Event>)
    ensures |l| <= |s|
    ensures forall i :: 0 <= i < |l| ==> l[i].key == k
  {
    if s == [] then []
    else
      var n := |s| - 1;
      Lane(k, s[..n]) + if s[n].key == k then [s[n]] else []
  }

  lemma {:induction false} LaneConcat(k: KeyPos, a: seq<Event>, b: seq<Event>)
    ensures Lane(k, a + b) == Lane(k, a) + Lane(k, b)
  {
    if b == [] {
      assert a + b == a;
    } else {
      var n := |b| - 1;
      assert (a + b)[..|a + b| - 1] == a + b[..n];
      LaneConcat(k, a, b[..n]);
    }
  }

  lemma LaneOne(k: KeyPos, e: Event)
    ensures Lane(k, [e]) == if e.key == k then [e] else []
  {
    assert [e][..0] == [];
  }

  lemma {:induction false} LaneHas(k: KeyPos, s: seq<Event>, i: nat)
    requires i < |s| && s[i].key == k
    ensures s[i] in Lane(k, s)
  {
    var n := |s| - 1;
    if i < n {
      LaneHas(k, s[..n], i);
    }
  }

  lemma {:induction false} LaneFrom(k: KeyPos, s: seq<Event>, e: Event)
    requires e in Lane(k, s)
    ensures e in s && e.key == k
  {
    var n := |s| - 1;
    if e in Lane(k, s[..n]) {
      LaneFrom(k, s[..n], e);
    }
  }

  /** A key's events start with a press and then alternate. */
  predicate Alternates(l: seq<Event>) {
    forall i :: 0 <= i < |l| ==> l[i].pressed == (i % 2 == 0)
  }

  /** Delivered, undecided and waiting events together, oldest first. */
  function Timeline(st: State): seq<Event> {
    Front(st) + Events(st.buf)
  }

  ghost predicate InOrder(st: State) {
    forall k :: Lane(k, Timeline(st)) == Lane(k, st.input)
  }

  // ----- Retrying waiting events keeps the order -----

  /** An overtaking event belongs to another key, so no lane notices. */
  lemma OvertakeLane(k: KeyPos, o: seq<Event>, r: Event, t: Event)
    requires r.key != t.key
    ensures Lane(k, o + [r, t]) == Lane(k, o + [t] + [r])
  {
    LaneConcat(k, o, [r, t]);
    LaneConcat(k, [r], [t]);
    LaneConcat(k, o + [t], [r]);
    LaneConcat(k, o, [t]);
    assert [r, t] == [r] + [t];
    assert Lane(k, [r]) == [] || Lane(k, [t]) == [];
  }

  lemma ApplyLane(c: Config, st: State, r: Record, v: Verdict, k: KeyPos)
    requires Clean(r) && Fits(c, st.tapping, st.buf, r, v)
    ensures var st' := Apply(c, st, r, v);
      && Lane(k, Front(st')) == Lane(k, Front(st) + Gain(r, v))
      && Events(st'.buf) == Events(st.buf)
      && (CleanBuffer(st.buf) ==> CleanBuffer(st'.buf))
      && st'.input == st.input && st'.dropped == st.dropped
  {
    assert Overtakes(st, v) ==> r.event.key != st.tapping.event.key;
    hide Fits, Apply;
    ApplyFront(c, st, r, v);
    if Overtakes(st, v) {
      OvertakeLane(k, Originals(st.log), r.event, st.tapping.event);
      assert Front(st) == Originals(st.log) + [st.tapping.event];
    }
  }

  lemma RetryLane(c: Config, env: Env, st: State, k: KeyPos)
    requires CleanBuffer(st.buf) && st.buf != []
    ensures var st' := Retry(c, env, st);
      && Lane(k, Timeline(st')) == Lane(k, Timeline(st))
      && CleanBuffer(st'.buf) && st'.input == st.input && st'.dropped == st.dropped
  {
    var r := st.buf[0];
    var v := HeadVerdict(c, env, st);
    DecideFits(c, env, st.tapping, st.buf, st.log, r);
    hide Fits, Decide, Apply, Lane, Front;
    ApplyLane(c, st, r, v, k);
    var st1 := Apply(c, st, r, v);
    EventsTail(st.buf);
    EventsTail(st1.buf);
    PatchKeepsEvent(st.tapping, r, v);
    if Done(v) {
      var rest := st1.buf[1..];
      FrontKept(st1, rest);
      HeadLane(k, Front(st), Front(st1), r.event, Events(rest));
    } else {
      var buf := st1.buf[0 := Patch(st.tapping, r, v)];
      assert Events(st1.buf)[0] == r.event;
      EventsPatched(st1.buf, buf[0]);
      FrontKept(st1, buf);
      assert Front(st) + [] == Front(st);
      LaneConcat(k, Front(st), Events(st.buf));
      LaneConcat(k, Front(st1), Events(st.buf));
    }
  }

  lemma FrontKept(st: State, buf: seq<Record>)
    ensures Front(st.(buf := buf)) == Front(st)
    ensures forall input :: Front(st.(input := input)) == Front(st)
  {
  }

  lemma HeadLane(k: KeyPos, f: seq<Event>, f1: seq<Event>, e: Event, rest: seq<Event>)
    requires Lane(k, f1) == Lane(k, f + [e])
    ensures Lane(k, f1 + rest) == Lane(k, f + ([e] + rest))
  {
    hide Lane;
    LaneConcat(k, f1, rest);
    LaneConcat(k, f + [e], rest);
    assert f + [e] + rest == f + ([e] + rest);
  }

  lemma {:induction false} DrainLane(c: Config, env: Env, st: State, k: KeyPos)
    requires CleanBuffer(st.buf)
    ensures var st' := Drain(c, env, st);
      && Lane(k, Timeline(st')) == Lane(k, Timeline(st))
      && CleanBuffer(st'.buf) && st'.input == st.input && st'.dropped == st.dropped
    decreases |st.buf|
  {
    if st.buf != [] {
      RetryLane(c, env, st, k);
      if Done(HeadVerdict(c, env, st)) {
        DrainLane(c, env, Retry(c, env, st), k);
      }
    }
  }

  // ----- Accepting a new event -----

  /** Must the event queue behind those that already wait? */
  predicate Queues(c: Config, st: State, e: Event) {
    Undecided(st.tapping) || (Released(st.tapping) && !WithinTerm(c, e, st.tapping))
  }

  /** The condition under which an event can be offered without losing order. */
  predicate OfferOk(c: Config, st: State, e: Event) {
    IsEvent(e) ==> Queues(c, st, e) || Lane(e.key, Events(st.buf)) == []
  }

  lemma QueuesIff(c: Config, env: Env, st: State, e: Event)
    requires IsEvent(e)
    ensures var r := Record(e, NO_TAP);
      var v := Decide(c, env, st.tapping, st.buf, st.log, r);
      Queues(c, st, e) <==> !Done(v) || Overtakes(st, v)
  {
  }

  /** Of a key whose events are in order and alternate, the last one waiting is
      the opposite of the next one to come. */
  lemma LastWaiting(st: State, e: Event)
    requires Lane(e.key, Timeline(st)) == Lane(e.key, st.input)
    requires Alternates(Lane(e.key, st.input + [e]))
    requires Lane(e.key, Events(st.buf)) != []
    ensures Typed(st.buf, e)
    ensures Lane(e.key, Events(st.buf)) + [e] != [e] + Lane(e.key, Events(st.buf))
  {
    hide Lane, Front;
    var k, b := e.key, Lane(e.key, Events(st.buf));
    LaneOne(k, e);
    LaneConcat(k, Front(st), Events(st.buf));
    LaneConcat(k, st.input, [e]);
    var all := Lane(k, st.input + [e]);
    var last := b[|b| - 1];
    assert all[|all| - 2] == last && all[|all| - 1] == e;
    LaneFrom(k, Events(st.buf), last);
    assert (b + [e])[|b| - 1] == last;
    assert (b + [e])[|b|] == e && ([e] + b)[|b|] == last;
    var i :| 0 <= i < |st.buf| && Events(st.buf)[i] == last;
    assert st.buf[i].event == last;
  }

  /** What the exits of a new event have to do with its place in line. */
  lemma AcceptFacts(c: Config, env: Env, st: State, e: Event)
    ensures var r := Record(e, NO_TAP);
      var v := Decide(c, env, st.tapping, st.buf, st.log, r);
      && Fits(c, st.tapping, st.buf, r, v)
      && (Overtakes(st, v) ==> !Typed(st.buf, e))
      && (IsEvent(e) ==> (Queues(c, st, e) <==> !Done(v) || Overtakes(st, v)))
  {
    var r := Record(e, NO_TAP);
    DecideFits(c, env, st.tapping, st.buf, st.log, r);
    if IsEvent(e) {
      QueuesIff(c, env, st, e);
    }
  }

  /** A processed event stands behind everything delivered or undecided, but
      ahead of what waits. */
  lemma ApplyTimeline(c: Config, st: State, r: Record, v: Verdict, k: KeyPos)
    requires Clean(r) && Fits(c, st.tapping, st.buf, r, v)
    ensures var st' := Apply(c, st, r, v);
      Lane(k, Timeline(st')) == Lane(k, Front(st)) + Lane(k, Gain(r, v)) + Lane(k, Events(st.buf))
  {
    hide Fits, Apply;
    ApplyLane(c, st, r, v, k);
    var st' := Apply(c, st, r, v);
    LaneConcat(k, Front(st), Gain(r, v));
    LaneConcat(k, Front(st'), Events(st'.buf));
  }

  predicate Overflows(c: Config, env: Env, st: State, e: Event) {
    && IsEvent(e) && |st.buf| == WAITING_BUFFER_SIZE - 1
    && !Done(Decide(c, env, st.tapping, st.buf, st.log, Record(e, NO_TAP)))
  }

  /** Accepting an event neither drops nor rewrites anything unless the buffer overflows. */
  lemma AcceptKeeps(c: Config, env: Env, st: State, e: Event)
    requires CleanBuffer(st.buf) && !Overflows(c, env, st, e)
    ensures var st' := Accept(c, env, st, e);
      CleanBuffer(st'.buf) && st'.dropped == st.dropped && st'.input == Offered(st, e).input
  {
    var r := Record(e, NO_TAP);
    var v := Decide(c, env, st.tapping, st.buf, st.log, r);
    AcceptFacts(c, env, st, e);
    AcceptClean(c, env, st, e);
    hide Fits, Decide, Apply;
    PatchKeepsEvent(st.tapping, r, v);
    ApplyLane(c, Offered(st, e), r, v, e.key);
  }

  function LaneOf(k: KeyPos, e: Event): seq<Event> {
    if IsEvent(e) then Lane(k, [e]) else []
  }

  /** Where a new event ends up in the lanes: ahead of what waits if it was
      processed, behind it otherwise. */
  lemma AcceptTimeline(c: Config, env: Env, st: State, e: Event, k: KeyPos)
    requires CleanBuffer(st.buf) && !Overflows(c, env, st, e)
    ensures var st' := Accept(c, env, st, e);
      var v := Decide(c, env, st.tapping, st.buf, st.log, Record(e, NO_TAP));
      var f, b, l := Lane(k, Front(st)), Lane(k, Events(st.buf)), LaneOf(k, e);
      Lane(k, Timeline(st')) == if Done(v) then f + l + b else f + b + l
  {
    var r := Record(e, NO_TAP);
    var v := Decide(c, env, st.tapping, st.buf, st.log, r);
    AcceptFacts(c, env, st, e);
    hide Fits, Decide, Apply, Queues, Lane, Front;
    var st0 := Offered(st, e);
    ApplyTimeline(c, st0, r, v, k);
    FrontKept(st, st.buf);
    var st1 := Apply(c, st0, r, v);
    if !Done(v) {
      var f, b := Lane(k, Front(st)), Lane(k, Events(st.buf));
      ApplyLane(c, st0, r, v, k);
      PatchKeepsEvent(st.tapping, r, v);
      assert f + Lane(k, []) + b == f + b == f + b + [];
      if IsEvent(e) {
        EnqueueLane(st1, Patch(st.tapping, r, v), k);
      }
    }
  }

  /** Offering an event keeps its key's events in order if and only if it may be
      offered; other keys never notice. */
  lemma AcceptOrder(c: Config, env: Env, st: State, e: Event)
    requires CleanBuffer(st.buf) && !Overflows(c, env, st, e)
    requires InOrder(st)
    requires IsEvent(e) ==> Alternates(Lane(e.key, st.input + [e]))
    ensures InOrder(Accept(c, env, st, e)) <==> OfferOk(c, st, e)
  {
    var st' := Accept(c, env, st, e);
    var v := Decide(c, env, st.tapping, st.buf, st.log, Record(e, NO_TAP));
    AcceptFacts(c, env, st, e);
    hide Fits, Decide, Accept, Queues, Front, Events, Lane;
    var b := Lane(e.key, Events(st.buf));
    if IsEvent(e) && b != [] {
      assert Lane(e.key, Timeline(st)) == Lane(e.key, st.input);
      LastWaiting(st, e);
    }
    forall k
      ensures Lane(k, Timeline(st')) == Lane(k, st'.input) <==> (k == e.key ==> OfferOk(c, st, e))
    {
      AcceptTimeline(c, env, st, e, k);
      AcceptKeeps(c, env, st, e);
      assert Lane(k, Timeline(st)) == Lane(k, st.input);
      LaneConcat(k, Front(st), Events(st.buf));
      LaneConcat(k, st.input, [e]);
      var f, b' := Lane(k, Front(st)), Lane(k, Events(st.buf));
      LaneOne(k, e);
      if k != e.key || !IsEvent(e) {
        assert f + [] + b' == f + b' + [] == f + b';
      } else {
        InsertBefore(f, b, [e]);
      }
    }
    if !IsEvent(e) || OfferOk(c, st, e) {
      assert InOrder(st');
    } else {
      assert Lane(e.key, Timeline(st')) != Lane(e.key, st'.input);
    }
  }

  lemma InsertBefore(f: seq<Event>, b: seq<Event>, l: seq<Event>)
    ensures f + l + b == f + b + l <==> l + b == b + l
  {
    assert f + l + b == f + (l + b) && f + b + l == f + (b + l);
    assert (f + (l + b))[|f|..] == l + b && (f + (b + l))[|f|..] == b + l;
  }

  lemma EnqueueLane(st: State, r: Record, k: KeyPos)
    requires IsEvent(r.event) && |st.buf| < WAITING_BUFFER_SIZE - 1
    ensures Lane(k, Timeline(Enqueue(st, r))) == Lane(k, Timeline(st)) + Lane(k, [r.event])
  {
    var st' := Enqueue(st, r);
    assert Timeline(st') == Timeline(st) + [r.event] by {
      assert Events(st'.buf) == Events(st.buf) + [r.event];
    }
    LaneConcat(k, Timeline(st), [r.event]);
  }

  /** The same for a whole call: the loop over the waiting events never disturbs
      the order, so the condition is exact for the call as well. */
  lemma CallOrder(c: Config, env: Env, st: State, e: Event)
    requires CleanBuffer(st.buf) && !Overflows(c, env, st, e)
    requires InOrder(st)
    requires IsEvent(e) ==> Alternates(Lane(e.key, st.input + [e]))
    ensures InOrder(Call(c, env, st, e)) <==> OfferOk(c, st, e)
    ensures CleanBuffer(Call(c, env, st, e).buf) && Call(c, env, st, e).dropped == st.dropped
  {
    AcceptOrder(c, env, st, e);
    AcceptKeeps(c, env, st, e);
    hide Accept, Drain, OfferOk, Overflows, Alternates, Lane, Timeline;
    var st1 := Accept(c, env, st, e);
    forall k
      ensures Lane(k, Timeline(Drain(c, env, st1))) == Lane(k, Timeline(st1))
    {
      DrainLane(c, env, st1, k);
    }
    DrainLane(c, env, st1, e.key);
  }

  // ----- Runs -----

  lemma RunSnoc(c: Config, offers: seq<Offer>, o: Offer)
    ensures Run(c, offers + [o]) == Call(c, o.env, Run(c, offers), o.event)
  {
    assert (offers + [o])[..|offers|] == offers;
  }

  lemma Snoc(offers: seq<Offer>, more: seq<Offer>)
    requires more != []
    ensures offers + more == offers + more[..|more| - 1] + [more[|more| - 1]]
  {
  }

  lemma {:induction false} RunAppends(c: Config, offers: seq<Offer>, more: seq<Offer>)
    ensures Run(c, offers).log <= Run(c, offers + more).log
  {
    hide *;
    if more == [] {
      assert offers + more == offers;
    } else {
      var before, o := offers + more[..|more| - 1], more[|more| - 1];
      Snoc(offers, more);
      RunAppends(c, offers, more[..|more| - 1]);
      RunSnoc(c, before, o);
      CallAppends(c, o.env, Run(c, before), o.event);
    }
  }

  /** Every key's events alternate, no event is offered against OfferOk, and the
      buffer never overflows. */
  ghost predicate Orderly(c: Config, offers: seq<Offer>) {
    offers != [] ==>
      var n := |offers| - 1;
      var st, e := Run(c, offers[..n]), offers[n].event;
      && Orderly(c, offers[..n])
      && OfferOk(c, st, e) && !Overflows(c, offers[n].env, st, e)
      && (IsEvent(e) ==> Alternates(Lane(e.key, KeyEvents(offers))))
  }

  lemma {:induction false} OrderlyInvariant(c: Config, offers: seq<Offer>)
    requires Orderly(c, offers)
    ensures var st := Run(c, offers);
      InOrder(st) && CleanBuffer(st.buf) && st.dropped == [] && st.input == KeyEvents(offers)
  {
    RunInvariant(c, offers);
    if offers != [] {
      var n := |offers| - 1;
      OrderlyInvariant(c, offers[..n]);
      CallOrder(c, offers[n].env, Run(c, offers[..n]), offers[n].event);
    }
  }

  lemma OrderlySnoc(c: Config, offers: seq<Offer>, o: Offer)
    requires Orderly(c, offers + [o])
    ensures Orderly(c, offers)
    ensures var st, e := Run(c, offers), o.event;
      && OfferOk(c, st, e) && !Overflows(c, o.env, st, e)
      && InOrder(st) && CleanBuffer(st.buf)
      && (IsEvent(e) ==> Alternates(Lane(e.key, st.input + [e])))
  {
    assert (offers + [o])[..|offers|] == offers;
    hide Run, OfferOk, Overflows, Alternates, Lane, InOrder, CleanBuffer;
    OrderlyInvariant(c, offers);
  }

  lemma {:induction false} OrderlyBefore(c: Config, offers: seq<Offer>, more: seq<Offer>)
    requires Orderly(c, offers + more)
    ensures Orderly(c, offers)
  {
    hide *;
    if more == [] {
      assert offers + more == offers;
    } else {
      var m := |more| - 1;
      Snoc(offers, more);
      OrderlySnoc(c, offers + more[..m], more[m]);
      OrderlyBefore(c, offers, more[..m]);
    }
  }

  /** Nothing is said about the order in which events are offered: every key's events
      alternate and the buffer never overflows. */
  ghost predicate Steady(c: Config, offers: seq<Offer>) {
    offers != [] ==>
      var n := |offers| - 1;
      var st, e := Run(c, offers[..n]), offers[n].event;
      && Steady(c, offers[..n])
      && !Overflows(c, offers[n].env, st, e)
      && (IsEvent(e) ==> Alternates(Lane(e.key, KeyEvents(offers))))
  }

  ghost predicate AllInOrder(c: Config, offers: seq<Offer>) {
    InOrder(Run(c, offers)) && (offers != [] ==> AllInOrder(c, offers[..|offers| - 1]))
  }

  predicate AllOffersOk(c: Config, offers: seq<Offer>) {
    offers != [] ==>
      var n := |offers| - 1;
      AllOffersOk(c, offers[..n]) && OfferOk(c, Run(c, offers[..n]), offers[n].event)
  }

  /** The condition is exact for runs as well: all along the run every key is in order if
      and only if every offer meets it. */
  lemma {:induction false} RunOrder(c: Config, offers: seq<Offer>)
    requires Steady(c, offers)
    ensures AllInOrder(c, offers) <==> AllOffersOk(c, offers)
  {
    if offers == [] {
      assert InOrder(INITIAL);
    } else {
      var n := |offers| - 1;
      RunOrder(c, offers[..n]);
      if AllInOrder(c, offers[..n]) {
        assert InOrder(Run(c, offers[..n]));
        RunInvariant(c, offers[..n]);
        CallOrder(c, offers[n].env, Run(c, offers[..n]), offers[n].event);
      }
    }
  }

  /** In an orderly run every key's events come out in the order in which they
      went in: what was delivered is the beginning of what was offered, and the
      rest is pending. */
  lemma PerKeyOrder(c: Config, offers: seq<Offer>, k: KeyPos)
    requires Orderly(c, offers)
    ensures var st := Run(c, offers);
      Lane(k, KeyEvents(offers)) == Lane(k, Originals(st.log)) + Lane(k, Pending(st))
  {
    hide Orderly, Run, KeyEvents, Lane, Originals, CleanBuffer, Events;
    var st := Run(c, offers);
    OrderlyInvariant(c, offers);
    assert Lane(k, Timeline(st)) == Lane(k, st.input);
    var o, u, b := Originals(st.log), UndecidedPart(st.tapping), Events(st.buf);
    assert Timeline(st) == o + (u + b) && Pending(st) == u + b;
    LaneConcat(k, o, u + b);
  }

  /** While a key stays undecided the only thing delivered is a release, of
      another key, whose press is not waiting. */
  lemma WhileUndecided(c: Config, env: Env, st: State, r: Record)
    requires Undecided(st.tapping)
    ensures var v := Decide(c, env, st.tapping, st.buf, st.log, r);
      var st' := Apply(c, st, r, v);
      Undecided(st'.tapping) ==>
        && st'.tapping.event == st.tapping.event
        && (st'.log == st.log
            || (st'.log == st.log + [Delivery(r, Plain)] && !r.event.pressed
                && r.event.key != st.tapping.event.key && !Typed(st.buf, r.event)))
  {
    DecideFits(c, env, st.tapping, st.buf, st.log, r);
  }

  /** In order, such a release follows a press of its key that was delivered
      already: nothing of the key is left undelivered. */
  lemma OvertakingRelease(c: Config, env: Env, st: State, e: Event)
    requires CleanBuffer(st.buf) && InOrder(st) && IsEvent(e)
    requires Alternates(Lane(e.key, st.input + [e]))
    requires Overtakes(st, Decide(c, env, st.tapping, st.buf, st.log, Record(e, NO_TAP)))
    ensures Lane(e.key, Pending(st)) == []
    ensures var l := Lane(e.key, Originals(st.log));
      l == Lane(e.key, st.input) && l != [] && l[|l| - 1].pressed
  {
    AcceptFacts(c, env, st, e);
    var k, b, o, u := e.key, Lane(e.key, Events(st.buf)), Originals(st.log), UndecidedPart(st.tapping);
    assert Lane(k, Timeline(st)) == Lane(k, st.input);
    if b != [] {
      LastWaiting(st, e);
    }
    assert st.tapping.event.key != k && !e.pressed;
    hide Fits, Decide;
    LaneOne(k, st.tapping.event);
    LaneConcat(k, u, Events(st.buf));
    LaneConcat(k, o, u);
    LaneConcat(k, o + u, Events(st.buf));
    assert Pending(st) == u + Events(st.buf);
    LaneConcat(k, st.input, [e]);
    LaneOne(k, e);
    var all := Lane(k, st.input + [e]);
    assert all == Lane(k, st.input) + [e] && all[|all| - 1] == e;
    assert |all| > 1 && all[|all| - 2].pressed;
  }

  // ----- Without the condition -----

  const T := KeyPos(0, 0)
  const U := KeyPos(0, 1)
  const A := KeyPos(0, 2)
  const K := KeyPos(1, 0)

  /** T, U and K are dual-role keys, A is an ordinary one. */
  function TapKeys(): Env {
    Env((log: Log, r: Record) => r.event.key in {T, U, K}, (log: Log, r: Record) => false)
  }

  const DEFAULTS := Config(200, 200, false, false)

  function At(k: KeyPos, time: nat, pressed: bool): Event {
    Event(k, time, Key, pressed)
  }

  function Plainly(e: Event): Record {
    Record(e, NO_TAP)
  }

  lemma OnePressed()
    ensures Run(DEFAULTS, [Offer(TapKeys(), At(T, 0, true))])
         == State(Plainly(At(T, 0, true)), [], [], [At(T, 0, true)], [])
  {
    var o0 := Offer(TapKeys(), At(T, 0, true));
    assert Call(DEFAULTS, TapKeys(), INITIAL, At(T, 0, true))
        == State(Plainly(At(T, 0, true)), [], [], [At(T, 0, true)], []);
    RunSnoc(DEFAULTS, [], o0);
    assert [] + [o0] == [o0];
  }

  /** T is undecided and U waits. */
  lemma TwoPressed()
    ensures var s := Run(DEFAULTS, [Offer(TapKeys(), At(T, 0, true)), Offer(TapKeys(), At(U, 10, true))]);
      s.tapping == Interrupt(Plainly(At(T, 0, true)), true) && s.buf == [Plainly(At(U, 10, true))] && s.log == []
  {
    var o0, o1 := Offer(TapKeys(), At(T, 0, true)), Offer(TapKeys(), At(U, 10, true));
    OnePressed();
    RunSnoc(DEFAULTS, [o0], o1);
    assert [o0] + [o1] == [o0, o1];
  }

  /** The late press settles T and U as held, and stays in the buffer. */
  lemma LatePress(s: State)
    requires s.tapping == Interrupt(Plainly(At(T, 0, true)), true) && s.buf == [Plainly(At(U, 10, true))] && s.log == []
    ensures var s' := Call(DEFAULTS, TapKeys(), s, At(A, 215, true));
      && s'.tapping == NO_RECORD && s'.buf == [Plainly(At(A, 215, true))]
      && |s'.log| == 2 && s'.log[0].rec.event == At(T, 0, true) && s'.log[1].rec.event == At(U, 10, true)
      && s'.log[0].why.Settled? && s'.log[1].why.Settled?
  {
    hide Originals, Lane;
    var c, env := DEFAULTS, TapKeys();
    var r1, r2 := s.buf[0], Plainly(At(A, 215, true));
    var a := Accept(c, env, s, r2.event);
    assert a.tapping == NO_RECORD && a.buf == [r1, r2];
    assert a.log == [Delivery(s.tapping, Settled)];
    var b := Retry(c, env, a);
    assert b.tapping == r1 && b.buf == [r2] && b.log == a.log;
    HoldOnRetry(c, env, b);
    assert Drain(c, env, a) == Drain(c, env, b);
  }

  lemma HoldOnRetry(c: Config, env: Env, st: State)
    requires Undecided(st.tapping) && st.buf != [] && !WithinTerm(c, st.buf[0].event, st.tapping)
    ensures Drain(c, env, st) == st.(tapping := NO_RECORD, log := st.log + [Delivery(st.tapping, Settled)])
  {
    assert st.buf[0 := st.buf[0]] == st.buf;
  }

  /** With no key undecided the release overtakes its waiting press. */
  lemma EarlyRelease(s: State)
    requires s.tapping == NO_RECORD && s.buf == [Plainly(At(A, 215, true))]
    ensures var s' := Call(DEFAULTS, TapKeys(), s, At(A, 216, false));
      s'.log == s.log + [Delivery(Plainly(At(A, 216, false)), Plain)] + [Delivery(Plainly(At(A, 215, true)), Plain)]
  {
    var c, env := DEFAULTS, TapKeys();
    var r2, r3 := s.buf[0], Plainly(At(A, 216, false));
    var a := Accept(c, env, s, r3.event);
    assert a.log == s.log + [Delivery(r3, Plain)] && a.buf == [r2] && a.tapping == NO_RECORD;
    var b := Retry(c, env, a);
    assert b.log == a.log + [Delivery(r2, Plain)] && b.buf == [];
    assert Drain(c, env, a) == Drain(c, env, b) == b;
  }

  lemma LaneOfLog(k: KeyPos, log: Log, d: Delivery)
    requires !d.why.Synthetic?
    ensures Lane(k, Originals(log + [d]))
         == Lane(k, Originals(log)) + if d.rec.event.key == k then [d.rec.event] else []
  {
    hide Lane, Originals;
    OriginalsAppend(log, d);
    LaneConcat(k, Originals(log), [d.rec.event]);
    LaneOne(k, d.rec.event);
  }

  /** Two dual-role keys go down, and an ordinary key is tapped after the term
      of the first and before the next tick.  The press of A makes both holds,
      one per turn, so A waits in a buffer that nothing holds back; its release
      is then processed at once and comes out before its press. */
  lemma ReleaseBeforePress()
    ensures var o := (e: Event) => Offer(TapKeys(), e);
      var offers := [o(At(T, 0, true)), o(At(U, 10, true)), o(At(A, 215, true)), o(At(A, 216, false))];
      Lane(A, Originals(Run(DEFAULTS, offers).log)) == [At(A, 216, false), At(A, 215, true)]
  {
    hide Run, Call;
    var env := TapKeys();
    var two := [Offer(env, At(T, 0, true)), Offer(env, At(U, 10, true))];
    var o2, o3 := Offer(env, At(A, 215, true)), Offer(env, At(A, 216, false));
    TwoPressed();
    LatePress(Run(DEFAULTS, two));
    RunSnoc(DEFAULTS, two, o2);
    var s3 := Run(DEFAULTS, two + [o2]);
    assert Lane(A, Originals(s3.log)) == [] by {
      assert s3.log == [] + [s3.log[0]] + [s3.log[1]];
      LaneOfLog(A, [], s3.log[0]);
      LaneOfLog(A, [] + [s3.log[0]], s3.log[1]);
    }
    EarlyRelease(s3);
    RunSnoc(DEFAULTS, two + [o2], o3);
    LaneOfLog(A, s3.log, Delivery(Plainly(At(A, 216, false)), Plain));
    LaneOfLog(A, s3.log + [Delivery(Plainly(At(A, 216, false)), Plain)], Delivery(Plainly(At(A, 215, true)), Plain));
    assert two + [o2] + [o3] == [two[0], two[1], o2, o3];
  }
}
