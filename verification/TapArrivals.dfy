/** What a call has to do with the event that arrives: when it settles the undecided key,
    when the event goes out at once, when it becomes the undecided key, and what counts as
    an interruption. */
module TapArrivals {
  import opened TapModel
  import opened TapLedger
  import opened TapOrder
  import opened TapProgress
  import TapReasons

  // ----- A key is undecided -----

  predicate PressWaits(buf: seq<Record>, k: KeyPos) {
    exists i :: 0 <= i < |buf| && buf[i].event.key == k && buf[i].event.pressed
  }

  predicate OwnRelease(x: Event, e: Event) {
    IsEvent(e) && e.key == x.key && !e.pressed
  }

  predicate OtherRelease(x: Event, e: Event) {
    IsEvent(e) && e.key != x.key && !e.pressed
  }

  predicate Press(e: Event) {
    IsEvent(e) && e.pressed
  }

  /** The arriving event makes the undecided key a tap. */
  predicate TapNow(c: Config, x: Event, e: Event) {
    OwnRelease(x, e) && !TapReasons.Late(c, x, e)
  }

  /** It makes it a hold: it comes late or, as the options have it, releases another key
      whose press waits, or is a press. */
  predicate HoldNow(c: Config, buf: seq<Record>, x: Event, e: Event) {
    || TapReasons.Late(c, x, e)
    || (c.permissiveHold && OtherRelease(x, e) && PressWaits(buf, e.key))
    || (c.holdOnOtherKeyPress && Press(e))
  }

  /** It releases a key that was pressed before, and need not be retained. */
  predicate PassNow(c: Config, env: Env, log: Log, buf: seq<Record>, x: Event, r: Record) {
    && !TapReasons.Late(c, x, r.event) && OtherRelease(x, r.event) && !PressWaits(buf, r.event.key)
    && !env.retains(log, r)
  }

  /** The event decides nothing and has to wait, or is a tick. */
  predicate Idle(c: Config, env: Env, log: Log, buf: seq<Record>, x: Event, r: Record) {
    && !TapNow(c, x, r.event) && !HoldNow(c, buf, x, r.event) && !PassNow(c, env, log, buf, x, r)
  }

  /** The undecided key as it is delivered. */
  function TapOf(t: Record): Delivery {
    Delivery(Record(t.event, Tap(t.tap.interrupted, 1)), Settled)
  }

  function HoldOf(c: Config, t: Record, e: Event): Delivery {
    Delivery(Record(t.event, Tap(t.tap.interrupted || (Press(e) && !TapReasons.Late(c, t.event, e)), 0)), Settled)
  }

  function AsItIs(e: Event): Delivery {
    Delivery(Record(e, NO_TAP), Plain)
  }

  /** The `n`-th delivery. */
  predicate Delivers(log: Log, n: nat, d: Delivery) {
    n < |log| && log[n] == d
  }

  /** What accepting the event makes of the undecided key. */
  lemma AcceptUndecided(c: Config, env: Env, st: State, e: Event)
    requires Undecided(st.tapping)
    ensures var t, log := st.tapping, st.log;
      var log' := Accept(c, env, st, e).log;
      if TapNow(c, t.event, e) then log' == log + [TapOf(t)]
      else if HoldNow(c, st.buf, t.event, e) then log' == log + [HoldOf(c, t, e)]
      else if PassNow(c, env, log, st.buf, t.event, Record(e, NO_TAP)) then log' == log + [AsItIs(e)]
      else log' == log
  {
    assert IsEvent(e) && !e.pressed ==> (Typed(st.buf, e) <==> PressWaits(st.buf, e.key));
  }

  /** The call that brings the deciding event decides: the first thing it delivers is the
      key, as a tap or as a hold, or else the release that goes before it. */
  lemma SettledOnArrival(c: Config, env: Env, st: State, e: Event)
    requires Undecided(st.tapping)
    ensures var t, n, log' := st.tapping, |st.log|, Call(c, env, st, e).log;
      && st.log <= log'
      && (TapNow(c, t.event, e) ==> Delivers(log', n, TapOf(t)))
      && (HoldNow(c, st.buf, t.event, e) ==> Delivers(log', n, HoldOf(c, t, e)))
      && (PassNow(c, env, st.log, st.buf, t.event, Record(e, NO_TAP)) ==> Delivers(log', n, AsItIs(e)))
  {
    AcceptUndecided(c, env, st, e);
    CallAppends(c, env, st, e);
    hide Accept, Drain;
    assert TapNow(c, st.tapping.event, e) ==> !HoldNow(c, st.buf, st.tapping.event, e);
    assert PassNow(c, env, st.log, st.buf, st.tapping.event, Record(e, NO_TAP))
           ==> !HoldNow(c, st.buf, st.tapping.event, e);
  }

  /** One that finds no place: everything is dropped. */
  predicate Full(st: State, e: Event) {
    IsEvent(e) && |st.buf| == WAITING_BUFFER_SIZE - 1
  }

  function Behind(st: State, e: Event): seq<Record> {
    st.buf + if IsEvent(e) then [Record(e, NO_TAP)] else []
  }

  lemma AcceptIdle(c: Config, env: Env, st: State, e: Event)
    requires Undecided(st.tapping) && CleanBuffer(st.buf)
    requires Idle(c, env, st.log, st.buf, st.tapping.event, Record(e, NO_TAP))
    ensures var a := Accept(c, env, st, e);
      && a.log == st.log
      && if Full(st, e) then a.tapping == NO_RECORD && a.buf == [] && a.dropped == st.dropped + Pending(st) + [e]
         else a.tapping == Interrupt(st.tapping, Press(e)) && a.buf == Behind(st, e) && a.dropped == st.dropped
  {
    assert IsEvent(e) && !e.pressed ==> (Typed(st.buf, e) <==> PressWaits(st.buf, e.key));
    assert !IsEvent(e) ==> Behind(st, e) == st.buf;
    var r := Record(e, NO_TAP);
    var t := st.tapping;
    assert Decide(c, env, t, st.buf, st.log, r) == if IsEvent(e) then Wait(e.pressed) else Ignore;
    hide Decide, Idle;
    assert Pending(st.(tapping := Interrupt(t, e.pressed))) == Pending(st);
  }

  /** A waiting event that decides nothing keeps all behind it. */
  lemma DrainIdle(c: Config, env: Env, st: State)
    requires Undecided(st.tapping) && CleanBuffer(st.buf)
    requires st.buf != [] ==> Idle(c, env, st.log, st.buf, st.tapping.event, st.buf[0])
    ensures Drain(c, env, st)
         == if st.buf == [] then st else st.(tapping := Interrupt(st.tapping, st.buf[0].event.pressed))
  {
    if st.buf != [] {
      var r := st.buf[0];
      assert !r.event.pressed ==> (Typed(st.buf, r.event) <==> PressWaits(st.buf, r.event.key));
      assert HeadVerdict(c, env, st) == Wait(r.event.pressed);
    }
  }

  /** When neither the event nor the oldest one waiting decides anything, nothing is
      delivered and the event waits last, or everything is dropped. */
  lemma WaitsBehind(c: Config, env: Env, st: State, e: Event)
    requires Undecided(st.tapping) && CleanBuffer(st.buf)
    requires Idle(c, env, st.log, st.buf, st.tapping.event, Record(e, NO_TAP))
    requires st.buf != [] ==> Idle(c, env, st.log, Behind(st, e), st.tapping.event, st.buf[0])
    ensures var st' := Call(c, env, st, e);
      && st'.log == st.log
      && if Full(st, e) then Pending(st') == [] && st'.dropped == st.dropped + Pending(st) + [e]
         else
           && Pending(st') == Pending(st) + (if IsEvent(e) then [e] else []) && st'.dropped == st.dropped
           && Undecided(st'.tapping) && st'.tapping.event == st.tapping.event
  {
    AcceptIdle(c, env, st, e);
    AcceptClean(c, env, st, e);
    var a := Accept(c, env, st, e);
    hide Accept;
    if !Full(st, e) {
      if st.buf == [] && IsEvent(e) {
        AloneIdle(c, env, st, e);
      }
      hide Idle;
      DrainIdle(c, env, a);
    }
  }

  lemma AloneIdle(c: Config, env: Env, st: State, e: Event)
    requires st.buf == [] && Idle(c, env, st.log, [], st.tapping.event, Record(e, NO_TAP))
    ensures Idle(c, env, st.log, [Record(e, NO_TAP)], st.tapping.event, Record(e, NO_TAP))
  {
  }

  // ----- No key is undecided -----

  /** A press of the key that was released last. */
  predicate PressedAgain(c: Config, t: Record, e: Event) {
    Released(t) && Press(e) && SameKey(t, e) && WithinTerm(c, e, t)
  }

  predicate DualRole(env: Env, st: State, e: Event) {
    Press(e) && env.isTap(st.log, Record(e, NO_TAP))
  }

  lemma OneDrained(c: Config, env: Env, st: State)
    requires |st.buf| == 1 && Done(HeadVerdict(c, env, st))
    ensures Drain(c, env, st) == Retry(c, env, st)
  {
    assert Drain(c, env, Retry(c, env, st)) == Retry(c, env, st);
  }

  lemma OrdinaryLate(c: Config, env: Env, st: State, e: Event)
    requires Boundary(st) && IsEvent(e) && !DualRole(env, st, e)
    requires Released(st.tapping) && !WithinTerm(c, e, st.tapping)
    ensures Call(c, env, st, e).log == st.log + [AsItIs(e)]
  {
    var r, a := Record(e, NO_TAP), Accept(c, env, st, e);
    assert Decide(c, env, st.tapping, st.buf, st.log, r) == Expire;
    assert a.tapping == NO_RECORD && a.buf == [r] && a.log == st.log;
    assert HeadVerdict(c, env, a) == Pass(false);
    OneDrained(c, env, a);
  }

  /** Ordinary events go out at once. */
  lemma OrdinaryAtOnce(c: Config, env: Env, st: State, e: Event)
    requires Boundary(st) && IsEvent(e) && !Undecided(st.tapping) && !DualRole(env, st, e)
    requires Tapped(st.tapping) ==> !OwnRelease(st.tapping.event, e)
    requires !PressedAgain(c, st.tapping, e)
    ensures var log' := Call(c, env, st, e).log;
      && Delivers(log', |st.log|, AsItIs(e))
      && (st.buf == [] ==> log' == st.log + [AsItIs(e)])
  {
    if Released(st.tapping) && !WithinTerm(c, e, st.tapping) {
      OrdinaryLate(c, env, st, e);
    } else {
      assert Decide(c, env, st.tapping, st.buf, st.log, Record(e, NO_TAP)).Pass?;
      assert Accept(c, env, st, e).log == st.log + [AsItIs(e)];
      assert Accept(c, env, st, e).buf == st.buf;
      hide Decide, Accept;
      CallAppends(c, env, st, e);
    }
  }

  /** The release of a tapped key goes out at once, with the tap of its press. */
  lemma TapReleasedAtOnce(c: Config, env: Env, st: State, e: Event)
    requires Tapped(st.tapping) && OwnRelease(st.tapping.event, e)
    ensures Delivers(Call(c, env, st, e).log, |st.log|, Delivery(Record(e, st.tapping.tap), Plain))
  {
    CallAppends(c, env, st, e);
  }

  /** What ends a repeated tap when another key takes over. */
  function Ending(t: Record, e: Event): Log {
    if Tapped(t) && t.tap.count > 1 then
      [Delivery(Record(Event(t.event.key, e.time, t.event.kind, false), t.tap), Synthetic)]
    else []
  }

  /** The release that makes a tap of the arriving key waits already. */
  predicate ReleaseWaits(c: Config, st: State, e: Event) {
    exists i :: 0 <= i < |st.buf| && TapNow(c, e, st.buf[i].event)
  }

  lemma ScanSettles(c: Config, st: State, e: Event)
    requires st.tapping == Record(e, NO_TAP) && Press(e)
    ensures var st' := Scan(c, st);
      if ReleaseWaits(c, st, e) then st'.log == st.log + [TapOf(st.tapping)] else st' == st
  {
    var i := FindTapEnd(c, st.tapping, st.buf);
    hide FindTapEnd, Elapsed;
    assert forall j :: 0 <= j < |st.buf| ==> (EndsTap(c, st.tapping, st.buf[j]) <==> TapNow(c, e, st.buf[j].event));
  }

  /** With a release that is late already the tapping key is forgotten first. */
  lemma TakesOverLate(c: Config, env: Env, st: State, e: Event)
    requires Boundary(st) && DualRole(env, st, e) && Released(st.tapping) && !WithinTerm(c, e, st.tapping)
    ensures var st' := Call(c, env, st, e);
      st'.log == st.log && st'.tapping == Record(e, NO_TAP) && st.buf == []
  {
    var r, a := Record(e, NO_TAP), Accept(c, env, st, e);
    assert Decide(c, env, st.tapping, st.buf, st.log, r) == Expire;
    assert a.tapping == NO_RECORD && a.buf == [r] && a.log == st.log;
    assert HeadVerdict(c, env, a) == Begin;
    OneDrained(c, env, a);
    ScanSettles(c, a.(tapping := r), e);
  }

  lemma AcceptTakesOver(c: Config, env: Env, st: State, e: Event)
    requires !Undecided(st.tapping) && DualRole(env, st, e) && !PressedAgain(c, st.tapping, e)
    requires Released(st.tapping) ==> WithinTerm(c, e, st.tapping)
    ensures var a, log := Accept(c, env, st, e), st.log + Ending(st.tapping, e);
      && a.log == log + (if ReleaseWaits(c, st, e) then [TapOf(Record(e, NO_TAP))] else [])
      && (st.buf == [] ==> a.tapping == Record(e, NO_TAP) && a.buf == [])
  {
    var r, log := Record(e, NO_TAP), st.log + Ending(st.tapping, e);
    var v := Decide(c, env, st.tapping, st.buf, st.log, r);
    assert v == if Tapped(st.tapping) then Replace else Begin;
    hide Decide, Scan, Elapsed;
    var st1 := Offered(st, e).(tapping := r, log := log);
    assert Accept(c, env, st, e) == Scan(c, st1);
    ScanSettles(c, st1, e);
  }

  /** A dual-role press becomes the undecided key.  Over a ring in which its release waits
      already it is a tap at once. */
  lemma DualRoleTakesOver(c: Config, env: Env, st: State, e: Event)
    requires Boundary(st) && !Undecided(st.tapping) && DualRole(env, st, e) && !PressedAgain(c, st.tapping, e)
    ensures var st', log := Call(c, env, st, e), st.log + Ending(st.tapping, e);
      && log <= st'.log
      && (st.buf == [] ==> st'.log == log && st'.tapping == Record(e, NO_TAP))
      && (ReleaseWaits(c, st, e) ==> Delivers(st'.log, |log|, TapOf(Record(e, NO_TAP))))
  {
    if Released(st.tapping) && !WithinTerm(c, e, st.tapping) {
      TakesOverLate(c, env, st, e);
    } else {
      AcceptTakesOver(c, env, st, e);
      CallAppends(c, env, st, e);
      hide Accept, Scan;
      var log := st.log + Ending(st.tapping, e);
      assert log <= Accept(c, env, st, e).log;
    }
  }

  /** Pressed again within the term, not as a quick repetition, the key that was released
      last becomes the undecided key. */
  lemma PressedAgainUndecided(c: Config, env: Env, st: State, e: Event)
    requires Boundary(st) && PressedAgain(c, st.tapping, e)
    requires st.tapping.tap.interrupted || st.tapping.tap.count == 0 || !WithinQuickTerm(c, e, st.tapping)
    ensures var st' := Call(c, env, st, e);
      st'.log == st.log && st'.tapping == Record(e, NO_TAP) && st'.buf == []
  {
  }

  /** A tick delivers nothing unless a key is undecided or events wait. */
  lemma TickIsQuiet(c: Config, env: Env, st: State, e: Event)
    requires Boundary(st) && AtRest(st) && !Undecided(st.tapping) && !IsEvent(e)
    ensures var st' := Call(c, env, st, e);
      && st'.log == st.log && st'.buf == [] && st'.dropped == st.dropped
      && st'.tapping == if Released(st.tapping) && !WithinTerm(c, e, st.tapping) then NO_RECORD else st.tapping
  {
  }

  // ----- Interruptions -----

  predicate Unsettled(log: Log, from: nat) {
    forall i :: from <= i < |log| ==> !log[i].why.Settled?
  }

  /** The key that was undecided has not been settled since. */
  predicate Stays(st: State, st': State) {
    Undecided(st.tapping) && Unsettled(st'.log, |st.log|)
  }

  /** Presses carry no tap before they are settled. */
  predicate FreshPresses(buf: seq<Record>) {
    forall i :: 0 <= i < |buf| && buf[i].event.pressed ==> buf[i].tap == NO_TAP
  }

  predicate HeadPress(buf: seq<Record>) {
    buf != [] && buf[0].event.pressed
  }

  /** During the call of `e` on `st`: whether the undecided key counts as interrupted. */
  predicate Flagged(st: State, e: Event, m: State) {
    && FreshPresses(m.buf)
    && (Stays(st, m) ==> Undecided(m.tapping) || m.buf == [])
    && (Undecided(m.tapping) ==>
          (m.tapping.tap.interrupted <==> Stays(st, m) && (st.tapping.tap.interrupted || Press(e))))
  }

  lemma ScanStays(c: Config, st: State, from: nat)
    requires Undecided(st.tapping) && FreshPresses(st.buf)
    ensures var st' := Scan(c, st);
      && FreshPresses(st'.buf) && |st'.buf| == |st.buf|
      && st.log <= st'.log
      && (from <= |st.log| && Unsettled(st'.log, from) ==> st' == st)
      && (Undecided(st'.tapping) ==> st' == st)
  {
    var i := FindTapEnd(c, st.tapping, st.buf);
    hide FindTapEnd, Elapsed;
    var st' := Scan(c, st);
    assert st' != st ==> st'.log == st.log + [st'.log[|st.log|]] && st'.log[|st.log|].why.Settled?;
  }

  /** One exit, taken on an event that brings no tap with it if it is a press. */
  lemma TurnFlagged(c: Config, st: State, e: Event, m: State, r: Record, v: Verdict)
    requires FreshPresses(m.buf) && |st.log| <= |m.log| && Fits(c, m.tapping, m.buf, r, v)
    requires r.event.pressed ==> r.tap == NO_TAP
    requires Stays(st, m) ==> Undecided(m.tapping)
    ensures var m' := Apply(c, m, r, v);
      && m.log <= m'.log && FreshPresses(m'.buf) && |m'.buf| == |m.buf|
      && (Stays(st, m') ==> Stays(st, m) && Undecided(m'.tapping))
      && (Undecided(m'.tapping) ==>
            if Undecided(m.tapping) then
              && (Stays(st, m') <==> Stays(st, m))
              && m'.tapping.tap.interrupted == (m.tapping.tap.interrupted || (v.Wait? && v.interrupts))
            else !m'.tapping.tap.interrupted)
  {
    hide FindTapEnd, Elapsed, Typed;
    match v {
      case Begin => ScanStays(c, m.(tapping := r), |st.log|);
      case Replace =>
        var t := m.tapping;
        var log := if t.tap.count > 1 then m.log + [Delivery(SyntheticRelease(t, r.event), Synthetic)] else m.log;
        ScanStays(c, m.(tapping := r, log := log), |st.log|);
      case SettleTap => assert Apply(c, m, r, v).log[|m.log|].why.Settled?;
      case SettleHold(_) => assert Apply(c, m, r, v).log[|m.log|].why.Settled?;
      case _ => assert forall i :: 0 <= i < |m.log| ==> Apply(c, m, r, v).log[i] == m.log[i];
    }
  }

  lemma AcceptFlagged(c: Config, env: Env, st: State, e: Event)
    requires Boundary(st) && FreshPresses(st.buf)
    ensures Flagged(st, e, Accept(c, env, st, e))
  {
    var r := Record(e, NO_TAP);
    var v := Decide(c, env, st.tapping, st.buf, st.log, r);
    DecideFits(c, env, st.tapping, st.buf, st.log, r);
    assert Undecided(st.tapping) && !v.SettleHold? ==> (v.Wait? && v.interrupts <==> Press(e) && v.Wait?);
    assert v.Wait? ==> v.interrupts == e.pressed;
    hide Decide, Apply;
    TurnFlagged(c, st, e, Offered(st, e), r, v);
  }

  lemma RetryFlagged(c: Config, env: Env, st: State, e: Event, m: State)
    requires Flagged(st, e, m) && CleanBuffer(m.buf) && m.buf != [] && |st.log| <= |m.log|
    ensures var m' := Retry(c, env, m);
      && m.log <= m'.log
      && if Done(HeadVerdict(c, env, m)) then Flagged(st, e, m')
         else
           && FreshPresses(m'.buf)
           && (Undecided(m'.tapping) ==>
                 (m'.tapping.tap.interrupted
                  <==> (Stays(st, m') && (st.tapping.tap.interrupted || Press(e))) || HeadPress(m'.buf)))
  {
    var r, v := m.buf[0], HeadVerdict(c, env, m);
    DecideFits(c, env, m.tapping, m.buf, m.log, r);
    assert v.Wait? ==> v.interrupts == r.event.pressed;
    hide Decide, Apply;
    TurnFlagged(c, st, e, m, r, v);
  }

  lemma {:induction false} DrainFlagged(c: Config, env: Env, st: State, e: Event, m: State)
    requires Flagged(st, e, m) && CleanBuffer(m.buf) && |st.log| <= |m.log|
    ensures var m' := Drain(c, env, m);
      && FreshPresses(m'.buf)
      && (Undecided(m'.tapping) ==>
            (m'.tapping.tap.interrupted
             <==> (Stays(st, m') && (st.tapping.tap.interrupted || Press(e))) || HeadPress(m'.buf)))
    decreases |m.buf|
  {
    if m.buf != [] {
      RetryFlagged(c, env, st, e, m);
      RetryTally(c, env, m, e);
      hide Retry, HeadVerdict, Flagged, CleanBuffer, Stays, FreshPresses;
      if Done(HeadVerdict(c, env, m)) {
        DrainFlagged(c, env, st, e, Retry(c, env, m));
      }
    }
  }

  /** The undecided key counts as interrupted exactly when a press arrived while it was
      undecided, or the oldest event behind it is a press. */
  lemma InterruptedIff(c: Config, env: Env, st: State, e: Event)
    requires Boundary(st) && FreshPresses(st.buf)
    ensures var st' := Call(c, env, st, e);
      && FreshPresses(st'.buf)
      && (Undecided(st'.tapping) ==>
            (st'.tapping.tap.interrupted
             <==> (Stays(st, st') && (st.tapping.tap.interrupted || Press(e))) || HeadPress(st'.buf)))
  {
    AcceptFlagged(c, env, st, e);
    AcceptClean(c, env, st, e);
    CallAppends(c, env, st, e);
    hide Accept, Flagged, Stays, FreshPresses;
    DrainFlagged(c, env, st, e, Accept(c, env, st, e));
  }

  // ----- Over runs -----

  lemma {:induction false} RunFreshPresses(c: Config, offers: seq<Offer>)
    ensures FreshPresses(Run(c, offers).buf)
  {
    if offers != [] {
      var n := |offers| - 1;
      RunFreshPresses(c, offers[..n]);
      RunBoundary(c, offers[..n]);
      hide Call, FreshPresses, Boundary;
      InterruptedIff(c, offers[n].env, Run(c, offers[..n]), offers[n].event);
    }
  }

  /** A key event that was offered more often than it was delivered or dropped. */
  ghost predicate Outstanding(c: Config, offers: seq<Offer>, w: Event) {
    var st := Run(c, offers);
    multiset(KeyEvents(offers))[w] > multiset(Originals(st.log))[w] + multiset(st.dropped)[w]
  }

  /** Permissive hold, over every run: while a key is undecided and the press of another one
      has been offered and not delivered, the release of that one holds the key at once. */
  lemma NestedTapHolds(c: Config, offers: seq<Offer>, o: Offer, w: Event)
    requires c.permissiveHold && Undecided(Run(c, offers).tapping)
    requires Outstanding(c, offers, w) && w.pressed && OtherRelease(Run(c, offers).tapping.event, o.event)
    requires w.key == o.event.key
    ensures var t, log := Run(c, offers).tapping, Run(c, offers).log;
      Delivers(Run(c, offers + [o]).log, |log|, Delivery(Record(t.event, Tap(t.tap.interrupted, 0)), Settled))
  {
    var st := Run(c, offers);
    RunConserves(c, offers);
    RunSnoc(c, offers, o);
    hide Run, KeyEvents, Originals, Call, Elapsed;
    assert w in multiset(Pending(st));
    assert w in Events(st.buf);
    assert PressWaits(st.buf, w.key);
    SettledOnArrival(c, o.env, st, o.event);
  }

  /** Over every run: what interrupts the undecided key. */
  lemma RunInterruptedIff(c: Config, offers: seq<Offer>, o: Offer)
    ensures var st, st' := Run(c, offers), Run(c, offers + [o]);
      Undecided(st'.tapping) ==>
        (st'.tapping.tap.interrupted
         <==> (Stays(st, st') && (st.tapping.tap.interrupted || Press(o.event))) || HeadPress(st'.buf))
  {
    RunBoundary(c, offers);
    RunFreshPresses(c, offers);
    RunSnoc(c, offers, o);
    hide Run, Call, FreshPresses, Boundary, Stays;
    InterruptedIff(c, o.env, Run(c, offers), o.event);
  }
}
