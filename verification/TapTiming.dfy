/** A key that is tapped was released within its term.  When a key is held because time ran
    out, the time did run out: the call that delivers the hold comes at least a tapping term
    after the press, in true time and not only in the 16-bit difference that the code looks
    at.  The condition is exact.  A key that becomes the tapping key over a ring of older
    events is judged by them: the difference wraps, and the key is held in the call in which
    it arrives. */
module TapTiming {
  import opened TapModel
  import opened TapLedger
  import opened TapOrder
  import opened TapProgress
  import opened TapReasons

  // ----- Clocks -----

  /** What waits is in the order of its times, behind the undecided key. */
  predicate OnClock(st: State) {
    && (forall i, j :: 0 <= i < j < |st.buf| ==> st.buf[i].event.time <= st.buf[j].event.time)
    && (Undecided(st.tapping) ==> forall i :: 0 <= i < |st.buf| ==> st.tapping.event.time <= st.buf[i].event.time)
  }

  /** Not of the future, and not so old that a clock of 16 bits comes round. */
  predicate Recent(c: Config, x: Event, e: Event) {
    x.time <= e.time && e.time + c.tappingTerm <= x.time + TIMER_PERIOD
  }

  /** Time goes on, and no event is reported again while it waits. */
  predicate Current(c: Config, st: State, e: Event) {
    && e !in Events(st.buf)
    && (forall i :: 0 <= i < |st.buf| ==> Recent(c, st.buf[i].event, e))
    && (Undecided(st.tapping) ==> Recent(c, st.tapping.event, e))
  }

  // ----- Holds -----

  predicate Hold(d: Delivery) {
    d.why.Settled? && d.rec.tap.count == 0
  }

  /** The tapping term of the key is over, or the options make it a hold by an event
      behind it. */
  ghost predicate InTime(c: Config, st: State, e: Event, x: Event) {
    || x.time + c.tappingTerm <= e.time
    || exists p, q: nat :: -1 <= p < q <= |st.buf| && KeyAt(st, e, x, p) && Optional(c, st, e, x, p, q)
  }

  /** Every hold that a call delivers is in time. */
  ghost predicate HoldsInTime(c: Config, env: Env, st: State, e: Event) {
    var log := Call(c, env, st, e).log;
    forall i :: |st.log| <= i < |log| && Hold(log[i]) ==> InTime(c, st, e, log[i].rec.event)
  }

  /** The options make the key a hold by events of the ring over which it has jumped. */
  predicate TippedOver(c: Config, env: Env, buf: seq<Record>, log: Log) {
    && buf != []
    && var r := buf[0];
       if r.event.pressed then c.holdOnOtherKeyPress
       else if Typed(buf, r.event) then c.permissiveHold
       else !env.retains(log, r) && TippedOver(c, env, buf[1..], log + [Delivery(r, Plain)])
  }

  /** The arriving key becomes the tapping key over a ring whose oldest event is older, or
      was reported in the same millisecond and decides by the options. */
  predicate HeldAtOnce(c: Config, env: Env, st: State, e: Event) {
    && c.tappingTerm > 0 && Jumps(c, env, st, e)
    && (st.buf[0].event.time < e.time || TippedOver(c, env, st.buf, Accept(c, env, st, e).log))
  }

  // ----- A reason behind the key is in time -----

  lemma WaitedInTime(c: Config, st: State, e: Event, x: Event)
    requires HeldAfter(c, st, e, x) && OnClock(st) && Current(c, st, e)
    ensures InTime(c, st, e, x)
  {
    hide Optional;
    var p: int, q: nat :| HeldAt(c, st, e, x, p, q);
    var y := Line(st, e)[q];
    assert q < |st.buf| ==> y == st.buf[q].event;
    assert 0 <= p ==> x == st.buf[p].event;
    assert x.time <= y.time <= e.time && Recent(c, x, e);
    if Late(c, x, y) {
      assert y.time < x.time + TIMER_PERIOD || c.tappingTerm == 0;
    }
  }

  // ----- A key that jumps -----

  lemma JumpAccept(c: Config, env: Env, st: State, e: Event)
    requires Jumps(c, env, st, e) && Boundary(st)
    ensures var a := Accept(c, env, st, e);
      && a.tapping == Record(e, NO_TAP) && a.buf == st.buf && st.log <= a.log
      && (!Tapped(st.tapping) ==> a.log == st.log)
      && forall i :: |st.log| <= i < |a.log| ==> a.log[i].why.Synthetic?
  {
    var r := Record(e, NO_TAP);
    var v := Decide(c, env, st.tapping, st.buf, st.log, r);
    assert v.Begin? || v.Replace?;
    assert FindTapEnd(c, r, st.buf) == |st.buf|;
  }

  /** An older head settles it at once. */
  lemma JumpOlder(c: Config, env: Env, st: State, e: Event)
    requires st.tapping == Record(e, NO_TAP) && Undecided(st.tapping) && st.buf != []
    requires st.buf[0].event.time < e.time && Recent(c, st.buf[0].event, e)
    ensures Drain(c, env, st) == st.(tapping := NO_RECORD, log := st.log + [Delivery(Record(e, NO_TAP), Settled)])
  {
    var h := st.buf[0].event;
    assert (h.time - e.time) % TIMER_PERIOD == TIMER_PERIOD + h.time - e.time;
    HoldOnRetry(c, env, st);
  }

  predicate HoldOf(e: Event, d: Delivery) {
    Hold(d) && d.rec.event == e
  }

  predicate SameTime(buf: seq<Record>, e: Event) {
    forall i :: 0 <= i < |buf| ==> IsEvent(buf[i].event) && buf[i].event.time == e.time
  }

  predicate NoTapEnd(c: Config, t: Record, buf: seq<Record>) {
    forall i :: 0 <= i < |buf| ==> !EndsTap(c, t, buf[i])
  }

  /** Events of the same millisecond settle it only as the options have it. */
  lemma {:induction false} JumpDrain(c: Config, env: Env, st: State, e: Event)
    requires st.tapping == Record(e, NO_TAP) && Undecided(st.tapping) && c.tappingTerm > 0
    requires SameTime(st.buf, e) && NoTapEnd(c, st.tapping, st.buf)
    ensures var st' := Drain(c, env, st);
      && st.log <= st'.log
      && if TippedOver(c, env, st.buf, st.log)
         then |st'.log| > |st.log| && HoldOf(e, st'.log[|st'.log| - 1])
         else forall i :: |st.log| <= i < |st'.log| ==> !Hold(st'.log[i])
    decreases |st.buf|
  {
    if st.buf != [] {
      JumpTurn(c, env, st, e);
      var v := HeadVerdict(c, env, st);
      if Done(v) {
        JumpDrain(c, env, Retry(c, env, st), e);
      }
    }
  }

  lemma JumpTurn(c: Config, env: Env, st: State, e: Event)
    requires st.tapping == Record(e, NO_TAP) && Undecided(st.tapping) && c.tappingTerm > 0
    requires SameTime(st.buf, e) && NoTapEnd(c, st.tapping, st.buf) && st.buf != []
    ensures var r, v, st' := st.buf[0], HeadVerdict(c, env, st), Retry(c, env, st);
      var held := if r.event.pressed then c.holdOnOtherKeyPress else Typed(st.buf, r.event) && c.permissiveHold;
      && (Done(v) <==> !r.event.pressed && !Typed(st.buf, r.event) && !env.retains(st.log, r))
      && (Done(v) ==> st' == st.(buf := st.buf[1..], log := st.log + [Delivery(r, Plain)]))
      && (!Done(v) ==>
            && st.log <= st'.log
            && if held then |st'.log| == |st.log| + 1 && HoldOf(e, st'.log[|st.log|]) else st'.log == st.log)
  {
    var r := st.buf[0];
    assert Elapsed(r.event.time, e.time) == 0;
    assert !EndsTap(c, st.tapping, r);
    hide Typed;
  }

  /** The arriving key stands at the end of the line, and nowhere else. */
  lemma StandsLast(env: Env, st: State, e: Event)
    requires Takes(env, st, e) && e !in Events(st.buf)
    ensures forall p: int :: KeyAt(st, e, e, p) ==> p == |st.buf|
  {
    assert forall p :: 0 <= p < |st.buf| ==> Line(st, e)[p] == Events(st.buf)[p];
  }

  /** In the call in which it arrives, a key that jumped is held too early. */
  lemma HeldTooEarly(c: Config, env: Env, st: State, e: Event)
    requires Takes(env, st, e) && e !in Events(st.buf) && c.tappingTerm > 0
    ensures !InTime(c, st, e, e)
  {
    hide Optional;
    StandsLast(env, st, e);
  }

  lemma JumpHolds(c: Config, env: Env, st: State, e: Event)
    requires Jumps(c, env, st, e) && Boundary(st) && OnClock(st) && Current(c, st, e)
    requires c.tappingTerm > 0
    ensures HoldsInTime(c, env, st, e) <==> !HeldAtOnce(c, env, st, e)
  {
    JumpAccept(c, env, st, e);
    HeldTooEarly(c, env, st, e);
    var a, log := Accept(c, env, st, e), Call(c, env, st, e).log;
    assert NoTapEnd(c, a.tapping, a.buf);
    hide Jumps, InTime, Accept, TippedOver, NoTapEnd, Drain;
    if st.buf[0].event.time < e.time {
      JumpOlder(c, env, a, e);
      assert Hold(log[|a.log|]);
    } else {
      assert SameTime(a.buf, e);
      JumpDrain(c, env, a, e);
      if TippedOver(c, env, a.buf, a.log) {
        assert Hold(log[|log| - 1]);
      }
    }
  }

  lemma NoJumpHolds(c: Config, env: Env, st: State, e: Event)
    requires Prompted(c, st) && Boundary(st) && OnClock(st) && Current(c, st, e)
    requires c.tappingTerm == 0 || !Jumps(c, env, st, e)
    ensures HoldsInTime(c, env, st, e)
  {
    CallReasons(c, env, st, e);
    hide Call, HeldAfter, Jumps, OnClock, Current, Optional;
    var log := Call(c, env, st, e).log;
    forall i | |st.log| <= i < |log| && Hold(log[i])
      ensures InTime(c, st, e, log[i].rec.event)
    {
      assert SettledWhy(c, env, st, e, log[i].rec);
      if HeldAfter(c, st, e, log[i].rec.event) {
        WaitedInTime(c, st, e, log[i].rec.event);
      }
    }
  }

  /** A call delivers holds that are in time only, if and only if no key is held at once. */
  lemma CallHoldsInTime(c: Config, env: Env, st: State, e: Event)
    requires Prompted(c, st) && Boundary(st) && OnClock(st) && Current(c, st, e)
    ensures HoldsInTime(c, env, st, e) <==> !HeldAtOnce(c, env, st, e)
  {
    if c.tappingTerm > 0 && Jumps(c, env, st, e) {
      JumpHolds(c, env, st, e);
    } else {
      NoJumpHolds(c, env, st, e);
    }
  }

  /** A key is tapped because its own release, behind it, came before the term was over. */
  ghost predicate ReleasedInTime(c: Config, st: State, e: Event, x: Event) {
    exists p, q: nat :: -1 <= p < q <= |st.buf| && KeyAt(st, e, x, p) && Releases(c, x, Line(st, e)[q])
  }

  predicate Releases(c: Config, x: Event, y: Event) {
    IsEvent(y) && y.key == x.key && !y.pressed && x.time <= y.time < x.time + c.tappingTerm
  }

  lemma TappedInTime(c: Config, st: State, e: Event, x: Event)
    requires TappedAfter(c, st, e, x) && OnClock(st) && Current(c, st, e)
    ensures ReleasedInTime(c, st, e, x)
  {
    var p: int, q: nat :| TappedAt(c, st, e, x, p, q);
    var y := Line(st, e)[q];
    assert q < |st.buf| ==> y == st.buf[q].event;
    assert 0 <= p ==> x == st.buf[p].event;
    assert x.time <= y.time <= e.time && Recent(c, x, e);
    assert Releases(c, x, y);
  }

  predicate SettledTap(d: Delivery) {
    d.why.Settled? && d.rec.tap.count != 0
  }

  /** Every tap that a call delivers is in time. */
  ghost predicate TapsInTime(c: Config, env: Env, st: State, e: Event) {
    var log := Call(c, env, st, e).log;
    forall i :: |st.log| <= i < |log| && SettledTap(log[i]) ==> ReleasedInTime(c, st, e, log[i].rec.event)
  }

  /** The arriving key becomes the tapping key, and a release of an earlier press makes it
      a tap. */
  predicate TappedAtOnce(c: Config, env: Env, st: State, e: Event) {
    && Takes(env, st, e)
    && exists q :: 0 <= q < |st.buf| && EndsTap(c, Record(e, NO_TAP), st.buf[q])
  }

  /** The release that it takes stands before it, not behind. */
  lemma TappedTooEarly(c: Config, env: Env, st: State, e: Event)
    requires Takes(env, st, e) && e !in Events(st.buf)
    ensures !ReleasedInTime(c, st, e, e)
  {
    hide Releases;
    StandsLast(env, st, e);
  }

  lemma TapAccepted(c: Config, env: Env, st: State, e: Event)
    requires TappedAtOnce(c, env, st, e) && Boundary(st)
    ensures var log := Accept(c, env, st, e).log;
      |log| > |st.log| && SettledTap(log[|log| - 1]) && log[|log| - 1].rec.event == e
  {
    var v := Decide(c, env, st.tapping, st.buf, st.log, Record(e, NO_TAP));
    assert v.Begin? || v.Replace?;
    assert FindTapEnd(c, Record(e, NO_TAP), st.buf) < |st.buf|;
  }

  /** A call delivers only taps whose own release comes behind them, within the term in true
      time, if and only if no key takes a release that waits already. */
  lemma CallTapsInTime(c: Config, env: Env, st: State, e: Event)
    requires Prompted(c, st) && Boundary(st) && OnClock(st) && Current(c, st, e)
    ensures TapsInTime(c, env, st, e) <==> !TappedAtOnce(c, env, st, e)
  {
    var a, log := Accept(c, env, st, e).log, Call(c, env, st, e).log;
    if TappedAtOnce(c, env, st, e) {
      TapAccepted(c, env, st, e);
      CallAppends(c, env, st, e);
      TappedTooEarly(c, env, st, e);
      hide Accept, Call, ReleasedInTime, TappedAtOnce;
      assert SettledTap(log[|a| - 1]) && log[|a| - 1].rec.event == e;
    } else {
      NoneTappedAtOnce(c, env, st, e);
    }
  }

  lemma NoneTappedAtOnce(c: Config, env: Env, st: State, e: Event)
    requires Prompted(c, st) && Boundary(st) && OnClock(st) && Current(c, st, e)
    requires !TappedAtOnce(c, env, st, e)
    ensures TapsInTime(c, env, st, e)
  {
    CallReasons(c, env, st, e);
    hide Call, HeldAfter, HeldOver, TappedAfter, OnClock, Current, ReleasedInTime, OfferOk, EndsTap;
    var log := Call(c, env, st, e).log;
    forall i | |st.log| <= i < |log| && SettledTap(log[i])
      ensures ReleasedInTime(c, st, e, log[i].rec.event)
    {
      assert SettledWhy(c, env, st, e, log[i].rec);
      TappedInTime(c, st, e, log[i].rec.event);
    }
  }

  // ----- Over runs -----

  lemma {:induction false} DrainMidway(c: Config, env: Env, st0: State, e: Event, st: State,
                                       m: nat, end: nat, p: int) returns (m': nat, p': int)
    requires Midway(c, env, st0, e, st, m, end, p)
    ensures Midway(c, env, st0, e, Drain(c, env, st), m', end, p')
    decreases |st.buf|
  {
    m', p' := m, p;
    if st.buf != [] {
      hide Midway, HeadVerdict, Retry;
      TurnMidway(c, env, st0, e, st, m, end, p);
      var v := HeadVerdict(c, env, st);
      m', p' := if Done(v) then m + 1 else m, NextPlace(v, m, p);
      if Done(v) {
        m', p' := DrainMidway(c, env, st0, e, Retry(c, env, st), m', end, p');
      }
    }
  }

  /** A state whose ring is a part of a line in order of time, behind its undecided key. */
  lemma PlacedOnClock(c: Config, env: Env, st0: State, e: Event, st: State, m: nat, end: nat, p: int)
    requires Midway(c, env, st0, e, st, m, end, p) && OnClock(st0) && Current(c, st0, e)
    requires Jumps(c, env, st0, e) && Undecided(st.tapping) && st.buf != [] ==> st0.buf[0].event.time == e.time
    ensures OnClock(st)
  {
    hide Jumps, PressLast;
    var line := Line(st0, e);
    forall i: nat, j: nat | i < j < |line|
      ensures line[i].time <= line[j].time
    {
      assert line[i] == st0.buf[i].event && (j < |st0.buf| ==> line[j] == st0.buf[j].event);
    }
    forall i: nat | i < |st.buf|
      ensures m + i < |line| && st.buf[i].event == line[m + i]
    {
      InLine(st0, e, st, m, end, i);
    }
  }

  /** A call keeps the clocks in order, whether or not it holds a key at once. */
  lemma CallOnClock(c: Config, env: Env, st: State, e: Event)
    requires Prompted(c, st) && Boundary(st) && OnClock(st) && Current(c, st, e)
    ensures OnClock(Call(c, env, st, e))
  {
    var a := Accept(c, env, st, e);
    if Jumps(c, env, st, e) {
      JumpAccept(c, env, st, e);
      if st.buf[0].event.time < e.time {
        JumpOlder(c, env, a, e);
        return;
      }
    }
    var end, p := ArrivalMidway(c, env, st, e);
    hide Jumps, Accept, Drain, Prompted, Boundary, Midway;
    var m', p' := DrainMidway(c, env, st, e, a, 0, end, p);
    assert Jumps(c, env, st, e) ==> Recent(c, st.buf[0].event, e);
    PlacedOnClock(c, env, st, e, Drain(c, env, a), m', end, p');
  }

  /** Time goes on, no event waits for a period of the timer, and none is reported again
      while it waits. */
  predicate Punctual(c: Config, offers: seq<Offer>) {
    offers != [] ==>
      var n := |offers| - 1;
      Punctual(c, offers[..n]) && Current(c, Run(c, offers[..n]), offers[n].event)
  }

  lemma {:induction false} RunOnClock(c: Config, offers: seq<Offer>)
    requires Punctual(c, offers)
    ensures OnClock(Run(c, offers))
  {
    if offers != [] {
      var n := |offers| - 1;
      RunOnClock(c, offers[..n]);
      RunPrompted(c, offers[..n]);
      RunBoundary(c, offers[..n]);
      hide OnClock, Current, Call, Prompted, Boundary;
      CallOnClock(c, offers[n].env, Run(c, offers[..n]), offers[n].event);
    }
  }

  lemma {:induction false} PunctualBefore(c: Config, offers: seq<Offer>, n: nat)
    requires Punctual(c, offers) && n < |offers|
    ensures Punctual(c, offers[..n])
    ensures Current(c, Run(c, offers[..n]), offers[n].event)
  {
    var m := |offers| - 1;
    hide Run, Current;
    if n < m {
      PunctualBefore(c, offers[..m], n);
      assert offers[..m][..n] == offers[..n];
    }
  }

  /** Over a run every call delivers only holds that are in time, if and only if no offer
      meets the condition. */
  lemma RunHoldsInTime(c: Config, offers: seq<Offer>)
    requires Punctual(c, offers)
    ensures (forall n :: 0 <= n < |offers| ==>
               HoldsInTime(c, offers[n].env, Run(c, offers[..n]), offers[n].event))
       <==> (forall n :: 0 <= n < |offers| ==>
               !HeldAtOnce(c, offers[n].env, Run(c, offers[..n]), offers[n].event))
  {
    hide Run, Punctual, HoldsInTime, HeldAtOnce, Prompted, Boundary, OnClock, Current;
    forall n | 0 <= n < |offers|
      ensures HoldsInTime(c, offers[n].env, Run(c, offers[..n]), offers[n].event)
         <==> !HeldAtOnce(c, offers[n].env, Run(c, offers[..n]), offers[n].event)
    {
      PunctualBefore(c, offers, n);
      RunOnClock(c, offers[..n]);
      RunPrompted(c, offers[..n]);
      RunBoundary(c, offers[..n]);
      CallHoldsInTime(c, offers[n].env, Run(c, offers[..n]), offers[n].event);
    }
  }

  // ----- Where the condition fails -----

  lemma PunctualSnoc(c: Config, offers: seq<Offer>, o: Offer)
    requires Punctual(c, offers) && Current(c, Run(c, offers), o.event)
    ensures Punctual(c, offers + [o])
  {
    assert (offers + [o])[..|offers|] == offers;
  }

  lemma ThreePunctual()
    ensures var o := (e: Event) => Offer(TapKeys(), e);
      Punctual(DEFAULTS, [o(At(T, 0, true)), o(At(U, 10, true)), o(At(A, 215, true))])
  {
    assert Run(DEFAULTS, []) == INITIAL;
    hide Run, Lane;
    var c, env := DEFAULTS, TapKeys();
    var o0, o1, o2 := Offer(env, At(T, 0, true)), Offer(env, At(U, 10, true)), Offer(env, At(A, 215, true));
    PunctualSnoc(c, [], o0);
    OnePressed();
    PunctualSnoc(c, [o0], o1);
    TwoPressed();
    PunctualSnoc(c, [o0, o1], o2);
    assert [] + [o0] == [o0] && [o0] + [o1] == [o0, o1] && [o0, o1] + [o2] == [o0, o1, o2];
  }

  /** Two dual-role keys and an ordinary one leave that one waiting behind nothing.  A
      third dual-role key goes down a millisecond later and is held in the same call,
      although its term has just begun and no other key was pressed since. */
  lemma HeldOnArrival()
    ensures var o := (e: Event) => Offer(TapKeys(), e);
      var offers := [o(At(T, 0, true)), o(At(U, 10, true)), o(At(A, 215, true))];
      var st, k := Run(DEFAULTS, offers), At(K, 216, true);
      && Punctual(DEFAULTS, offers + [o(k)])
      && HeldAtOnce(DEFAULTS, TapKeys(), st, k)
      && |st.log| == 2
      && Run(DEFAULTS, offers + [o(k)]).log == st.log + [Delivery(Plainly(k), Settled)]
  {
    hide Run, Call;
    var c, env, k := DEFAULTS, TapKeys(), At(K, 216, true);
    var two := [Offer(env, At(T, 0, true)), Offer(env, At(U, 10, true))];
    var o2, o3 := Offer(env, At(A, 215, true)), Offer(env, k);
    TwoPressed();
    LatePress(Run(c, two));
    RunSnoc(c, two, o2);
    assert two + [o2] == [two[0], two[1], o2];
    var st := Run(c, two + [o2]);
    RunSnoc(c, two + [o2], o3);
    ThirdPress(st);
    ThreePunctual();
    PunctualSnoc(c, two + [o2], o3);
  }

  lemma ThirdPress(st: State)
    requires st.tapping == NO_RECORD && st.buf == [Plainly(At(A, 215, true))]
    ensures var c, env, k := DEFAULTS, TapKeys(), At(K, 216, true);
      && Current(c, st, k) && OfferOk(c, st, k) && HeldAtOnce(c, env, st, k)
      && Call(c, env, st, k).log == st.log + [Delivery(Plainly(k), Settled)]
  {
    var c, env, k := DEFAULTS, TapKeys(), At(K, 216, true);
    assert Events(st.buf) == [At(A, 215, true)];
    LaneOne(K, At(A, 215, true));
    hide Lane;
    JumpAccept(c, env, st, k);
    JumpOlder(c, env, Accept(c, env, st, k), k);
  }
}
