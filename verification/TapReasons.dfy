/** Every decision has its reason among the events of the run.  A key is held because of
    an event behind it: one that comes too late for a tap, or, as the options have it, the
    press or the tap of another key.  It is tapped because of its own release behind it.
    The exceptions are named: a key that arrives over a ring of older events and is
    judged by them, and a keyboard that reports two presses of a key in a row. */
module TapReasons {
  import opened TapModel
  import opened TapLedger
  import opened TapOrder
  import opened TapDecisions
  import opened TapProgress

  // ----- The events that a call has to go by -----

  /** The events in the ring, oldest first, and the one that arrives. */
  function Line(st: State, e: Event): seq<Event> {
    Events(st.buf) + [e]
  }

  /** Where a key stands: at a place of the line, or before it (-1) when it is the
      undecided tapping key already. */
  predicate KeyAt(st: State, e: Event, x: Event, p: int) {
    if p < 0 then p == -1 && Undecided(st.tapping) && st.tapping.event == x
    else p <= |st.buf| && Line(st, e)[p] == x
  }

  predicate Late(c: Config, x: Event, e: Event) {
    Elapsed(e.time, x.time) >= c.tappingTerm
  }

  /** The last event offered of its key. */
  predicate LastOffered(st: State, x: Event) {
    var l := Lane(x.key, st.input);
    l != [] && l[|l| - 1] == x
  }

  /** The options make key `x` a hold: by the release of another key whose press waits
      behind place `p`, or by the press of another key, or of the same key if the keyboard
      reports it pressed twice in a row. */
  predicate Optional(c: Config, st: State, e: Event, x: Event, p: int, q: nat)
    requires q <= |st.buf|
  {
    var line := Line(st, e);
    var y := line[q];
    || (c.permissiveHold && IsEvent(y) && !y.pressed && y.key != x.key && PressBehind(line, y.key, p))
    || (c.holdOnOtherKeyPress && IsEvent(y) && y.pressed && (y.key != x.key || (q == |st.buf| && LastOffered(st, x))))
  }

  predicate PressBehind(line: seq<Event>, k: KeyPos, p: int) {
    exists w :: 0 <= w < |line| && p < w && line[w].key == k && line[w].pressed
  }

  /** An arriving dual-role press becomes the tapping key. */
  predicate Takes(env: Env, st: State, e: Event) {
    IsEvent(e) && e.pressed && !Undecided(st.tapping) && IsTapRecord(env, st.log, Record(e, NO_TAP))
  }

  /** It does so over a ring in which older events wait, none of them a release that makes it
      a tap. */
  predicate Jumps(c: Config, env: Env, st: State, e: Event) {
    && Takes(env, st, e) && st.buf != []
    && forall i :: 0 <= i < |st.buf| ==> !EndsTap(c, Record(e, NO_TAP), st.buf[i])
  }

  // ----- Reasons -----

  predicate HeldAt(c: Config, st: State, e: Event, x: Event, p: int, q: nat) {
    && -1 <= p < q <= |st.buf| && KeyAt(st, e, x, p)
    && (Late(c, x, Line(st, e)[q]) || Optional(c, st, e, x, p, q))
  }

  /** An event behind the key makes it a hold. */
  ghost predicate HeldAfter(c: Config, st: State, e: Event, x: Event) {
    exists p, q :: HeldAt(c, st, e, x, p, q)
  }

  /** The arriving key jumped over the ring and is held because of an event in it. */
  predicate HeldOver(c: Config, env: Env, st: State, e: Event, x: Event) {
    && x == e && Jumps(c, env, st, e)
    && exists q: nat :: q < |st.buf| && (Late(c, x, st.buf[q].event) || Optional(c, st, e, x, -1, q))
  }

  predicate TappedAt(c: Config, st: State, e: Event, x: Event, p: int, q: nat) {
    && -1 <= p < q <= |st.buf| && KeyAt(st, e, x, p)
    && EndsTap(c, Record(x, NO_TAP), Record(Line(st, e)[q], NO_TAP))
  }

  /** The key's own release, behind it, makes it a tap. */
  ghost predicate TappedAfter(c: Config, st: State, e: Event, x: Event) {
    exists p, q :: TappedAt(c, st, e, x, p, q)
  }

  /** The arriving key takes a release of its own that waits already; the event was
      offered against the condition that keeps its key in order. */
  predicate TappedOver(c: Config, env: Env, st: State, e: Event, x: Event) {
    && x == e && Takes(env, st, e) && !OfferOk(c, st, e)
    && exists q :: 0 <= q < |st.buf| && EndsTap(c, Record(x, NO_TAP), st.buf[q])
  }

  ghost predicate SettledWhy(c: Config, env: Env, st: State, e: Event, r: Record) {
    && r.event.pressed && r.tap.count <= 1
    && if r.tap.count == 0 then HeldAfter(c, st, e, r.event) || HeldOver(c, env, st, e, r.event)
       else TappedAfter(c, st, e, r.event) || TappedOver(c, env, st, e, r.event)
  }

  ghost predicate SettledFrom(c: Config, env: Env, st: State, e: Event, log: Log, from: nat) {
    forall i :: from <= i < |log| && log[i].why.Settled? ==> SettledWhy(c, env, st, e, log[i].rec)
  }

  // ----- With hold-on-other-key-press no press waits between calls -----

  predicate PressFree(buf: seq<Record>) {
    forall i :: 0 <= i < |buf| ==> !buf[i].event.pressed
  }

  /** Within a call the arriving press may wait, last and behind no tapping key. */
  predicate PressLast(st: State) {
    forall i :: 0 <= i < |st.buf| && st.buf[i].event.pressed ==> i == |st.buf| - 1 && !IsEvent(st.tapping.event)
  }

  /** The undecided key is the last thing that happened to it. */
  predicate Latest(st: State) {
    Undecided(st.tapping) ==> LastOffered(st, st.tapping.event)
  }

  predicate Prompted(c: Config, st: State) {
    c.holdOnOtherKeyPress ==> PressFree(st.buf) && Latest(st)
  }

  /** What an exit leaves undecided. */
  lemma LeftUndecided(c: Config, st: State, r: Record, v: Verdict)
    requires Fits(c, st.tapping, st.buf, r, v) && Clean(r)
    ensures var t, t' := st.tapping, Apply(c, st, r, v).tapping;
      && (Undecided(t') ==>
            || ((v.Begin? || v.Restart? || v.Replace?) && t'.event == r.event)
            || ((v.Ignore? || v.Pass? || v.Wait?) && Undecided(t) && t'.event == t.event))
      && (v.SettleHold? || v.Expire? ==> t' == NO_RECORD)
      && (v.SettleTap? ==> !r.event.pressed)
      && (v.Pass? && Undecided(t) ==> r.event.key != t.event.key)
      && (v.Wait? && !r.event.pressed ==> r.event.key != t.event.key)
      && (v.Ignore? ==> !IsEvent(r.event))
      && (v.Begin? || v.Restart? || v.Replace? ==> IsEvent(r.event) && r.event.pressed)
  {
  }

  lemma TurnEvents(c: Config, env: Env, st: State)
    requires CleanBuffer(st.buf) && st.buf != []
    ensures var st', v := Retry(c, env, st), HeadVerdict(c, env, st);
      && Events(st'.buf) == (if Done(v) then Events(st.buf)[1..] else Events(st.buf))
      && st'.tapping == Apply(c, st, st.buf[0], v).tapping
  {
    var r, v := st.buf[0], HeadVerdict(c, env, st);
    DecideFits(c, env, st.tapping, st.buf, st.log, r);
    PatchKeepsEvent(st.tapping, r, v);
    hide Decide, Fits, Apply;
    ApplyFront(c, st, r, v);
    var st1 := Apply(c, st, r, v);
    assert st1.buf[0].event == Events(st1.buf)[0];
    EventsTail(st1.buf);
    EventsPatched(st1.buf, Patch(st.tapping, r, v));
  }

  /** With no tapping key at all the head of the ring is processed. */
  lemma HeadUntapped(c: Config, env: Env, st: State)
    requires !IsEvent(st.tapping.event) && st.buf != []
    ensures Done(HeadVerdict(c, env, st))
    ensures !st.buf[0].event.pressed ==> Retry(c, env, st).tapping == st.tapping
  {
  }

  /** The undecided key is the one it was, or the press that waited last. */
  predicate SameOrLast(t: Record, st: State) {
    Undecided(t) ==>
      || (Undecided(st.tapping) && t.event == st.tapping.event)
      || (st.buf != [] && st.buf[|st.buf| - 1].event.pressed && t.event == st.buf[|st.buf| - 1].event)
  }

  lemma RetryPressLast(c: Config, env: Env, st: State)
    requires PressLast(st) && CleanBuffer(st.buf) && st.buf != []
    ensures var st' := Retry(c, env, st);
      && PressLast(st') && (!Done(HeadVerdict(c, env, st)) ==> PressFree(st'.buf))
      && SameOrLast(st'.tapping, st)
      && (st'.buf != [] ==> st'.buf[|st'.buf| - 1].event == st.buf[|st.buf| - 1].event)
  {
    var r, v, st' := st.buf[0], HeadVerdict(c, env, st), Retry(c, env, st);
    DecideFits(c, env, st.tapping, st.buf, st.log, r);
    LeftUndecided(c, st, r, v);
    TurnEvents(c, env, st);
    if !IsEvent(st.tapping.event) {
      HeadUntapped(c, env, st);
    }
    hide Decide, Fits, Apply, Retry, HeadVerdict;
    assert forall i :: 0 <= i < |st'.buf| ==> st'.buf[i].event == Events(st'.buf)[i];
    assert forall i :: 0 <= i < |st.buf| ==> st.buf[i].event == Events(st.buf)[i];
  }

  lemma {:induction false} DrainPressFree(c: Config, env: Env, st: State)
    requires PressLast(st) && CleanBuffer(st.buf)
    ensures PressFree(Drain(c, env, st).buf) && SameOrLast(Drain(c, env, st).tapping, st)
    decreases |st.buf|
  {
    if st.buf != [] {
      RetryPressLast(c, env, st);
      RetryTally(c, env, st, st.buf[0].event);
      hide Retry, HeadVerdict, PressLast, PressFree, CleanBuffer;
      if Done(HeadVerdict(c, env, st)) {
        DrainPressFree(c, env, Retry(c, env, st));
      }
    }
  }

  /** What accepting an event makes of the ring. */
  lemma AcceptShape(c: Config, env: Env, st: State, e: Event)
    requires CleanBuffer(st.buf)
    ensures var v := Decide(c, env, st.tapping, st.buf, st.log, Record(e, NO_TAP));
      var st1, st' := Apply(c, Offered(st, e), Record(e, NO_TAP), v), Accept(c, env, st, e);
      && st'.log == st1.log
      && if Done(v) || !IsEvent(e) then st'.tapping == st1.tapping && Events(st'.buf) == Events(st.buf)
         else if |st.buf| == WAITING_BUFFER_SIZE - 1 then st'.tapping == NO_RECORD && st'.buf == []
         else st'.tapping == st1.tapping && Events(st'.buf) == Line(st, e)
  {
    var r := Record(e, NO_TAP);
    var v := Decide(c, env, st.tapping, st.buf, st.log, r);
    DecideFits(c, env, st.tapping, st.buf, st.log, r);
    PatchKeepsEvent(st.tapping, r, v);
    hide Decide, Fits, Apply;
    ApplyFront(c, Offered(st, e), r, v);
  }

  /** What accepting an event leaves undecided. */
  predicate AcceptedOrSame(t: Record, st: State, e: Event) {
    Undecided(t) ==>
      || (IsEvent(e) && t.event == e)
      || (Undecided(st.tapping) && t.event == st.tapping.event && (IsEvent(e) ==> e.key != t.event.key))
  }

  /** A press that queues finds or leaves no tapping key. */
  lemma AcceptUndecided(c: Config, env: Env, st: State, e: Event)
    requires c.holdOnOtherKeyPress
    ensures var v := Decide(c, env, st.tapping, st.buf, st.log, Record(e, NO_TAP));
      var t' := Apply(c, Offered(st, e), Record(e, NO_TAP), v).tapping;
      && AcceptedOrSame(t', st, e)
      && (!Done(v) && IsEvent(e) && e.pressed ==> !IsEvent(t'.event))
  {
    var r := Record(e, NO_TAP);
    var v := Decide(c, env, st.tapping, st.buf, st.log, r);
    DecideFits(c, env, st.tapping, st.buf, st.log, r);
    assert v.Wait? ==> !e.pressed;
    hide Decide, Fits, Apply;
    LeftUndecided(c, Offered(st, e), r, v);
  }

  lemma AcceptPressLast(c: Config, env: Env, st: State, e: Event)
    requires c.holdOnOtherKeyPress && PressFree(st.buf) && CleanBuffer(st.buf)
    ensures var st' := Accept(c, env, st, e);
      && PressLast(st') && AcceptedOrSame(st'.tapping, st, e)
      && (st'.buf != [] && st'.buf[|st'.buf| - 1].event.pressed ==> st'.buf[|st'.buf| - 1].event == e && IsEvent(e))
  {
    AcceptShape(c, env, st, e);
    AcceptUndecided(c, env, st, e);
    hide Decide, Apply, Accept;
    var st' := Accept(c, env, st, e);
    assert forall i :: 0 <= i < |st'.buf| ==> st'.buf[i].event == Events(st'.buf)[i];
    assert forall i :: 0 <= i < |st.buf| ==> st.buf[i].event == Events(st.buf)[i];
  }

  lemma CallPrompted(c: Config, env: Env, st: State, e: Event)
    requires Prompted(c, st) && Boundary(st)
    ensures Prompted(c, Call(c, env, st, e))
  {
    if c.holdOnOtherKeyPress {
      AcceptPressLast(c, env, st, e);
      AcceptClean(c, env, st, e);
      CallInput(c, env, st, e);
      var a := Accept(c, env, st, e);
      hide Accept, Lane, Drain;
      DrainPressFree(c, env, a);
      LatestAfter(st, e, Drain(c, env, a));
    }
  }

  lemma LatestAfter(st: State, e: Event, st': State)
    requires Latest(st) && st'.input == Offered(st, e).input
    requires AcceptedOrSame(st'.tapping, st, e)
    ensures Latest(st')
  {
    hide Lane;
    if Undecided(st'.tapping) {
      var k := st'.tapping.event.key;
      LaneConcat(k, st.input, [e]);
      LaneOne(k, e);
      assert Lane(k, st.input) + [] == Lane(k, st.input);
    }
  }

  lemma {:induction false} RunPrompted(c: Config, offers: seq<Offer>)
    ensures Prompted(c, Run(c, offers))
  {
    if offers != [] {
      var n := |offers| - 1;
      RunPrompted(c, offers[..n]);
      RunBoundary(c, offers[..n]);
      hide Prompted, Call, Boundary;
      CallPrompted(c, offers[n].env, Run(c, offers[..n]), offers[n].event);
    }
  }

  // ----- One turn -----

  /** In the middle of a call on `st0`: the ring holds the line from `m` up to `end`, and
      an undecided key stands before it at `p`, or has jumped over it. */
  predicate Midway(c: Config, env: Env, st0: State, e: Event, st: State, m: nat, end: nat, p: int) {
    && m <= end <= |st0.buf| + 1 && Events(st.buf) == Line(st0, e)[m..end] && CleanBuffer(st.buf)
    && (c.holdOnOtherKeyPress ==> PressLast(st))
    && (Undecided(st.tapping) && st.buf != [] ==> Placed(c, env, st0, e, st.tapping.event, m, end, p))
  }

  predicate Placed(c: Config, env: Env, st0: State, e: Event, x: Event, m: nat, end: nat, p: int) {
    && -1 <= p && KeyAt(st0, e, x, p)
    && (p < m || (p == end == |st0.buf| && Jumps(c, env, st0, e)))
  }

  lemma InLine(st0: State, e: Event, st: State, m: nat, end: nat, i: nat)
    requires m <= end <= |st0.buf| + 1 && Events(st.buf) == Line(st0, e)[m..end] && i < |st.buf|
    ensures m + i < end && Line(st0, e)[m + i] == st.buf[i].event
    ensures m + i < |st0.buf| ==> st0.buf[m + i].event == st.buf[i].event
  {
    assert Events(st.buf)[i] == st.buf[i].event;
  }

  /** Why the head of the ring settles the undecided key as a hold. */
  lemma HeadHolds(c: Config, env: Env, st0: State, e: Event, st: State, m: nat, end: nat, p: int)
    requires Midway(c, env, st0, e, st, m, end, p) && st.buf != [] && HeadVerdict(c, env, st).SettleHold?
    ensures var x := st.tapping.event;
      HeldAfter(c, st0, e, x) || HeldOver(c, env, st0, e, x)
  {
    var t, r, line := st.tapping, st.buf[0], Line(st0, e);
    var x := t.event;
    DecideFits(c, env, t, st.buf, st.log, r);
    InLine(st0, e, st, m, end, 0);
    if WithinTerm(c, r.event, t) && !r.event.pressed {
      assert r.event.key != x.key;
      var i: nat :| i < |st.buf| && st.buf[i].event.key == r.event.key && st.buf[i].event.pressed;
      InLine(st0, e, st, m, end, i);
      assert m + i >= 0 && line[m + i].pressed;
      assert p < m ==> PressBehind(line, r.event.key, p);
      assert PressBehind(line, r.event.key, -1);
    }
    hide Decide, Elapsed, Lane, OfferOk, Jumps;
    if p < m {
      assert HeldAt(c, st0, e, x, p, m);
    } else {
      assert st0.buf[m].event == r.event;
    }
  }

  lemma HeadTaps(c: Config, env: Env, st0: State, e: Event, st: State, m: nat, end: nat, p: int)
    requires Midway(c, env, st0, e, st, m, end, p) && st.buf != [] && HeadVerdict(c, env, st).SettleTap?
    ensures TappedAfter(c, st0, e, st.tapping.event)
  {
    var t, r := st.tapping, st.buf[0];
    DecideFits(c, env, t, st.buf, st.log, r);
    InLine(st0, e, st, m, end, 0);
    hide Decide, Elapsed, Lane, OfferOk;
    assert EndsTap(c, Record(t.event, NO_TAP), Record(r.event, NO_TAP));
    assert p < m;
    assert TappedAt(c, st0, e, t.event, p, m);
  }

  /** A head that becomes the tapping key is tapped by a release behind it. */
  lemma HeadScans(c: Config, env: Env, st0: State, e: Event, st: State, m: nat, end: nat, r: Record)
    requires m <= end <= |st0.buf| + 1 && Events(st.buf) == Line(st0, e)[m..end]
    requires st.buf != [] && r == st.buf[0] && Undecided(r)
    requires FindTapEnd(c, r, st.buf) < |st.buf|
    ensures TappedAfter(c, st0, e, r.event)
  {
    var i := FindTapEnd(c, r, st.buf);
    InLine(st0, e, st, m, end, 0);
    InLine(st0, e, st, m, end, i);
    hide Elapsed, Lane, OfferOk;
    assert i > 0;
    assert TappedAt(c, st0, e, r.event, m, m + i);
  }

  lemma SettledAppend(c: Config, env: Env, st0: State, e: Event, log: Log, from: nat, d: Delivery)
    requires SettledFrom(c, env, st0, e, log, from)
    requires d.why.Settled? ==> SettledWhy(c, env, st0, e, d.rec)
    ensures SettledFrom(c, env, st0, e, log + [d], from)
  {
  }

  /** A new tapping key, settled at once if its release waits. */
  lemma TakeReasons(c: Config, env: Env, st0: State, e: Event, st: State, from: nat, r: Record, v: Verdict)
    requires SettledFrom(c, env, st0, e, st.log, from)
    requires (v.Begin? || v.Replace?) && r.event.pressed && r.tap.count == 0
    requires FindTapEnd(c, r, st.buf) < |st.buf| ==>
      TappedAfter(c, st0, e, r.event) || TappedOver(c, env, st0, e, r.event)
    ensures SettledFrom(c, env, st0, e, Apply(c, st, r, v).log, from)
  {
    hide HeldAfter, HeldOver, TappedAfter, TappedOver;
    var t, log := st.tapping, st.log;
    if v.Replace? && t.tap.count > 1 {
      var d := Delivery(SyntheticRelease(t, r.event), Synthetic);
      SettledAppend(c, env, st0, e, log, from, d);
      log := log + [d];
    }
    var d := Delivery(r.(tap := r.tap.(count := 1)), Settled);
    if FindTapEnd(c, r, st.buf) < |st.buf| {
      SettledAppend(c, env, st0, e, log, from, d);
    }
  }

  /** The exits that settle the tapping key, and those that settle nothing. */
  lemma SettleReasons(c: Config, env: Env, st0: State, e: Event, st: State, from: nat, r: Record, v: Verdict)
    requires SettledFrom(c, env, st0, e, st.log, from) && !v.Begin? && !v.Replace?
    requires v.SettleHold? || v.SettleTap? ==> Undecided(st.tapping)
    requires var x := st.tapping.event;
      && (v.SettleHold? ==> HeldAfter(c, st0, e, x) || HeldOver(c, env, st0, e, x))
      && (v.SettleTap? ==> TappedAfter(c, st0, e, x) || TappedOver(c, env, st0, e, x))
    ensures SettledFrom(c, env, st0, e, Apply(c, st, r, v).log, from)
  {
    hide HeldAfter, HeldOver, TappedAfter, TappedOver;
    var st' := Apply(c, st, r, v);
    if st'.log != st.log {
      var d := st'.log[|st.log|];
      assert st'.log == st.log + [d];
      SettledAppend(c, env, st0, e, st.log, from, d);
    }
  }

  /** One turn finds its reasons in the line. */
  lemma TurnReasons(c: Config, env: Env, st0: State, e: Event, st: State, m: nat, end: nat, p: int, from: nat)
    requires Midway(c, env, st0, e, st, m, end, p) && st.buf != []
    requires SettledFrom(c, env, st0, e, st.log, from)
    ensures SettledFrom(c, env, st0, e, Retry(c, env, st).log, from)
  {
    var r, v := st.buf[0], HeadVerdict(c, env, st);
    DecideFits(c, env, st.tapping, st.buf, st.log, r);
    if v.SettleHold? {
      HeadHolds(c, env, st0, e, st, m, end, p);
    } else if v.SettleTap? {
      HeadTaps(c, env, st0, e, st, m, end, p);
    } else if (v.Begin? || v.Replace?) && FindTapEnd(c, r, st.buf) < |st.buf| {
      HeadScans(c, env, st0, e, st, m, end, r);
    }
    hide Decide, Apply, SettledFrom, HeldAfter, HeldOver, TappedAfter, TappedOver;
    if v.Begin? || v.Replace? {
      TakeReasons(c, env, st0, e, st, from, r, v);
    } else {
      SettleReasons(c, env, st0, e, st, from, r, v);
    }
  }

  /** Where the undecided key stands after a turn. */
  function NextPlace(v: Verdict, m: nat, p: int): int {
    if v.Begin? || v.Restart? || v.Replace? then m else p
  }

  lemma TurnMidway(c: Config, env: Env, st0: State, e: Event, st: State, m: nat, end: nat, p: int)
    requires Midway(c, env, st0, e, st, m, end, p) && st.buf != []
    ensures var v := HeadVerdict(c, env, st);
      && (Done(v) ==> m < end)
      && Midway(c, env, st0, e, Retry(c, env, st), if Done(v) then m + 1 else m, end, NextPlace(v, m, p))
  {
    var r, v := st.buf[0], HeadVerdict(c, env, st);
    DecideFits(c, env, st.tapping, st.buf, st.log, r);
    LeftUndecided(c, st, r, v);
    RetryTally(c, env, st, r.event);
    if c.holdOnOtherKeyPress {
      RetryPressLast(c, env, st);
    }
    InLine(st0, e, st, m, end, 0);
    TurnEvents(c, env, st);
    hide Decide, Fits, Apply, Jumps, PressLast, CleanBuffer;
    var st' := Retry(c, env, st);
    assert Line(st0, e)[m..end][1..] == Line(st0, e)[m + 1..end];
  }

  lemma {:induction false} DrainReasons(c: Config, env: Env, st0: State, e: Event, st: State,
                                        m: nat, end: nat, p: int, from: nat)
    requires Midway(c, env, st0, e, st, m, end, p) && SettledFrom(c, env, st0, e, st.log, from)
    ensures SettledFrom(c, env, st0, e, Drain(c, env, st).log, from)
    decreases |st.buf|
  {
    if st.buf != [] {
      hide Midway, SettledFrom, HeadVerdict, Retry;
      TurnReasons(c, env, st0, e, st, m, end, p, from);
      TurnMidway(c, env, st0, e, st, m, end, p);
      var v := HeadVerdict(c, env, st);
      if Done(v) {
        DrainReasons(c, env, st0, e, Retry(c, env, st), m + 1, end, NextPlace(v, m, p), from);
      }
    }
  }

  // ----- The event that arrives -----

  lemma ArrivalHolds(c: Config, env: Env, st: State, e: Event)
    requires Prompted(c, st)
    requires Decide(c, env, st.tapping, st.buf, st.log, Record(e, NO_TAP)).SettleHold?
    ensures HeldAfter(c, st, e, st.tapping.event)
  {
    var t, line := st.tapping, Line(st, e);
    var x := t.event;
    DecideFits(c, env, t, st.buf, st.log, Record(e, NO_TAP));
    if WithinTerm(c, e, t) && !e.pressed {
      assert e.key != x.key;
      var i :| 0 <= i < |st.buf| && st.buf[i].event.key == e.key && st.buf[i].event.pressed;
      assert line[i] == st.buf[i].event;
      assert PressBehind(line, e.key, -1);
    }
    hide Decide, Elapsed, LastOffered, PressBehind;
    assert HeldAt(c, st, e, x, -1, |st.buf|);
  }

  lemma ArrivalTaps(c: Config, env: Env, st: State, e: Event)
    requires Decide(c, env, st.tapping, st.buf, st.log, Record(e, NO_TAP)).SettleTap?
    ensures TappedAfter(c, st, e, st.tapping.event)
  {
    DecideFits(c, env, st.tapping, st.buf, st.log, Record(e, NO_TAP));
    hide Decide, Elapsed;
    assert TappedAt(c, st, e, st.tapping.event, -1, |st.buf|);
  }

  /** An arriving key finds a release that waits only when it should not have been
      processed yet. */
  lemma ArrivalScans(c: Config, env: Env, st: State, e: Event)
    requires var v := Decide(c, env, st.tapping, st.buf, st.log, Record(e, NO_TAP)); v.Begin? || v.Replace?
    requires FindTapEnd(c, Record(e, NO_TAP), st.buf) < |st.buf|
    ensures TappedOver(c, env, st, e, e)
  {
    var i := FindTapEnd(c, Record(e, NO_TAP), st.buf);
    assert Events(st.buf)[i].key == e.key;
    LaneHas(e.key, Events(st.buf), i);
    QueuesIff(c, env, st, e);
    hide Elapsed;
  }

  lemma ArrivalReasons(c: Config, env: Env, st: State, e: Event)
    requires Prompted(c, st)
    ensures SettledFrom(c, env, st, e, Accept(c, env, st, e).log, |st.log|)
  {
    var st0, r := Offered(st, e), Record(e, NO_TAP);
    var v := Decide(c, env, st.tapping, st.buf, st.log, r);
    DecideFits(c, env, st.tapping, st.buf, st.log, r);
    if v.SettleHold? {
      ArrivalHolds(c, env, st, e);
    } else if v.SettleTap? {
      ArrivalTaps(c, env, st, e);
    } else if (v.Begin? || v.Replace?) && FindTapEnd(c, r, st.buf) < |st.buf| {
      ArrivalScans(c, env, st, e);
    }
    assert SettledFrom(c, env, st, e, st0.log, |st.log|);
    hide Decide, Apply, SettledFrom, HeldAfter, HeldOver, TappedAfter, TappedOver;
    if v.Begin? || v.Replace? {
      TakeReasons(c, env, st, e, st0, |st.log|, r, v);
    } else {
      SettleReasons(c, env, st, e, st0, |st.log|, r, v);
    }
  }

  /** An arriving key that stays undecided over a ring has jumped. */
  lemma ArrivalJumps(c: Config, env: Env, st: State, e: Event)
    requires Boundary(st) && st.buf != []
    requires var v := Decide(c, env, st.tapping, st.buf, st.log, Record(e, NO_TAP));
      && (v.Begin? || v.Restart? || v.Replace?)
      && Undecided(Apply(c, Offered(st, e), Record(e, NO_TAP), v).tapping)
    ensures Jumps(c, env, st, e)
  {
    DecideFits(c, env, st.tapping, st.buf, st.log, Record(e, NO_TAP));
    assert FindTapEnd(c, Record(e, NO_TAP), st.buf) == |st.buf|;
  }

  lemma ArrivalMidway(c: Config, env: Env, st: State, e: Event) returns (end: nat, p: int)
    requires Prompted(c, st) && Boundary(st)
    ensures Midway(c, env, st, e, Accept(c, env, st, e), 0, end, p)
  {
    var r := Record(e, NO_TAP);
    var v := Decide(c, env, st.tapping, st.buf, st.log, r);
    var st', line := Accept(c, env, st, e), Line(st, e);
    DecideFits(c, env, st.tapping, st.buf, st.log, r);
    LeftUndecided(c, Offered(st, e), r, v);
    AcceptShape(c, env, st, e);
    AcceptClean(c, env, st, e);
    if c.holdOnOtherKeyPress {
      AcceptPressLast(c, env, st, e);
    }
    end := |st'.buf|;
    p := NextPlace(v, |st.buf|, -1);
    if st.buf != [] && p >= 0 && Undecided(st'.tapping) {
      ArrivalJumps(c, env, st, e);
    }
    hide Decide, Fits, Apply, Accept, Jumps, PressLast, Prompted;
    assert line[..|st.buf|] == Events(st.buf) && line[..|st.buf| + 1] == line;
  }

  /** Every key that a call settles has its reason. */
  lemma CallReasons(c: Config, env: Env, st: State, e: Event)
    requires Prompted(c, st) && Boundary(st)
    ensures SettledFrom(c, env, st, e, Call(c, env, st, e).log, |st.log|)
  {
    ArrivalReasons(c, env, st, e);
    var end, p := ArrivalMidway(c, env, st, e);
    hide Midway, SettledFrom, Accept, Prompted, Boundary;
    DrainReasons(c, env, st, e, Accept(c, env, st, e), 0, end, p, |st.log|);
  }

  // ----- Deliveries that settle nothing -----

  /** What is passed on undecided stands in the line, a press only if its key is not a
      dual-role key; a repetition stands there; a made-up release ends a tap because of a
      press there. */
  predicate Witnessed(env: Env, line: seq<Event>, before: Log, d: Delivery) {
    match d.why
    case Plain => d.rec.event in line && (d.rec.event.pressed ==> !IsTapRecord(env, before, d.rec))
    case Settled => true
    case Repeated(_) => d.rec.event in line
    case Synthetic => exists i :: 0 <= i < |line| && line[i].pressed && line[i].time == d.rec.event.time
  }

  predicate Drawn(waiting: seq<Record>, line: seq<Event>) {
    forall i :: 0 <= i < |waiting| ==> waiting[i].event in line
  }

  predicate WitnessedFrom(env: Env, line: seq<Event>, log: Log, from: nat) {
    forall i :: from <= i < |log| ==> Witnessed(env, line, log[..i], log[i])
  }

  lemma WitnessedAppend(env: Env, line: seq<Event>, log: Log, from: nat, d: Delivery)
    requires WitnessedFrom(env, line, log, from) && from <= |log| && Witnessed(env, line, log, d)
    ensures WitnessedFrom(env, line, log + [d], from)
  {
    var log' := log + [d];
    forall i | from <= i < |log'|
      ensures Witnessed(env, line, log'[..i], log'[i])
    {
      assert log'[..i] == if i < |log| then log[..i] else log;
    }
  }

  lemma ScanWitnessed(c: Config, env: Env, st: State, line: seq<Event>, from: nat)
    requires from <= |st.log| && WitnessedFrom(env, line, st.log, from) && Drawn(st.buf, line)
    ensures var st' := Scan(c, st);
      st.log <= st'.log && WitnessedFrom(env, line, st'.log, from) && Drawn(st'.buf, line)
  {
    var st' := Scan(c, st);
    if st'.log != st.log {
      var d := st'.log[|st.log|];
      assert st'.log == st.log + [d];
      WitnessedAppend(env, line, st.log, from, d);
    }
  }

  /** One turn of the machine, on an event of the line. */
  lemma TurnWitnessed(c: Config, env: Env, st: State, line: seq<Event>, from: nat, r: Record)
    requires from <= |st.log| && WitnessedFrom(env, line, st.log, from)
    requires r.event in line && Drawn(st.buf, line)
    ensures var st' := Apply(c, st, r, Decide(c, env, st.tapping, st.buf, st.log, r));
      st.log <= st'.log && WitnessedFrom(env, line, st'.log, from) && Drawn(st'.buf, line)
  {
    var v := Decide(c, env, st.tapping, st.buf, st.log, r);
    var st' := Apply(c, st, r, v);
    if v.Begin? {
      ScanWitnessed(c, env, st.(tapping := r), line, from);
    } else if v.Replace? {
      var log := st.log;
      if st.tapping.tap.count > 1 {
        var d := Delivery(SyntheticRelease(st.tapping, r.event), Synthetic);
        WitnessedAppend(env, line, st.log, from, d);
        log := st.log + [d];
      }
      ScanWitnessed(c, env, st.(tapping := r, log := log), line, from);
    } else if st'.log != st.log {
      var d := st'.log[|st.log|];
      assert st'.log == st.log + [d];
      WitnessedAppend(env, line, st.log, from, d);
    }
  }

  lemma {:induction false} DrainWitnessed(c: Config, env: Env, st: State, line: seq<Event>, from: nat)
    requires from <= |st.log| && WitnessedFrom(env, line, st.log, from) && Drawn(st.buf, line)
    ensures var st' := Drain(c, env, st);
      st.log <= st'.log && WitnessedFrom(env, line, st'.log, from)
    decreases |st.buf|
  {
    if st.buf != [] {
      TurnWitnessed(c, env, st, line, from, st.buf[0]);
      PatchKeepsEvent(st.tapping, st.buf[0], HeadVerdict(c, env, st));
      hide Decide, Apply, Witnessed, WitnessedFrom;
      if Done(HeadVerdict(c, env, st)) {
        DrainWitnessed(c, env, Retry(c, env, st), line, from);
      }
    }
  }

  lemma CallWitnessed(c: Config, env: Env, st: State, e: Event)
    ensures var st' := Call(c, env, st, e);
      st.log <= st'.log && WitnessedFrom(env, Line(st, e), st'.log, |st.log|)
  {
    var line, r := Line(st, e), Record(e, NO_TAP);
    forall i | 0 <= i < |st.buf|
      ensures st.buf[i].event in line
    {
      assert line[i] == st.buf[i].event;
    }
    assert line[|st.buf|] == e;
    TurnWitnessed(c, env, Offered(st, e), line, |st.log|, r);
    PatchKeepsEvent(st.tapping, r, Decide(c, env, st.tapping, st.buf, st.log, r));
    hide Decide, Apply, Witnessed, WitnessedFrom, Patch;
    DrainWitnessed(c, env, Accept(c, env, st, e), line, |st.log|);
  }

  // ----- Every delivery of a run -----

  /** Why something was delivered by the call of `e` on `st`. */
  ghost predicate Explained(c: Config, env: Env, st: State, e: Event, before: Log, d: Delivery) {
    var r, line := d.rec, Line(st, e);
    match d.why
    case Plain =>
      r.event in line && (r.event.pressed ==> r.tap.count == 0 && !IsTapRecord(env, before, r))
    case Settled => SettledWhy(c, env, st, e, r)
    case Repeated(_) => r.event in line && Justified(c, before, d)
    case Synthetic =>
      && Justified(c, before, d)
      && exists i :: 0 <= i < |line| && line[i].pressed && line[i].time == r.event.time
  }

  /** The call that made the `i`-th delivery of a run. */
  lemma {:induction false} DeliveredBy(c: Config, offers: seq<Offer>, i: nat) returns (n: nat)
    requires i < |Run(c, offers).log|
    ensures n < |offers|
    ensures |Run(c, offers[..n]).log| <= i < |Run(c, offers[..n + 1]).log|
    ensures Run(c, offers[..n + 1]).log <= Run(c, offers).log
  {
    var m := |offers| - 1;
    assert Run(c, offers) == Call(c, offers[m].env, Run(c, offers[..m]), offers[m].event);
    hide Run, Call, WitnessedFrom, Line;
    CallWitnessed(c, offers[m].env, Run(c, offers[..m]), offers[m].event);
    assert offers[..m + 1] == offers;
    if i < |Run(c, offers[..m]).log| {
      n := DeliveredBy(c, offers[..m], i);
      assert offers[..m][..n] == offers[..n] && offers[..m][..n + 1] == offers[..n + 1];
    } else {
      n := m;
    }
  }

  lemma InTheRing(c: Config, offers: seq<Offer>, x: Event)
    requires x in Events(Run(c, offers).buf)
    ensures x in KeyEvents(offers)
  {
    RunConserves(c, offers);
    var st := Run(c, offers);
    assert x in Pending(st);
    assert x in multiset(Pending(st));
    assert x in multiset(KeyEvents(offers));
  }

  /** Every delivery of every run is explained by the events that were in the ring, or
      arriving, when it was made, by the place of the key among them, and by what was
      delivered before it; all those events were offered by then. */
  lemma DecisionsJustified(c: Config, offers: seq<Offer>, i: nat) returns (n: nat)
    requires i < |Run(c, offers).log|
    ensures n < |offers| && |Run(c, offers[..n]).log| <= i < |Run(c, offers[..n + 1]).log|
    ensures var log, line := Run(c, offers).log, Line(Run(c, offers[..n]), offers[n].event);
      && Explained(c, offers[n].env, Run(c, offers[..n]), offers[n].event, log[..i], log[i])
      && forall x <- line :: x == offers[n].event || x in KeyEvents(offers[..n])
  {
    n := DeliveredBy(c, offers, i);
    var st, e, env := Run(c, offers[..n]), offers[n].event, offers[n].env;
    assert offers[..n + 1][..n] == offers[..n];
    CallWitnessed(c, env, st, e);
    RunReasoned(c, offers);
    var log, log' := Run(c, offers).log, Run(c, offers[..n + 1]).log;
    assert log'[i] == log[i] && log'[..i] == log[..i];
    RunPrompted(c, offers[..n]);
    RunBoundary(c, offers[..n]);
    CallReasons(c, env, st, e);
    hide Run, Call, SettledWhy;
    assert Justified(c, log[..i], log[i]);
    hide Justified;
    forall x <- Line(st, e)
      ensures x == e || x in KeyEvents(offers[..n])
    {
      if x != e {
        InTheRing(c, offers[..n], x);
      }
    }
  }
}
