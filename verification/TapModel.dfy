/** The tap/hold resolver as a function on states.

    A dual-role key acts as one thing when tapped and as another when held.
    Which of the two was meant is only known later, so the resolver keeps at
    most one undecided key and a buffer of the events that wait for the
    decision.  `Decide` names the exit an event takes and `Apply` says what
    that exit does; module TapResolver proves the imperative code equal to
    them, and the other Tap modules prove what they guarantee.
 */
module TapModel {

  // ----- Events and records -----

  datatype KeyPos = KeyPos(row: nat, col: nat)

  datatype EventKind = Tick | Key | EncoderCw | EncoderCcw | Combo

  /** `time` counts milliseconds since start without wrapping; the firmware
      only ever compares times through `Elapsed`, which wraps at 16 bits. */
  datatype Event = Event(key: KeyPos, time: nat, kind: EventKind, pressed: bool)

  type TapCount = n: nat | n < 16

  datatype Tap = Tap(interrupted: bool, count: TapCount)

  const NO_TAP := Tap(false, 0)

  datatype Record = Record(event: Event, tap: Tap)

  const NO_RECORD := Record(Event(KeyPos(0, 0), 0, Tick, false), NO_TAP)

  const TIMER_PERIOD := 0x1_0000

  const WAITING_BUFFER_SIZE := 8

  /** TIMER_DIFF_16: the difference of two clocks truncated to 16 bits. */
  function Elapsed(now: nat, since: nat): (d: nat)
    ensures d < TIMER_PERIOD
    ensures since <= now < since + TIMER_PERIOD ==> d == now - since
  {
    (now - since) % TIMER_PERIOD
  }

  predicate IsEvent(e: Event) {
    e.kind != Tick
  }

  // ----- Deliveries -----

  /** Why a record was handed on: because it needed no decision, because the
      undecided key was settled, because a tap was repeated quickly, or because
      a release was made up to end a repeated tap. */
  datatype Why =
    | Plain
    | Settled
    | Repeated(previous: Record)
    | Synthetic

  datatype Delivery = Delivery(rec: Record, why: Why)

  type Log = seq<Delivery>

  /** What the resolver asks of the keymap.  Both answers may depend on every
      delivery so far, because deliveries switch layers. */
  datatype Env = Env(isTap: (Log, Record) -> bool, retains: (Log, Record) -> bool)

  datatype Config = Config(tappingTerm: nat, quickTapTerm: nat, permissiveHold: bool, holdOnOtherKeyPress: bool)

  // ----- State -----

  /** `input` and `dropped` are bookkeeping: all key events offered, and those
      thrown away when the buffer overflowed. */
  datatype State = State(tapping: Record, buf: seq<Record>, log: Log, input: seq<Event>, dropped: seq<Event>)

  const INITIAL := State(NO_RECORD, [], [], [], [])

  predicate Undecided(t: Record) {
    IsEvent(t.event) && t.event.pressed && t.tap.count == 0
  }

  predicate WithinTerm(c: Config, e: Event, t: Record) {
    Elapsed(e.time, t.event.time) < c.tappingTerm
  }

  predicate WithinQuickTerm(c: Config, e: Event, t: Record) {
    Elapsed(e.time, t.event.time) < c.quickTapTerm
  }

  predicate SameKey(t: Record, e: Event) {
    t.event.key == e.key
  }

  predicate IsTapRecord(env: Env, log: Log, r: Record) {
    IsEvent(r.event) && env.isTap(log, r)
  }

  /** Is the opposite transition of the event's key waiting in the buffer? */
  predicate Typed(buf: seq<Record>, e: Event) {
    exists i :: 0 <= i < |buf| && buf[i].event.key == e.key && buf[i].event.pressed != e.pressed
  }

  predicate EndsTap(c: Config, t: Record, w: Record) {
    IsEvent(w.event) && w.event.key == t.event.key && !w.event.pressed && WithinTerm(c, w.event, t)
  }

  /** The position of the first waiting release that makes `t` a tap. */
  function FindTapEnd(c: Config, t: Record, buf: seq<Record>): (i: nat)
    ensures i <= |buf|
    ensures i < |buf| ==> EndsTap(c, t, buf[i])
    ensures forall j :: 0 <= j < i ==> !EndsTap(c, t, buf[j])
  {
    if buf == [] then 0
    else if EndsTap(c, t, buf[0]) then 0
    else 1 + FindTapEnd(c, t, buf[1..])
  }

  /** waiting_buffer_scan_tap: settle a new tapping key at once when the release
      that makes it a tap already waits. */
  function Scan(c: Config, st: State): State {
    var t := st.tapping;
    if t.tap.count > 0 || !t.event.pressed then st
    else
      var i := FindTapEnd(c, t, st.buf);
      if i == |st.buf| then st
      else
        var t' := t.(tap := t.tap.(count := 1));
        var w := st.buf[i];
        var buf' := st.buf[i := w.(tap := w.tap.(count := 1))];
        st.(tapping := t', buf := buf', log := st.log + [Delivery(t', Settled)])
  }

  // ----- One event -----

  /** The exits of process_tapping, by effect. */
  datatype Verdict =
    | Ignore                        // nothing to do
    | Begin                         // becomes the tapping key; look for its release
    | Restart                       // becomes the tapping key; the buffer is not searched
    | Replace                       // as Begin, after ending a repeated tap of the old key
    | Pass(interrupts: bool)        // delivered as it is
    | SettleTap                     // the tapping key was tapped; the release has to wait
    | SettleHold(interrupts: bool)  // the tapping key is held; the event has to wait
    | Wait(interrupts: bool)        // undecided still
    | ReleaseTap(keep: bool)        // release of a tap
    | TapAgain                      // quick repetition of a tap
    | Expire                        // too late for a repetition; the event has to wait

  function Decide(c: Config, env: Env, t: Record, buf: seq<Record>, log: Log, r: Record): Verdict {
    var e := r.event;
    if !IsEvent(t.event) then
      if !IsEvent(e) then Ignore
      else if e.pressed && IsTapRecord(env, log, r) then Begin
      else Pass(false)
    else if t.event.pressed then
      if t.tap.count == 0 then DecidePending(c, env, t, buf, log, r)
      else DecideTapped(c, env, t, log, r)
    else DecideReleased(c, env, t, log, r)
  }

  function DecidePending(c: Config, env: Env, t: Record, buf: seq<Record>, log: Log, r: Record): Verdict {
    var e := r.event;
    if !WithinTerm(c, e, t) then SettleHold(false)
    else if !IsEvent(e) then Ignore
    else if SameKey(t, e) && !e.pressed then SettleTap
    else if !e.pressed && Typed(buf, e) && c.permissiveHold then SettleHold(false)
    else if !e.pressed && !Typed(buf, e) then if env.retains(log, r) then Wait(false) else Pass(false)
    else if e.pressed && c.holdOnOtherKeyPress then SettleHold(true)
    else Wait(e.pressed)
  }

  function DecideTapped(c: Config, env: Env, t: Record, log: Log, r: Record): Verdict {
    var e := r.event;
    if !IsEvent(e) then Ignore
    else if SameKey(t, e) && !e.pressed then ReleaseTap(WithinTerm(c, e, t))
    else if IsTapRecord(env, log, r) && e.pressed then Replace
    else Pass(false)
  }

  function DecideReleased(c: Config, env: Env, t: Record, log: Log, r: Record): Verdict {
    var e := r.event;
    if !WithinTerm(c, e, t) then Expire
    else if !IsEvent(e) then Ignore
    else if !e.pressed then Pass(false)
    else if SameKey(t, e) then
      if WithinQuickTerm(c, e, t) && !t.tap.interrupted && t.tap.count > 0 then TapAgain else Restart
    else if IsTapRecord(env, log, r) then Begin
    else Pass(true)
  }

  /** Was the event processed or consumed?  If not, it has to wait. */
  predicate Done(v: Verdict) {
    !(v.SettleTap? || v.SettleHold? || v.Wait? || v.Expire?)
  }

  /** The release that ends a repeated tap when another tap key takes over. */
  function SyntheticRelease(t: Record, e: Event): Record {
    Record(Event(t.event.key, e.time, t.event.kind, false), t.tap)
  }

  function Interrupt(t: Record, b: bool): Record {
    if b then t.(tap := t.tap.(interrupted := true)) else t
  }

  /** The record as the exit leaves it: releases of taps and repeated presses
      take over the tap state of the tapping key. */
  function Patch(t: Record, r: Record, v: Verdict): Record {
    match v
    case SettleTap => r.(tap := t.tap.(count := 1))
    case ReleaseTap(_) => r.(tap := t.tap)
    case TapAgain => r.(tap := t.tap.(count := if t.tap.count < 15 then t.tap.count + 1 else 15))
    case _ => r
  }

  function Apply(c: Config, st: State, r: Record, v: Verdict): State {
    var t := st.tapping;
    var r' := Patch(t, r, v);
    match v
    case Ignore => st
    case Begin => Scan(c, st.(tapping := r))
    case Restart => st.(tapping := r)
    case Replace =>
      var log' := if t.tap.count > 1 then st.log + [Delivery(SyntheticRelease(t, r.event), Synthetic)] else st.log;
      Scan(c, st.(tapping := r, log := log'))
    case Pass(i) => st.(tapping := Interrupt(t, i), log := st.log + [Delivery(r, Plain)])
    case SettleTap =>
      var t' := t.(tap := t.tap.(count := 1));
      st.(tapping := t', log := st.log + [Delivery(t', Settled)])
    case SettleHold(i) =>
      st.(tapping := NO_RECORD, log := st.log + [Delivery(Interrupt(t, i), Settled)])
    case Wait(i) => st.(tapping := Interrupt(t, i))
    case ReleaseTap(keep) =>
      st.(tapping := if keep then r' else NO_RECORD, log := st.log + [Delivery(r', Plain)])
    case TapAgain => st.(tapping := r', log := st.log + [Delivery(r', Repeated(t))])
    case Expire => st.(tapping := NO_RECORD)
  }

  // ----- One call -----

  function Offered(st: State, e: Event): State {
    if IsEvent(e) then st.(input := st.input + [e]) else st
  }

  function Events(buf: seq<Record>): (s: seq<Event>)
    ensures |s| == |buf|
    ensures forall i :: 0 <= i < |s| ==> s[i] == buf[i].event
  {
    seq(|buf|, i requires 0 <= i < |buf| => buf[i].event)
  }

  /** The accepted events that are not delivered yet, oldest first. */
  function Pending(st: State): seq<Event> {
    (if Undecided(st.tapping) then [st.tapping.event] else []) + Events(st.buf)
  }

  /** waiting_buffer_enq, with the reset of everything on overflow. */
  function Enqueue(st: State, r: Record): State {
    if !IsEvent(r.event) then st
    else if |st.buf| == WAITING_BUFFER_SIZE - 1 then
      st.(tapping := NO_RECORD, buf := [], dropped := st.dropped + Pending(st) + [r.event])
    else st.(buf := st.buf + [r])
  }

  /** process_tapping on a newly arrived event, and its queueing. */
  function Accept(c: Config, env: Env, st: State, e: Event): State {
    var r := Record(e, NO_TAP);
    var v := Decide(c, env, st.tapping, st.buf, st.log, r);
    var st' := Apply(c, Offered(st, e), r, v);
    if Done(v) then st' else Enqueue(st', Patch(st.tapping, r, v))
  }

  function HeadVerdict(c: Config, env: Env, st: State): Verdict
    requires st.buf != []
  {
    Decide(c, env, st.tapping, st.buf, st.log, st.buf[0])
  }

  /** process_tapping on the oldest waiting event. */
  function Retry(c: Config, env: Env, st: State): (st': State)
    requires st.buf != []
    ensures |st'.buf| == if Done(HeadVerdict(c, env, st)) then |st.buf| - 1 else |st.buf|
  {
    var v := HeadVerdict(c, env, st);
    var st' := Apply(c, st, st.buf[0], v);
    if Done(v) then st'.(buf := st'.buf[1..]) else st'.(buf := st'.buf[0 := Patch(st.tapping, st.buf[0], v)])
  }

  /** The loop at the end of a call: retry waiting events until one has to stay. */
  function Drain(c: Config, env: Env, st: State): State
    decreases |st.buf|
  {
    if st.buf == [] then st
    else if Done(HeadVerdict(c, env, st)) then Drain(c, env, Retry(c, env, st))
    else Retry(c, env, st)
  }

  function Call(c: Config, env: Env, st: State, e: Event): State {
    Drain(c, env, Accept(c, env, st, e))
  }

  // ----- Runs -----

  datatype Offer = Offer(env: Env, event: Event)

  function Run(c: Config, offers: seq<Offer>): State {
    if offers == [] then INITIAL
    else
      var n := |offers| - 1;
      Call(c, offers[n].env, Run(c, offers[..n]), offers[n].event)
  }
}
