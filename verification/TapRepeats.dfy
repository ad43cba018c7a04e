/** Quick repetition.  A key pressed again soon after a tap repeats the tap, unless another
    key was pressed since.  What decides is told from the offers and the deliveries alone,
    and the condition is exact over all runs. */
module TapRepeats {
  import opened TapModel
  import opened TapLedger
  import opened TapOrder
  import opened TapProgress
  import TapReasons
  import TapArrivals

  // ----- What the deliveries tell -----

  /** A press on which a decision was taken: settled as a tap or as a hold, or repeated. */
  predicate Decided(d: Delivery) {
    d.why.Settled? || d.why.Repeated?
  }

  /** The last such delivery, or -1. */
  function LastDecided(log: Log): (p: int)
    ensures -1 <= p < |log|
    ensures 0 <= p ==> Decided(log[p])
    ensures forall m :: p < m < |log| ==> !Decided(log[m])
  {
    if log == [] then -1
    else if Decided(log[|log| - 1]) then |log| - 1
    else LastDecided(log[..|log| - 1])
  }

  predicate ReleaseOf(k: KeyPos, d: Delivery) {
    d.why.Plain? && d.rec.event.key == k && !d.rec.event.pressed
  }

  /** The first delivered release of a key from a place on, or the end of the log. */
  function FirstRelease(k: KeyPos, log: Log, from: nat): (i: nat)
    requires from <= |log|
    ensures from <= i <= |log|
    ensures i < |log| ==> ReleaseOf(k, log[i])
    ensures forall m :: from <= m < i ==> !ReleaseOf(k, log[m])
    decreases |log| - from
  {
    if from == |log| || ReleaseOf(k, log[from]) then from else FirstRelease(k, log, from + 1)
  }

  /** An event comes within the tapping term of a delivered one. */
  predicate InTerm(c: Config, x: Event, d: Delivery) {
    Elapsed(x.time, d.rec.event.time) < c.tappingTerm
  }

  predicate Quiet(c: Config, log: Log, i: nat) {
    forall m :: i < m < |log| ==> InTerm(c, log[m].rec.event, log[i])
  }

  predicate PressedSince(log: Log, i: nat) {
    exists m :: i < m < |log| && log[m].rec.event.pressed
  }

  /** The last decision was a tap or its repetition. */
  predicate TapLast(log: Log) {
    LastDecided(log) >= 0 && log[LastDecided(log)].rec.tap.count >= 1
  }

  function TapPress(log: Log): (d: Delivery)
    requires TapLast(log)
  {
    log[LastDecided(log)]
  }

  /** Where it was released, or the end of the log. */
  function TapRelease(log: Log): (i: nat)
    requires TapLast(log)
    ensures LastDecided(log) < i <= |log|
    ensures i < |log| ==> ReleaseOf(TapPress(log).rec.event.key, log[i])
  {
    FirstRelease(TapPress(log).rec.event.key, log, LastDecided(log) + 1)
  }

  /** It was released in time, and nothing delivered since came late. */
  predicate Ended(c: Config, log: Log) {
    && TapLast(log)
    && var i := TapRelease(log);
       i < |log| && InTerm(c, log[i].rec.event, TapPress(log)) && Quiet(c, log, i)
  }

  // ----- What the machine remembers of it -----

  predicate LateWaits(c: Config, waits: seq<Event>, d: Delivery) {
    exists j :: 0 <= j < |waits| && !InTerm(c, waits[j], d)
  }

  /** The tapping key `t`, with `waits` in the ring, is what the deliveries tell.  `heard(i)`
      says that all offers made since the `i`-th delivery came within its term, and `kept(p)`
      that nothing was dropped since the `p`-th. */
  ghost predicate Remembers(c: Config, t: Record, log: Log, waits: seq<Event>, heard: int -> bool, kept: int -> bool) {
    && (Tapped(t) ==>
          TapLast(log) && TapPress(log).rec == t && TapRelease(log) == |log| && kept(LastDecided(log)))
    && (Released(t) ==>
          && Ended(c, log) && kept(LastDecided(log)) && heard(TapRelease(log))
          && var d := log[TapRelease(log)];
             && d.rec.event == t.event && d.rec.tap == TapPress(log).rec.tap && d.rec.tap.count == t.tap.count
             && t.tap.interrupted == (d.rec.tap.interrupted || PressedSince(log, TapRelease(log))))
    && (TapLast(log) && TapRelease(log) == |log| && kept(LastDecided(log)) ==>
          (Tapped(t) && t == TapPress(log).rec) || Undecided(t))
    && (Ended(c, log) && kept(LastDecided(log)) && heard(TapRelease(log)) ==>
          Released(t) || Undecided(t) || LateWaits(c, waits, log[TapRelease(log)]))
  }

  // ----- One more delivery -----

  lemma DecidedAppend(log: Log, d: Delivery)
    ensures LastDecided(log + [d]) == if Decided(d) then |log| else LastDecided(log)
  {
    assert (log + [d])[..|log|] == log;
  }

  lemma ReleaseAppend(k: KeyPos, log: Log, d: Delivery, from: nat)
    requires from <= |log|
    ensures FirstRelease(k, log + [d], from)
         == if FirstRelease(k, log, from) < |log| || ReleaseOf(k, d) then FirstRelease(k, log, from) else |log| + 1
  {
    var i, log' := FirstRelease(k, log, from), log + [d];
    assert forall m :: from <= m < |log| ==> log'[m] == log[m];
    assert log'[|log|] == d;
  }

  /** A delivery that decides nothing. */
  lemma UndecidingAppend(c: Config, log: Log, d: Delivery)
    requires !Decided(d)
    ensures var log' := log + [d];
      && LastDecided(log') == LastDecided(log)
      && (TapLast(log') <==> TapLast(log))
      && (TapLast(log) ==>
            && TapPress(log') == TapPress(log)
            && TapRelease(log')
            == if TapRelease(log) < |log| || ReleaseOf(TapPress(log).rec.event.key, d) then TapRelease(log)
               else |log| + 1)
      && (TapLast(log) && TapRelease(log) < |log| ==>
            && (Ended(c, log') <==> Ended(c, log) && InTerm(c, d.rec.event, log[TapRelease(log)]))
            && (PressedSince(log', TapRelease(log))
                <==> PressedSince(log, TapRelease(log)) || d.rec.event.pressed))
      && (TapLast(log) && TapRelease(log) == |log| && ReleaseOf(TapPress(log).rec.event.key, d) ==>
            && (Ended(c, log') <==> InTerm(c, d.rec.event, TapPress(log)))
            && !PressedSince(log', |log|))
  {
    DecidedAppend(log, d);
    if TapLast(log) {
      hide FirstRelease, LastDecided, Elapsed;
      ReleaseAppend(TapPress(log).rec.event.key, log, d, LastDecided(log) + 1);
      SinceAppend(c, log, d, TapRelease(log));
    }
  }

  /** What is known of the deliveries since one of them. */
  lemma SinceAppend(c: Config, log: Log, d: Delivery, i: nat)
    ensures var log' := log + [d];
      && (i < |log| ==>
            && (Quiet(c, log', i) <==> Quiet(c, log, i) && InTerm(c, d.rec.event, log[i]))
            && (PressedSince(log', i) <==> PressedSince(log, i) || d.rec.event.pressed))
      && (i == |log| ==> Quiet(c, log', i) && !PressedSince(log', i))
  {
    hide Elapsed;
    var log' := log + [d];
    assert forall m :: 0 <= m < |log| ==> log'[m] == log[m];
    assert log'[|log|] == d;
  }

  /** A delivery that decides. */
  lemma DecidingAppend(log: Log, d: Delivery)
    requires Decided(d)
    ensures var log' := log + [d];
      && LastDecided(log') == |log|
      && (TapLast(log') <==> d.rec.tap.count >= 1)
      && (TapLast(log') ==> TapPress(log') == d && TapRelease(log') == |log'|)
  {
    DecidedAppend(log, d);
  }

  // ----- One turn -----

  /** What is known when an exit is taken on a record; `left` are the events that wait
      afterwards. */
  ghost predicate AtTurn(c: Config, t: Record, log: Log, waits: seq<Event>, left: seq<Event>, r: Record, v: Verdict,
                         heard: int -> bool, kept: int -> bool) {
    && Remembers(c, t, log, waits, heard, kept)
    && (forall j :: j >= |log| ==> heard(j) && kept(j))
    && (left == waits || (Done(v) && waits != [] && waits[0] == r.event && left == waits[1..]))
  }

  /** Waiting late events stay, unless the event at the head is late and is delivered. */
  lemma StillLate(c: Config, waits: seq<Event>, left: seq<Event>, e: Event, d: Delivery)
    requires LateWaits(c, waits, d) && InTerm(c, e, d)
    requires left == waits || (waits != [] && waits[0] == e && left == waits[1..])
    ensures LateWaits(c, left, d)
  {
    hide Elapsed;
    var j :| 0 <= j < |waits| && !InTerm(c, waits[j], d);
    if left == waits {
      assert !InTerm(c, left[j], d);
    } else {
      assert left[j - 1] == waits[j];
      assert !InTerm(c, left[j - 1], d);
    }
  }

  /** An event passed on interrupts a released key if it is a press, and comes in time. */
  predicate PassFits(c: Config, t: Record, r: Record, i: bool) {
    && (Released(t) ==> i == r.event.pressed && WithinTerm(c, r.event, t))
    && (Tapped(t) ==> !i && (SameKey(t, r.event) ==> r.event.pressed))
    && (Undecided(t) ==> !i)
  }

  lemma PassRemembers(c: Config, t: Record, log: Log, waits: seq<Event>, left: seq<Event>, r: Record, i: bool,
                      heard: int -> bool, kept: int -> bool)
    requires AtTurn(c, t, log, waits, left, r, Pass(i), heard, kept) && PassFits(c, t, r, i)
    ensures Remembers(c, Interrupt(t, i), log + [Delivery(r, Plain)], left, heard, kept)
  {
    var d, log' := Delivery(r, Plain), log + [Delivery(r, Plain)];
    UndecidingAppend(c, log, d);
    if TapLast(log) && TapRelease(log) < |log| && InTerm(c, r.event, log[TapRelease(log)])
       && LateWaits(c, waits, log[TapRelease(log)]) {
      StillLate(c, waits, left, r.event, log[TapRelease(log)]);
    }
    hide LastDecided, FirstRelease, TapLast, TapPress, TapRelease, Ended, PressedSince, LateWaits, Elapsed;
    assert TapLast(log) && TapRelease(log) < |log| ==> log'[TapRelease(log)] == log[TapRelease(log)];
  }

  lemma ReleaseRemembers(c: Config, t: Record, log: Log, waits: seq<Event>, left: seq<Event>, r: Record, keep: bool,
                         heard: int -> bool, kept: int -> bool)
    requires AtTurn(c, t, log, waits, left, r, ReleaseTap(keep), heard, kept)
    requires Fits(c, t, [], r, ReleaseTap(keep))
    ensures var r' := r.(tap := t.tap);
      Remembers(c, if keep then r' else NO_RECORD, log + [Delivery(r', Plain)], left, heard, kept)
  {
    var d := Delivery(r.(tap := t.tap), Plain);
    UndecidingAppend(c, log, d);
    var log' := log + [d];
    hide LastDecided, FirstRelease, TapLast, TapPress, TapRelease, Ended, PressedSince, LateWaits, Elapsed;
    assert log'[|log|] == d;
  }

  /** The exits that deliver a decision: a tap, which the tapping key stands for, or a hold. */
  lemma DecisionRemembers(c: Config, t': Record, log: Log, d: Delivery, left: seq<Event>,
                          heard: int -> bool, kept: int -> bool)
    requires Decided(d) && kept(|log|)
    requires if d.rec.tap.count == 0 then t' == NO_RECORD else t' == d.rec && Tapped(t')
    ensures Remembers(c, t', log + [d], left, heard, kept)
  {
    DecidingAppend(log, d);
    hide LastDecided, FirstRelease;
  }

  lemma ExpireRemembers(c: Config, t: Record, log: Log, waits: seq<Event>, e: Event,
                        heard: int -> bool, kept: int -> bool)
    requires Remembers(c, t, log, waits, heard, kept) && Released(t) && !WithinTerm(c, e, t)
    requires e in waits || forall i :: 0 <= i < |log| && !InTerm(c, e, log[i]) ==> !heard(i)
    ensures Remembers(c, NO_RECORD, log, waits, heard, kept)
  {
    hide LastDecided, FirstRelease, TapLast, TapPress, Quiet, PressedSince;
    if Ended(c, log) && heard(TapRelease(log)) {
      assert !InTerm(c, e, log[TapRelease(log)]);
    }
  }

  /** A new tapping key, settled at once if its release waits. */
  lemma ScanRemembers(c: Config, st: State, left: seq<Event>, heard: int -> bool, kept: int -> bool)
    requires Undecided(st.tapping) && (forall j :: j >= |st.log| ==> kept(j))
    ensures var st' := Scan(c, st); Remembers(c, st'.tapping, st'.log, left, heard, kept)
  {
    hide LastDecided, FirstRelease, Remembers;
    var st' := Scan(c, st);
    if st'.log != st.log {
      var d := st'.log[|st.log|];
      assert st'.log == st.log + [d];
      DecisionRemembers(c, st'.tapping, st.log, d, left, heard, kept);
    } else {
      UndecidedRemembers(c, st'.tapping, st.log, left, heard, kept);
    }
  }

  /** While a key is undecided nothing is claimed. */
  lemma UndecidedRemembers(c: Config, t: Record, log: Log, left: seq<Event>, heard: int -> bool, kept: int -> bool)
    requires Undecided(t)
    ensures Remembers(c, t, log, left, heard, kept)
  {
    hide LastDecided, FirstRelease, TapLast, TapPress, TapRelease, Ended, PressedSince, LateWaits;
  }

  lemma DecidePassFits(c: Config, env: Env, t: Record, buf: seq<Record>, log: Log, r: Record)
    ensures var v := Decide(c, env, t, buf, log, r); v.Pass? ==> PassFits(c, t, r, v.interrupts)
  {
  }

  /** Every exit keeps it. */
  lemma TurnRemembers(c: Config, env: Env, st: State, r: Record, left: seq<Event>,
                      heard: int -> bool, kept: int -> bool)
    requires var v := Decide(c, env, st.tapping, st.buf, st.log, r);
      AtTurn(c, st.tapping, st.log, Events(st.buf), left, r, v, heard, kept)
    requires Clean(r)
    requires r.event in Events(st.buf)
      || forall i :: 0 <= i < |st.log| && !InTerm(c, r.event, st.log[i]) ==> !heard(i)
    requires left != Events(st.buf) ==> IsEvent(r.event)
    ensures var st' := Apply(c, st, r, Decide(c, env, st.tapping, st.buf, st.log, r));
      Remembers(c, st'.tapping, st'.log, left, heard, kept)
  {
    var t, log := st.tapping, st.log;
    var v := Decide(c, env, t, st.buf, log, r);
    DecideFits(c, env, t, st.buf, log, r);
    DecidePassFits(c, env, t, st.buf, log, r);
    hide Decide, Remembers, Elapsed, LastDecided, FirstRelease, Scan, Quiet;
    match v {
      case Ignore => assert left == Events(st.buf);
      case Begin => ScanRemembers(c, st.(tapping := r), left, heard, kept);
      case Restart => UndecidedRemembers(c, r, log, left, heard, kept);
      case Replace => ScanRemembers(c, Taken(st, r), left, heard, kept);
      case Pass(i) => PassRemembers(c, t, log, Events(st.buf), left, r, i, heard, kept);
      case SettleTap =>
        var d := Delivery(t.(tap := t.tap.(count := 1)), Settled);
        DecisionRemembers(c, d.rec, log, d, left, heard, kept);
      case SettleHold(i) =>
        DecisionRemembers(c, NO_RECORD, log, Delivery(Interrupt(t, i), Settled), left, heard, kept);
      case Wait(i) => UndecidedRemembers(c, Interrupt(t, i), log, left, heard, kept);
      case ReleaseTap(keep) => ReleaseRemembers(c, t, log, Events(st.buf), left, r, keep, heard, kept);
      case TapAgain =>
        var r' := Patch(t, r, v);
        DecisionRemembers(c, r', log, Delivery(r', Repeated(t)), left, heard, kept);
      case Expire => ExpireRemembers(c, t, log, Events(st.buf), r.event, heard, kept);
    }
  }

  /** A key that ends a repeated tap of another and takes over. */
  function Taken(st: State, r: Record): State {
    var t := st.tapping;
    var log' := if t.tap.count > 1 then st.log + [Delivery(SyntheticRelease(t, r.event), Synthetic)] else st.log;
    st.(tapping := r, log := log')
  }

  // ----- One call -----

  /** The memory can be described by stricter claims, if they hold where it relies on them. */
  lemma Adjusted(c: Config, t: Record, log: Log, waits: seq<Event>, heard: int -> bool, kept: int -> bool,
                 heard': int -> bool, kept': int -> bool)
    requires Remembers(c, t, log, waits, heard, kept)
    requires forall i :: heard'(i) ==> heard(i)
    requires forall p :: kept'(p) ==> kept(p)
    requires Tapped(t) || Released(t) ==> kept'(LastDecided(log))
    requires Released(t) ==> heard'(TapRelease(log))
    ensures Remembers(c, t, log, waits, heard', kept')
  {
    hide LastDecided, FirstRelease, Ended, PressedSince, LateWaits;
  }

  lemma ApplyLogs(c: Config, st: State, r: Record, v: Verdict)
    ensures st.log <= Apply(c, st, r, v).log
  {
  }

  /** What a retry leaves of the ring and of the log. */
  lemma RetryFacts(c: Config, env: Env, st: State)
    requires CleanBuffer(st.buf) && st.buf != []
    ensures var r, v, st' := st.buf[0], HeadVerdict(c, env, st), Retry(c, env, st);
      && CleanBuffer(st'.buf) && st.log <= st'.log
      && st'.log == Apply(c, st, r, v).log && st'.tapping == Apply(c, st, r, v).tapping
      && Events(st'.buf) == (if Done(v) then Events(st.buf)[1..] else Events(st.buf))
      && v == Decide(c, env, st.tapping, st.buf, st.log, r)
      && r.event == Events(st.buf)[0] && r.event in Events(st.buf) && Clean(r) && IsEvent(r.event)
  {
    hide Decide, Scan, Tally, Conserved;
    assert Events(st.buf)[0] == st.buf[0].event;
    RetryTally(c, env, st, st.buf[0].event);
    TapReasons.TurnEvents(c, env, st);
    ApplyLogs(c, st, st.buf[0], HeadVerdict(c, env, st));
    hide Apply;
  }

  lemma RetryRemembers(c: Config, env: Env, st: State, heard: int -> bool, kept: int -> bool)
    requires CleanBuffer(st.buf) && st.buf != []
    requires Remembers(c, st.tapping, st.log, Events(st.buf), heard, kept)
    requires forall j :: j >= |st.log| ==> heard(j) && kept(j)
    ensures var st' := Retry(c, env, st);
      st.log <= st'.log && CleanBuffer(st'.buf) && Remembers(c, st'.tapping, st'.log, Events(st'.buf), heard, kept)
  {
    hide Remembers, Decide, Apply, Retry, HeadVerdict, Events, Clean, CleanBuffer, InTerm;
    RetryFacts(c, env, st);
    var r, v := st.buf[0], HeadVerdict(c, env, st);
    TurnRemembers(c, env, st, r, if Done(v) then Events(st.buf)[1..] else Events(st.buf), heard, kept);
  }

  lemma {:induction false} DrainRemembers(c: Config, env: Env, st: State, heard: int -> bool, kept: int -> bool)
    requires CleanBuffer(st.buf)
    requires Remembers(c, st.tapping, st.log, Events(st.buf), heard, kept)
    requires forall j :: j >= |st.log| ==> heard(j) && kept(j)
    ensures var st' := Drain(c, env, st); Remembers(c, st'.tapping, st'.log, Events(st'.buf), heard, kept)
    decreases |st.buf|
  {
    if st.buf != [] {
      hide Remembers, HeadVerdict, Retry;
      RetryRemembers(c, env, st, heard, kept);
      if Done(HeadVerdict(c, env, st)) {
        DrainRemembers(c, env, Retry(c, env, st), heard, kept);
      }
    }
  }

  /** After an event that comes late nothing is remembered of a released key. */
  lemma LateArrival(c: Config, t: Record, log: Log, waits: seq<Event>, left: seq<Event>, e: Event,
                    heard: int -> bool, kept: int -> bool, heard': int -> bool)
    requires Remembers(c, t, log, waits, heard, kept) && Released(t) && !WithinTerm(c, e, t)
    requires forall i :: heard'(i) ==> heard(i) && (0 <= i < |log| ==> InTerm(c, e, log[i]))
    ensures Remembers(c, NO_RECORD, log, left, heard', kept)
  {
    hide LastDecided, FirstRelease, TapLast, TapPress, Quiet, PressedSince, LateWaits;
    if Ended(c, log) {
      assert !InTerm(c, e, log[TapRelease(log)]);
    }
  }

  /** The first half of a call, before the event is queued. */
  lemma ArrivalRemembers(c: Config, env: Env, st: State, e: Event, heard: int -> bool, kept: int -> bool,
                         heard': int -> bool)
    requires Remembers(c, st.tapping, st.log, Events(st.buf), heard, kept)
    requires forall j :: j >= |st.log| ==> heard'(j) && kept(j)
    requires forall i :: heard'(i) ==> heard(i)
    requires forall i :: 0 <= i < |st.log| ==> (heard'(i) <==> heard(i) && InTerm(c, e, st.log[i]))
    ensures var r := Record(e, NO_TAP);
      var st' := Apply(c, Offered(st, e), r, Decide(c, env, st.tapping, st.buf, st.log, r));
      Remembers(c, st'.tapping, st'.log, Events(st.buf), heard', kept)
  {
    var t, log, r := st.tapping, st.log, Record(e, NO_TAP);
    if Released(t) && !WithinTerm(c, e, t) {
      assert Decide(c, env, t, st.buf, log, r) == Expire;
      LateArrival(c, t, log, Events(st.buf), Events(st.buf), e, heard, kept, heard');
    } else {
      assert Released(t) ==> InTerm(c, e, log[TapRelease(log)]);
      Adjusted(c, t, log, Events(st.buf), heard, kept, heard', kept);
      hide Remembers, Decide, Apply;
      TurnRemembers(c, env, Offered(st, e), r, Events(st.buf), heard', kept);
    }
  }

  lemma MoreWaits(c: Config, t: Record, log: Log, waits: seq<Event>, e: Event, heard: int -> bool, kept: int -> bool)
    requires Remembers(c, t, log, waits, heard, kept)
    ensures Remembers(c, t, log, waits + [e], heard, kept)
  {
    forall d: Delivery | LateWaits(c, waits, d)
      ensures LateWaits(c, waits + [e], d)
    {
      var j :| 0 <= j < |waits| && !InTerm(c, waits[j], d);
      assert (waits + [e])[j] == waits[j];
    }
    hide LastDecided, FirstRelease, Ended, PressedSince, LateWaits;
  }

  /** Once everything was dropped nothing is claimed. */
  lemma NothingKept(c: Config, log: Log, heard: int -> bool, kept: int -> bool)
    requires forall p :: p < |log| ==> !kept(p)
    ensures Remembers(c, NO_RECORD, log, [], heard, kept)
  {
    hide FirstRelease, LastDecided;
  }

  /** The claims after a call, from those before it. */
  ghost predicate Claims(c: Config, env: Env, st: State, e: Event, heard: int -> bool, kept: int -> bool,
                         heard': int -> bool, kept': int -> bool) {
    var a := Accept(c, env, st, e);
    && (forall i :: heard'(i) <==> heard(i) && (0 <= i < |st.log| ==> InTerm(c, e, st.log[i])))
    && (forall j :: j >= |st.log| ==> heard(j) && kept(j))
    && if a.dropped == st.dropped then forall p :: kept'(p) <==> kept(p)
       else forall p :: p < |a.log| ==> !kept'(p)
  }

  lemma AcceptRemembers(c: Config, env: Env, st: State, e: Event, heard: int -> bool, kept: int -> bool,
                        heard': int -> bool, kept': int -> bool)
    requires CleanBuffer(st.buf)
    requires Remembers(c, st.tapping, st.log, Events(st.buf), heard, kept)
    requires Claims(c, env, st, e, heard, kept, heard', kept')
    ensures var a := Accept(c, env, st, e);
      && Remembers(c, a.tapping, a.log, Events(a.buf), heard', kept')
      && (a.dropped != st.dropped ==> a.buf == [])
  {
    var r := Record(e, NO_TAP);
    var v := Decide(c, env, st.tapping, st.buf, st.log, r);
    ArrivalRemembers(c, env, st, e, heard, kept, heard');
    TapReasons.AcceptShape(c, env, st, e);
    DroppedIff(c, env, st, e);
    hide Decide, Apply, Accept, Remembers, Elapsed;
    var st1, a := Apply(c, Offered(st, e), r, v), Accept(c, env, st, e);
    if a.dropped != st.dropped {
      NothingKept(c, a.log, heard', kept');
    } else {
      if Events(a.buf) != Events(st.buf) {
        MoreWaits(c, st1.tapping, st1.log, Events(st.buf), e, heard', kept);
      }
      KeptSame(c, a.tapping, a.log, Events(a.buf), heard', kept, kept');
    }
  }

  lemma KeptSame(c: Config, t: Record, log: Log, waits: seq<Event>, heard: int -> bool, kept: int -> bool,
                 kept': int -> bool)
    requires Remembers(c, t, log, waits, heard, kept) && forall p :: kept'(p) <==> kept(p)
    ensures Remembers(c, t, log, waits, heard, kept')
  {
    hide LastDecided, FirstRelease, TapLast, TapPress, TapRelease, Ended, PressedSince, LateWaits;
  }

  /** Events are dropped exactly when the ring overflows, and then everything is. */
  lemma DroppedIff(c: Config, env: Env, st: State, e: Event)
    requires CleanBuffer(st.buf)
    ensures var a := Accept(c, env, st, e);
      && (a.dropped != st.dropped <==> Overflows(c, env, st, e))
      && (a.dropped != st.dropped ==> a.tapping == NO_RECORD && a.buf == [])
  {
    var r := Record(e, NO_TAP);
    DecideFits(c, env, st.tapping, st.buf, st.log, r);
    PatchKeepsEvent(st.tapping, r, Decide(c, env, st.tapping, st.buf, st.log, r));
    hide Decide, Fits, Apply;
    ApplyFront(c, Offered(st, e), r, Decide(c, env, st.tapping, st.buf, st.log, r));
  }

  lemma CallRemembers(c: Config, env: Env, st: State, e: Event, heard: int -> bool, kept: int -> bool,
                      heard': int -> bool, kept': int -> bool)
    requires CleanBuffer(st.buf)
    requires Remembers(c, st.tapping, st.log, Events(st.buf), heard, kept)
    requires Claims(c, env, st, e, heard, kept, heard', kept')
    ensures var st' := Call(c, env, st, e);
      Remembers(c, st'.tapping, st'.log, Events(st'.buf), heard', kept')
  {
    AcceptRemembers(c, env, st, e, heard, kept, heard', kept');
    AcceptClean(c, env, st, e);
    CallAppends(c, env, st, e);
    hide Accept, Remembers;
    var a := Accept(c, env, st, e);
    if a.dropped == st.dropped {
      DrainRemembers(c, env, a, heard', kept');
    }
  }

  // ----- Over runs -----

  /** Every offer made after the `i`-th delivery came within its term. */
  ghost predicate Heard(c: Config, offers: seq<Offer>, i: int) {
    0 <= i < |Run(c, offers).log| ==>
      forall n :: 0 <= n < |offers| && i < |Run(c, offers[..n]).log|
        ==> InTerm(c, offers[n].event, Run(c, offers).log[i])
  }

  /** No event was dropped since the call that made the `p`-th delivery. */
  ghost predicate Kept(c: Config, offers: seq<Offer>, p: int) {
    forall n :: 0 <= n < |offers| && p < |Run(c, offers[..n + 1]).log|
      ==> Run(c, offers[..n + 1]).dropped == Run(c, offers[..n]).dropped
  }

  lemma {:induction false} DrainDropsNothing(c: Config, env: Env, st: State)
    requires CleanBuffer(st.buf)
    ensures Drain(c, env, st).dropped == st.dropped
    decreases |st.buf|
  {
    if st.buf != [] {
      RetryTally(c, env, st, st.buf[0].event);
      RetryLane(c, env, st, st.buf[0].event.key);
      if Done(HeadVerdict(c, env, st)) {
        DrainDropsNothing(c, env, Retry(c, env, st));
      }
    }
  }

  lemma EarlierLogs(c: Config, offers: seq<Offer>, n: nat)
    requires n <= |offers|
    ensures Run(c, offers[..n]).log <= Run(c, offers).log
  {
    hide Run;
    assert offers[..n] + offers[n..] == offers;
    RunAppends(c, offers[..n], offers[n..]);
  }

  lemma EarlierShorter(c: Config, offers: seq<Offer>, o: Offer)
    ensures forall n :: 0 <= n <= |offers| ==> |Run(c, (offers + [o])[..n]).log| <= |Run(c, offers).log|
  {
    forall n | 0 <= n <= |offers|
      ensures |Run(c, (offers + [o])[..n]).log| <= |Run(c, offers).log|
    {
      EarlierLogs(c, offers, n);
      assert (offers + [o])[..n] == offers[..n];
    }
  }

  /** How the claims about a run grow with one more offer. */
  lemma HeardGrows(c: Config, offers: seq<Offer>, o: Offer, i: int)
    ensures var log := Run(c, offers).log;
      Heard(c, offers + [o], i) <==> Heard(c, offers, i) && (0 <= i < |log| ==> InTerm(c, o.event, log[i]))
  {
    hide Run, InTerm;
    var all, log := offers + [o], Run(c, offers).log;
    RunAppends(c, offers, [o]);
    EarlierShorter(c, offers, o);
    assert all[..|offers|] == offers && all[|offers|] == o;
    if 0 <= i < |log| {
      assert Run(c, all).log[i] == log[i];
      if Heard(c, all, i) {
        forall n | 0 <= n < |offers| && i < |Run(c, offers[..n]).log|
          ensures InTerm(c, offers[n].event, log[i])
        {
          assert all[..n] == offers[..n] && all[n] == offers[n];
        }
      } else if Heard(c, offers, i) {
        var n :| 0 <= n < |all| && i < |Run(c, all[..n]).log| && !InTerm(c, all[n].event, log[i]);
        assert all[..n] == offers[..n];
      }
    }
  }

  lemma KeptGrows(c: Config, offers: seq<Offer>, o: Offer, p: int)
    ensures var st, st' := Run(c, offers), Run(c, offers + [o]);
      Kept(c, offers + [o], p) <==> Kept(c, offers, p) && (p < |st'.log| ==> st'.dropped == st.dropped)
  {
    var all := offers + [o];
    assert all[..|offers|] == offers && all[..|all|] == all;
    assert forall n :: 0 <= n <= |offers| ==> all[..n] == offers[..n];
    hide Run;
    if Kept(c, all, p) {
      forall n | 0 <= n < |offers| && p < |Run(c, offers[..n + 1]).log|
        ensures Run(c, offers[..n + 1]).dropped == Run(c, offers[..n]).dropped
      {
        assert all[..n + 1] == offers[..n + 1] && all[..n] == offers[..n];
      }
    }
  }

  lemma {:induction false} RunRemembers(c: Config, offers: seq<Offer>)
    ensures var st := Run(c, offers);
      Remembers(c, st.tapping, st.log, Events(st.buf), i => Heard(c, offers, i), p => Kept(c, offers, p))
  {
    if offers == [] {
      NothingTold(c);
    } else {
      hide Run, Remembers, Heard, Kept;
      var n := |offers| - 1;
      RunRemembers(c, offers[..n]);
      RunInvariant(c, offers[..n]);
      assert offers == offers[..n] + [offers[n]];
      NextRemembers(c, offers[..n], offers[n]);
    }
  }

  lemma NothingTold(c: Config)
    ensures var st := Run(c, []);
      Remembers(c, st.tapping, st.log, Events(st.buf), i => Heard(c, [], i), p => Kept(c, [], p))
  {
  }

  lemma NextRemembers(c: Config, offers: seq<Offer>, o: Offer)
    requires var st := Run(c, offers);
      && CleanBuffer(st.buf)
      && Remembers(c, st.tapping, st.log, Events(st.buf), i => Heard(c, offers, i), p => Kept(c, offers, p))
    ensures var st := Run(c, offers + [o]);
      Remembers(c, st.tapping, st.log, Events(st.buf), i => Heard(c, offers + [o], i), p => Kept(c, offers + [o], p))
  {
    var st, e := Run(c, offers), o.event;
    var heard, kept := (i: int) => Heard(c, offers, i), (p: int) => Kept(c, offers, p);
    var heard', kept' := (i: int) => Heard(c, offers + [o], i), (p: int) => Kept(c, offers + [o], p);
    RunSnoc(c, offers, o);
    AcceptClean(c, o.env, st, e);
    DrainDropsNothing(c, o.env, Accept(c, o.env, st, e));
    CallAppends(c, o.env, st, e);
    ClaimsGrow(c, offers, o);
    hide Run, Accept, Drain, Remembers, Claims, Heard, Kept;
    CallRemembers(c, o.env, st, e, heard, kept, heard', kept');
  }

  /** Nothing is claimed of deliveries to come. */
  lemma NothingYet(c: Config, offers: seq<Offer>, j: int)
    requires j >= |Run(c, offers).log|
    ensures Heard(c, offers, j) && Kept(c, offers, j)
  {
    forall n | 0 <= n <= |offers|
      ensures |Run(c, offers[..n]).log| <= j
    {
      EarlierLogs(c, offers, n);
    }
    hide Run;
  }

  /** What a call drops, it drops at once. */
  lemma NextDropped(c: Config, offers: seq<Offer>, o: Offer)
    requires CleanBuffer(Run(c, offers).buf)
    ensures var a, st' := Accept(c, o.env, Run(c, offers), o.event), Run(c, offers + [o]);
      st'.dropped == a.dropped && |a.log| <= |st'.log|
  {
    var st := Run(c, offers);
    RunSnoc(c, offers, o);
    AcceptClean(c, o.env, st, o.event);
    DrainDropsNothing(c, o.env, Accept(c, o.env, st, o.event));
    CallAppends(c, o.env, st, o.event);
  }

  lemma ClaimsGrow(c: Config, offers: seq<Offer>, o: Offer)
    requires CleanBuffer(Run(c, offers).buf)
    ensures Claims(c, o.env, Run(c, offers), o.event, i => Heard(c, offers, i), p => Kept(c, offers, p),
                   i => Heard(c, offers + [o], i), p => Kept(c, offers + [o], p))
  {
    hide Run, Heard, Kept, Accept, InTerm;
    var log := Run(c, offers).log;
    NextDropped(c, offers, o);
    forall i: int
      ensures Heard(c, offers + [o], i) <==> Heard(c, offers, i) && (0 <= i < |log| ==> InTerm(c, o.event, log[i]))
    {
      HeardGrows(c, offers, o, i);
    }
    forall p: int
      ensures var st, st' := Run(c, offers), Run(c, offers + [o]);
        Kept(c, offers + [o], p) <==> Kept(c, offers, p) && (p < |st'.log| ==> st'.dropped == st.dropped)
    {
      KeptGrows(c, offers, o, p);
    }
    forall j | j >= |log|
      ensures Heard(c, offers, j) && Kept(c, offers, j)
    {
      NothingYet(c, offers, j);
    }
  }

  // ----- When a press repeats a tap -----

  /** The next event presses again, quickly, a key that was tapped last: everything offered was
      delivered or dropped, the last decision was a tap of this key, its release came in time
      and is not long ago, nothing was dropped and no press was delivered since. */
  ghost predicate RepeatDue(c: Config, offers: seq<Offer>, e: Event) {
    var st := Run(c, offers);
    var log := st.log;
    && IsEvent(e) && e.pressed && Pending(st) == []
    && Ended(c, log) && TapPress(log).rec.event.key == e.key
    && Kept(c, offers, LastDecided(log))
    && var i := TapRelease(log);
       && Heard(c, offers, i) && InTerm(c, e, log[i])
       && Elapsed(e.time, log[i].rec.event.time) < c.quickTapTerm
       && !TapPress(log).rec.tap.interrupted && !PressedSince(log, i)
  }

  /** The repeated press: counted once more than the tap, up to 15. */
  function Repetition(log: Log, e: Event): Delivery
    requires TapLast(log) && TapRelease(log) < |log|
  {
    var n := TapPress(log).rec.tap.count;
    Delivery(Record(e, Tap(false, if n < 15 then n + 1 else 15)),
             Repeated(log[TapRelease(log)].rec.(tap := Tap(false, n))))
  }

  /** What is due is what the machine is ready for. */
  lemma DueIffReady(c: Config, offers: seq<Offer>, e: Event)
    ensures var st := Run(c, offers);
      && (RepeatDue(c, offers, e) <==> Ready(c, st, e))
      && (Ready(c, st, e) ==>
            && Ended(c, st.log)
            && st.tapping == st.log[TapRelease(st.log)].rec
            && st.tapping.tap == Tap(false, TapPress(st.log).rec.tap.count))
  {
    RunRemembers(c, offers);
    RunBoundary(c, offers);
    var st := Run(c, offers);
    assert st.buf == [] ==> Events(st.buf) == [];
    hide Run, Heard, Kept, LastDecided, FirstRelease, Quiet, PressedSince, Elapsed;
  }

  /** The machine holds a released key, not interrupted, that the event presses again. */
  predicate Ready(c: Config, st: State, e: Event) {
    var t := st.tapping;
    && Released(t) && t.tap.count > 0 && !t.tap.interrupted && IsEvent(e) && e.pressed && SameKey(t, e)
    && WithinTerm(c, e, t) && WithinQuickTerm(c, e, t)
  }

  /** Then the press comes out at once, and nothing else does. */
  lemma ReadyRepeats(c: Config, env: Env, st: State, e: Event)
    requires Ready(c, st, e) && Boundary(st)
    ensures var t := st.tapping;
      Call(c, env, st, e).log
      == st.log + [Delivery(Record(e, Tap(false, if t.tap.count < 15 then t.tap.count + 1 else 15)), Repeated(t))]
  {
    assert Decide(c, env, st.tapping, st.buf, st.log, Record(e, NO_TAP)) == TapAgain;
    assert Accept(c, env, st, e).buf == [];
  }

  /** From a key that is not released the next delivery is no repetition. */
  lemma {:induction false} DrainRepeatsLater(c: Config, env: Env, st: State)
    requires !Released(st.tapping) && CleanBuffer(st.buf)
    ensures var log' := Drain(c, env, st).log;
      |st.log| < |log'| ==> !log'[|st.log|].why.Repeated?
    decreases |st.buf|
  {
    if st.buf != [] {
      var st1 := Retry(c, env, st);
      RetryNotRepeated(c, env, st);
      RetryTally(c, env, st, st.buf[0].event);
      hide Retry, HeadVerdict, Released, CleanBuffer;
      if Done(HeadVerdict(c, env, st)) {
        DrainAppends(c, env, st1);
        if st1.log == st.log {
          DrainRepeatsLater(c, env, st1);
        }
      }
    }
  }

  lemma RetryNotRepeated(c: Config, env: Env, st: State)
    requires !Released(st.tapping) && CleanBuffer(st.buf) && st.buf != []
    ensures var st' := Retry(c, env, st);
      && st.log <= st'.log
      && (st'.log == st.log ==> !Released(st'.tapping))
      && (st'.log != st.log ==> !st'.log[|st.log|].why.Repeated?)
  {
    DecideFits(c, env, st.tapping, st.buf, st.log, st.buf[0]);
    hide Decide, FindTapEnd;
  }

  lemma AcceptNotRepeated(c: Config, env: Env, st: State, e: Event)
    requires !Ready(c, st, e) && Boundary(st)
    ensures var a := Accept(c, env, st, e);
      && st.log <= a.log
      && (a.log == st.log ==> !Released(a.tapping) || a.buf == [])
      && (a.log != st.log ==> !a.log[|st.log|].why.Repeated?)
  {
    var r := Record(e, NO_TAP);
    DecideFits(c, env, st.tapping, st.buf, st.log, r);
    DecideQuick(c, env, st.tapping, st.buf, st.log, r);
    hide Decide, FindTapEnd;
  }

  lemma DecideQuick(c: Config, env: Env, t: Record, buf: seq<Record>, log: Log, r: Record)
    ensures Decide(c, env, t, buf, log, r).TapAgain? ==> WithinTerm(c, r.event, t)
  {
  }

  lemma ReadyIff(c: Config, env: Env, st: State, e: Event)
    requires Boundary(st)
    ensures var log' := Call(c, env, st, e).log;
      |st.log| < |log'| && log'[|st.log|].why.Repeated? <==> Ready(c, st, e)
  {
    if Ready(c, st, e) {
      ReadyRepeats(c, env, st, e);
    } else {
      AcceptNotRepeated(c, env, st, e);
      AcceptClean(c, env, st, e);
      hide Accept, Ready;
      var a := Accept(c, env, st, e);
      DrainAppends(c, env, a);
      if a.log == st.log && a.buf != [] {
        DrainRepeatsLater(c, env, a);
      }
    }
  }

  /** Over every run: a press that is due as a repetition is delivered by its call at once,
      counted once more than the tap, and the call delivers nothing else. */
  lemma QuickPressRepeats(c: Config, offers: seq<Offer>, o: Offer)
    requires RepeatDue(c, offers, o.event)
    ensures var log := Run(c, offers).log;
      Run(c, offers + [o]).log == log + [Repetition(log, o.event)]
  {
    DueIffReady(c, offers, o.event);
    RunBoundary(c, offers);
    RunSnoc(c, offers, o);
    hide Run, Call, Ready, Ended, LastDecided, FirstRelease;
    ReadyRepeats(c, o.env, Run(c, offers), o.event);
  }

  /** And only then does a call begin with a repetition. */
  lemma RepeatsIffDue(c: Config, offers: seq<Offer>, o: Offer)
    ensures var n, log' := |Run(c, offers).log|, Run(c, offers + [o]).log;
      n < |log'| && log'[n].why.Repeated? <==> RepeatDue(c, offers, o.event)
  {
    DueIffReady(c, offers, o.event);
    RunBoundary(c, offers);
    RunSnoc(c, offers, o);
    hide Run, Call, Ready, RepeatDue;
    ReadyIff(c, o.env, Run(c, offers), o.event);
  }

  /** Over every run: the release of a tap that is still open goes out at once, with the
      count of its press. */
  lemma OpenTapReleased(c: Config, offers: seq<Offer>, o: Offer)
    requires var st := Run(c, offers);
      && TapLast(st.log) && TapRelease(st.log) == |st.log| && Kept(c, offers, LastDecided(st.log))
      && !Undecided(st.tapping) && TapArrivals.OwnRelease(TapPress(st.log).rec.event, o.event)
    ensures var log := Run(c, offers).log;
      TapArrivals.Delivers(Run(c, offers + [o]).log, |log|, Delivery(Record(o.event, TapPress(log).rec.tap), Plain))
  {
    RunRemembers(c, offers);
    RunSnoc(c, offers, o);
    hide Run, Call, LastDecided, FirstRelease;
    TapArrivals.TapReleasedAtOnce(c, o.env, Run(c, offers), o.event);
  }

  // ----- A run -----

  lemma TapKeyReleased(st: State)
    requires st.tapping == Plainly(At(T, 0, true)) && st.buf == [] && st.log == []
    ensures var st', tap := Call(DEFAULTS, TapKeys(), st, At(T, 100, false)), Tap(false, 1);
      && st'.tapping == Record(At(T, 100, false), tap) && st'.buf == []
      && st'.log == [Delivery(Record(At(T, 0, true), tap), Settled), Delivery(Record(At(T, 100, false), tap), Plain)]
  {
    var c, env, tap := DEFAULTS, TapKeys(), Tap(false, 1);
    var a := Accept(c, env, st, At(T, 100, false));
    assert a.tapping == Record(At(T, 0, true), tap) && a.buf == [Record(At(T, 100, false), tap)];
    assert HeadVerdict(c, env, a) == ReleaseTap(true);
    assert Retry(c, env, a).buf == [];
    assert Drain(c, env, a) == Drain(c, env, Retry(c, env, a)) == Retry(c, env, a);
  }

  /** A dual-role key, tapped and pressed again after 50 ms, is repeated. */
  lemma SecondTapRepeats()
    ensures var o := (e: Event) => Offer(TapKeys(), e);
      var offers := [o(At(T, 0, true)), o(At(T, 100, false))];
      && RepeatDue(DEFAULTS, offers, At(T, 150, true))
      && var log := Run(DEFAULTS, offers + [o(At(T, 150, true))]).log;
         |log| == 3 && log[2].rec == Record(At(T, 150, true), Tap(false, 2))
  {
    var env := TapKeys();
    var o0, o1, o2 := Offer(env, At(T, 0, true)), Offer(env, At(T, 100, false)), Offer(env, At(T, 150, true));
    OnePressed();
    TapKeyReleased(Run(DEFAULTS, [o0]));
    RunSnoc(DEFAULTS, [o0], o1);
    assert [o0] + [o1] == [o0, o1];
    var st := Run(DEFAULTS, [o0, o1]);
    assert Ready(DEFAULTS, st, At(T, 150, true));
    RunBoundary(DEFAULTS, [o0, o1]);
    hide Run, Call, RepeatDue, Ready;
    DueIffReady(DEFAULTS, [o0, o1], At(T, 150, true));
    ReadyRepeats(DEFAULTS, env, st, At(T, 150, true));
    RunSnoc(DEFAULTS, [o0, o1], o2);
  }
}
