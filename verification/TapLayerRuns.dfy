/** Two runs of the layer cache around the resolver.  In the first, which is orderly, a key
    is released on another layer than it was pressed on, because its next press arrived
    while the release waited.  In the second a release comes out before its press, on the
    layer that the press chose when it arrived. */
module TapLayerRuns {
  import opened Bits
  import opened TapModel
  import opened TapLedger
  import opened TapOrder
  import opened TapLayers

  // ----- A key that stays pressed -----

  const M := KeyPos(1, 1)

  /** M is held by now: it switches layer 1 on. */
  predicate LayerOn(log: Log) {
    && log != []
    && var n := |log| - 1;
       if log[n].rec.event.key == M then log[n].rec.event.pressed else LayerOn(log[..n])
  }

  /** T is a dual-role key, and K a modifier on layer 0. */
  function LayerKeys(): Env {
    Env((log: Log, r: Record) => r.event.key == T, (log: Log, r: Record) => r.event.key == K && !LayerOn(log))
  }

  /** Only K has a keycode on layer 1. */
  function LayerOfK(): Choice {
    (log: Log, k: KeyPos) => if k == K && LayerOn(log) then 1 else 0
  }

  /** An ordinary event that finds nothing undecided is delivered at once. */
  lemma OrdinaryCall(st: State, e: Event)
    requires st.tapping == NO_RECORD && st.buf == [] && IsEvent(e) && e.key != T
    ensures var st' := Call(DEFAULTS, LayerKeys(), st, e);
      st'.tapping == NO_RECORD && st'.buf == [] && st'.log == st.log + [Delivery(Plainly(e), Plain)]
  {
  }

  /** T goes down, and a release of K has to wait, as it is that of a modifier by now. */
  lemma TapKeyCall(st: State)
    requires st.tapping == NO_RECORD && st.buf == []
    ensures var st' := Call(DEFAULTS, LayerKeys(), st, At(T, 10, true));
      st'.tapping == Plainly(At(T, 10, true)) && st'.buf == [] && st'.log == st.log
  {
  }

  lemma RetainedCall(st: State)
    requires st.tapping == Plainly(At(T, 10, true)) && st.buf == [] && !LayerOn(st.log)
    ensures var st' := Call(DEFAULTS, LayerKeys(), st, At(K, 20, false));
      && st'.tapping == Plainly(At(T, 10, true)) && st'.log == st.log
      && st'.buf == [Plainly(At(K, 20, false))]
  {
    var a := Accept(DEFAULTS, LayerKeys(), st, At(K, 20, false));
    assert a.buf == [Plainly(At(K, 20, false))];
    assert HeadVerdict(DEFAULTS, LayerKeys(), a) == Wait(false);
  }

  lemma PressWaitsCall(st: State)
    requires st.tapping == Plainly(At(T, 10, true)) && st.buf == [Plainly(At(K, 20, false))]
    ensures var st' := Call(DEFAULTS, LayerKeys(), st, At(K, 30, true));
      && st'.tapping == Interrupt(Plainly(At(T, 10, true)), true) && st'.log == st.log
      && st'.buf == [Plainly(At(K, 20, false)), Plainly(At(K, 30, true))]
  {
    var a := Accept(DEFAULTS, LayerKeys(), st, At(K, 30, true));
    assert a.buf == [Plainly(At(K, 20, false)), Plainly(At(K, 30, true))];
    assert a.buf[1].event.key == K && Typed(a.buf, a.buf[0].event);
    assert HeadVerdict(DEFAULTS, LayerKeys(), a) == Wait(false);
  }

  const LATE_TICK := Event(KeyPos(0, 0), 210, Tick, false)

  /** The term of T is over, and everything comes out. */
  lemma LateTickCall(st: State)
    requires st.tapping == Interrupt(Plainly(At(T, 10, true)), true)
    requires st.buf == [Plainly(At(K, 20, false)), Plainly(At(K, 30, true))]
    ensures var st' := Call(DEFAULTS, LayerKeys(), st, LATE_TICK);
      st'.log == st.log + [Delivery(st.tapping, Settled)]
                 + [Delivery(Plainly(At(K, 20, false)), Plain)] + [Delivery(Plainly(At(K, 30, true)), Plain)]
  {
    var c, env := DEFAULTS, LayerKeys();
    var a := Accept(c, env, st, LATE_TICK);
    assert a.tapping == NO_RECORD && a.buf == st.buf && a.log == st.log + [Delivery(st.tapping, Settled)];
    var b := Retry(c, env, a);
    assert b.tapping == NO_RECORD && b.buf == st.buf[1..];
    var d := Retry(c, env, b);
    assert d.buf == [];
    assert Drain(c, env, a) == Drain(c, env, b) == Drain(c, env, d) == d;
  }

  function ShiftEvents(): (s: seq<Event>)
    ensures |s| == 7
  {
    [At(M, 0, true), At(K, 5, true), At(M, 8, false), At(T, 10, true), At(K, 20, false), At(K, 30, true), LATE_TICK]
  }

  /** The first `n` of seven offers. */
  function Shift(n: nat): (s: seq<Offer>)
    requires n <= 7
    ensures |s| == n
  {
    seq(n, i requires 0 <= i < n => Offer(LayerKeys(), ShiftEvents()[i]))
  }

  lemma ShiftSnoc(n: nat)
    requires n < 7
    ensures Shift(n + 1) == Shift(n) + [Offer(LayerKeys(), ShiftEvents()[n])]
  {
  }

  function Firsts(): (log: Log)
    ensures |log| == 3
  {
    [Delivery(Plainly(At(M, 0, true)), Plain), Delivery(Plainly(At(K, 5, true)), Plain),
     Delivery(Plainly(At(M, 8, false)), Plain)]
  }

  /** M and K are delivered at once; then T is undecided and K waits. */
  predicate ShiftState(n: nat, st: State)
    requires n <= 6
  {
    && st.log == Firsts()[..if n < 3 then n else 3]
    && if n <= 3 then st.tapping == NO_RECORD && st.buf == []
       else
         && st.tapping == Interrupt(Plainly(At(T, 10, true)), n == 6)
         && st.buf == [Plainly(At(K, 20, false)), Plainly(At(K, 30, true))][..if n < 5 then 0 else n - 4]
  }

  lemma ShiftCall(n: nat, st: State)
    requires n < 6 && ShiftState(n, st)
    ensures ShiftState(n + 1, Call(DEFAULTS, LayerKeys(), st, ShiftEvents()[n]))
  {
    hide Call;
    var waiting := [Plainly(At(K, 20, false)), Plainly(At(K, 30, true))];
    if n < 3 {
      OrdinaryCall(st, ShiftEvents()[n]);
      assert Firsts()[..n + 1] == Firsts()[..n] + [Firsts()[n]];
    } else if n == 3 {
      TapKeyCall(st);
      assert waiting[..0] == [];
    } else if n == 4 {
      RetainedCall(st);
      assert waiting[..1] == [waiting[0]];
    } else {
      assert waiting[..1] == [waiting[0]] && waiting[..2] == waiting;
      PressWaitsCall(st);
    }
  }

  lemma {:induction false} ShiftRun(n: nat)
    requires n <= 6
    ensures ShiftState(n, Run(DEFAULTS, Shift(n)))
  {
    if n == 0 {
      assert Firsts()[..0] == [];
    } else {
      hide Run, Call, ShiftState;
      ShiftRun(n - 1);
      ShiftSnoc(n - 1);
      RunSnoc(DEFAULTS, Shift(n - 1), Offer(LayerKeys(), ShiftEvents()[n - 1]));
      ShiftCall(n - 1, Run(DEFAULTS, Shift(n - 1)));
    }
  }

  lemma {:induction false} ShiftKeyEvents(n: nat)
    requires n <= 6
    ensures KeyEvents(Shift(n)) == ShiftEvents()[..n]
  {
    if n > 0 {
      ShiftKeyEvents(n - 1);
      ShiftSnoc(n - 1);
      assert Shift(n)[..n - 1] == Shift(n - 1);
      assert ShiftEvents()[..n] == ShiftEvents()[..n - 1] + [ShiftEvents()[n - 1]];
    }
  }

  /** How many of the first `n` events are those of the key. */
  function Count(k: KeyPos, n: nat): nat {
    if k == M then if n < 1 then 0 else if n < 3 then 1 else 2
    else if k == T then if n < 4 then 0 else 1
    else if n < 2 then 0 else if n < 5 then 1 else n - 3
  }

  lemma AlternatesSnoc(l: seq<Event>, e: Event)
    requires Alternates(l) && e.pressed == (|l| % 2 == 0)
    ensures Alternates(l + [e])
  {
  }

  lemma NextCounts(k: KeyPos, n: nat)
    requires n < 6 && k in {M, T, K}
    ensures var e := ShiftEvents()[n];
      && Count(k, n + 1) == Count(k, n) + (if e.key == k then 1 else 0)
      && (e.key == k ==> e.pressed == (Count(k, n) % 2 == 0))
      && ShiftEvents()[..n + 1] == ShiftEvents()[..n] + [e]
  {
  }

  lemma NoneCounted(k: KeyPos)
    requires k in {M, T, K}
    ensures Count(k, 0) == 0 && Lane(k, []) == [] && Alternates([])
  {
  }

  /** The events of each key alternate. */
  lemma {:induction false} ShiftAlternates(k: KeyPos, n: nat)
    requires n <= 6 && k in {M, T, K}
    ensures var l := Lane(k, ShiftEvents()[..n]);
      |l| == Count(k, n) && Alternates(l)
  {
    hide *;
    if n == 0 {
      NoneCounted(k);
      assert ShiftEvents()[..0] == [];
    } else {
      var s, e := ShiftEvents()[..n - 1], ShiftEvents()[n - 1];
      ShiftAlternates(k, n - 1);
      NextCounts(k, n - 1);
      LaneConcat(k, s, [e]);
      LaneOne(k, e);
      if e.key == k {
        AlternatesSnoc(Lane(k, s), e);
      } else {
        assert Lane(k, s) + [] == Lane(k, s);
      }
    }
  }

  lemma OrderlyAdd(c: Config, offers: seq<Offer>, o: Offer)
    requires Orderly(c, offers)
    requires OfferOk(c, Run(c, offers), o.event) && !Overflows(c, o.env, Run(c, offers), o.event)
    requires IsEvent(o.event) ==> Alternates(Lane(o.event.key, KeyEvents(offers + [o])))
    ensures Orderly(c, offers + [o])
  {
    hide Run, OfferOk, Overflows, Alternates, Lane, KeyEvents;
    assert (offers + [o])[..|offers|] == offers;
  }

  lemma ShiftOffer(n: nat, st: State)
    requires n <= 6 && ShiftState(n, st)
    ensures OfferOk(DEFAULTS, st, ShiftEvents()[n]) && !Overflows(DEFAULTS, LayerKeys(), st, ShiftEvents()[n])
  {
    if n <= 3 {
      assert Events(st.buf) == [];
    }
  }

  lemma {:induction false} ShiftOrderly(n: nat)
    requires n <= 7
    ensures Orderly(DEFAULTS, Shift(n))
  {
    if n > 0 {
      hide Run, OfferOk, Overflows, Lane, KeyEvents, ShiftState, Alternates;
      var before, e := Shift(n - 1), ShiftEvents()[n - 1];
      ShiftOrderly(n - 1);
      ShiftSnoc(n - 1);
      ShiftRun(n - 1);
      ShiftOffer(n - 1, Run(DEFAULTS, before));
      if n < 7 {
        ShiftKeyEvents(n);
        ShiftAlternates(e.key, n);
      }
      OrderlyAdd(DEFAULTS, before, Offer(LayerKeys(), e));
    }
  }

  /** All that meets the cache.  K is pressed with layer 1 on.  Its release waits, and
      meanwhile its next press arrives with layer 1 off. */
  function ShiftTouches(): (s: seq<Touch>)
    ensures |s| == 12
  {
    [Arrives(0, 0, At(M, 0, true), 0), Leaves(0, Firsts()[0], 0),
     Arrives(1, 1, At(K, 5, true), 1), Leaves(1, Firsts()[1], 1),
     Arrives(2, 2, At(M, 8, false), 0), Leaves(2, Firsts()[2], 0),
     Arrives(3, 3, At(T, 10, true), 0), Arrives(4, 3, At(K, 20, false), 0), Arrives(5, 3, At(K, 30, true), 0),
     Leaves(3, Delivery(Interrupt(Plainly(At(T, 10, true)), true), Settled), 0),
     Leaves(4, Delivery(Plainly(At(K, 20, false)), Plain), 0), Leaves(5, Delivery(Plainly(At(K, 30, true)), Plain), 0)]
  }

  function Tops(n: nat): (s: seq<Choice>)
    ensures |s| == n
    ensures n > 0 ==> s == Tops(n - 1) + [LayerOfK()]
  {
    seq(n, _ => LayerOfK())
  }

  lemma ShiftLayers()
    ensures !LayerOn([]) && LayerOn(Firsts()[..1]) && LayerOn(Firsts()[..2]) && !LayerOn(Firsts()[..3])
  {
    assert Firsts()[..2][..1] == Firsts()[..1];
  }

  /** What one offer adds, while everything is delivered at once. */
  lemma ShiftDelivers(n: nat, log: Log, log': Log)
    requires n < 3 && log == Firsts()[..n] && log' == Firsts()[..n + 1]
    ensures Arriving(n, log, ShiftEvents()[n], LayerOfK()) == [ShiftTouches()[2 * n]]
    ensures Leaving(log', |log|, LayerOfK()) == [ShiftTouches()[2 * n + 1]]
  {
    ShiftLayers();
    assert log'[..n] == log;
  }

  lemma ShiftArrives(n: nat, log: Log)
    requires 3 <= n < 6 && log == Firsts()
    ensures Arriving(n, log, ShiftEvents()[n], LayerOfK()) == [ShiftTouches()[n + 3]]
    ensures Leaving(log, |log|, LayerOfK()) == []
  {
    ShiftLayers();
    assert Firsts()[..3] == Firsts();
  }

  /** The tick brings out T, the release of K and its next press. */
  lemma ShiftEnds(log: Log, log': Log)
    requires log == Firsts() && |log'| == 6 && log <= log'
    requires forall i :: 3 <= i < 6 ==> log'[i] == ShiftTouches()[6 + i].delivery
    ensures Leaving(log', |log|, LayerOfK()) == ShiftTouches()[9..]
  {
    ShiftLayers();
    assert log'[..3] == log == Firsts()[..3];
    assert log'[..4][..3] == log'[..3] && log'[..5][..4] == log'[..4];
    assert !LayerOn(log'[..4]) && !LayerOn(log'[..5]);
  }

  /** How much has met the cache after so many offers. */
  function Met(n: nat): (m: nat)
    ensures m == if n <= 3 then 2 * n else n + 3
  {
    if n <= 3 then 2 * n else n + 3
  }

  lemma ShiftLog(n: nat)
    requires n <= 6
    ensures Run(DEFAULTS, Shift(n)).log == Firsts()[..if n < 3 then n else 3]
  {
    hide Run, Shift, Firsts;
    ShiftRun(n);
  }

  lemma {:induction false} ShiftTrace(n: nat)
    requires n <= 6
    ensures Trace(DEFAULTS, Shift(n), Tops(n)) == ShiftTouches()[..Met(n)]
  {
    if n == 0 {
    } else {
      ShiftTrace(n - 1);
      NextOfTrace(n - 1);
    }
  }

  lemma NextOfTrace(n: nat)
    requires n < 6 && Trace(DEFAULTS, Shift(n), Tops(n)) == ShiftTouches()[..Met(n)]
    ensures Trace(DEFAULTS, Shift(n + 1), Tops(n + 1)) == ShiftTouches()[..Met(n + 1)]
  {
    hide *;
    var all, o := ShiftTouches(), Offer(LayerKeys(), ShiftEvents()[n]);
    var log, log' := Run(DEFAULTS, Shift(n)).log, Run(DEFAULTS, Shift(n + 1)).log;
    ShiftSnoc(n);
    TraceSnoc(DEFAULTS, Shift(n), Tops(n), o, LayerOfK());
    ShiftLog(n);
    ShiftLog(n + 1);
    assert Tops(n + 1) == Tops(n) + [LayerOfK()];
    if n < 3 {
      ShiftDelivers(n, log, log');
      assert all[..Met(n + 1)] == all[..Met(n)] + [all[2 * n]] + [all[2 * n + 1]];
    } else {
      assert Firsts()[..3] == Firsts();
      ShiftArrives(n, log);
      assert all[..Met(n + 1)] == all[..Met(n)] + [all[n + 3]] + [];
    }
  }

  /** The deliveries of the last call. */
  lemma ShiftLast()
    ensures var log, log' := Firsts(), Run(DEFAULTS, Shift(7)).log;
      && Run(DEFAULTS, Shift(6)).log == log
      && |log'| == 6 && log <= log' && forall i :: 3 <= i < 6 ==> log'[i] == ShiftTouches()[6 + i].delivery
  {
    hide Run, Call;
    var st, o := Run(DEFAULTS, Shift(6)), Offer(LayerKeys(), LATE_TICK);
    ShiftRun(6);
    ShiftSnoc(6);
    assert [Plainly(At(K, 20, false)), Plainly(At(K, 30, true))][..2] == st.buf;
    LateTickCall(st);
    RunSnoc(DEFAULTS, Shift(6), o);
    assert st.log == Firsts()[..3] == Firsts();
  }

  lemma NoArrival(n: nat, log: Log, top: Choice)
    ensures Arriving(n, log, LATE_TICK, top) == []
  {
  }

  lemma WholeShift()
    ensures Trace(DEFAULTS, Shift(7), Tops(7)) == ShiftTouches()
  {
    hide *;
    var all, log, log' := ShiftTouches(), Run(DEFAULTS, Shift(6)).log, Run(DEFAULTS, Shift(7)).log;
    ShiftTrace(6);
    ShiftSnoc(6);
    ShiftLast();
    TraceSnoc(DEFAULTS, Shift(6), Tops(6), Offer(LayerKeys(), ShiftEvents()[6]), LayerOfK());
    assert Tops(7) == Tops(6) + [LayerOfK()];
    TickIsLast();
    NoArrival(6, log, LayerOfK());
    ShiftEnds(log, log');
    assert all == all[..9] + [] + all[9..];
  }

  lemma TickIsLast()
    ensures ShiftEvents()[6] == LATE_TICK
  {
  }

  /** Layers 0 and 1 can be numbered. */
  lemma ShiftNumbered(b: Board)
    requires b.layerBits <= CHAR_BIT && Low(1, b.layerBits) == 1
    ensures Numbered(b, ShiftTouches())
  {
  }

  lemma ShiftWrites()
    ensures var touches := ShiftTouches();
      && touches[3].Leaves? && touches[3].Subject() == At(K, 5, true) && touches[3].chosen == 1
      && touches[10].Leaves? && touches[10].Subject() == At(K, 20, false)
      && LastWrite(K, touches[..10]) == 8 && touches[8].chosen == 0
  {
    hide LastWrite;
    var before := ShiftTouches()[..10];
    assert Presses(before[8], K) && !Presses(before[9], K);
  }

  /** An orderly run in which a key stays pressed.  K is pressed on layer 1, and its release
      is looked up on layer 0, because K was pressed again while the release waited. */
  lemma KeyStaysPressed(b: Board)
    requires b.layerBits <= CHAR_BIT && b.InMatrix(K) && Low(1, b.layerBits) == 1
    ensures Orderly(DEFAULTS, Shift(7))
    ensures var touches := Trace(DEFAULTS, Shift(7), Tops(7));
      && |touches| == 12
      && touches[3].Leaves? && touches[3].Subject() == At(K, 5, true) && LookedUp(b, touches, 3) == 1
      && touches[10].Leaves? && touches[10].Subject() == At(K, 20, false) && LookedUp(b, touches, 10) == 0
  {
    hide *;
    ShiftOrderly(7);
    WholeShift();
    var touches := ShiftTouches();
    ShiftNumbered(b);
    ShiftWrites();
    Pressing();
    PressLookedUp(b, touches, 3);
    ReleaseLookedUp(b, touches, 10);
  }

  lemma Pressing()
    ensures At(K, 5, true).pressed && !At(K, 20, false).pressed && At(K, 20, false).key == K
  {
  }

  // ----- A release that comes out early -----

  const EARLY :=
    [Offer(TapKeys(), At(T, 0, true)), Offer(TapKeys(), At(U, 10, true)),
     Offer(TapKeys(), At(A, 215, true)), Offer(TapKeys(), At(A, 216, false))]

  /** The deliveries of the four calls. */
  lemma EarlyRuns()
    ensures Run(DEFAULTS, EARLY[..1]).log == Run(DEFAULTS, EARLY[..2]).log == []
    ensures var log, log' := Run(DEFAULTS, EARLY[..3]).log, Run(DEFAULTS, EARLY).log;
      && |log| == 2 && log[0].rec.event == At(T, 0, true) && log[1].rec.event == At(U, 10, true)
      && log' == log + [Delivery(Plainly(At(A, 216, false)), Plain)] + [Delivery(Plainly(At(A, 215, true)), Plain)]
  {
    hide Run, Call;
    var two := EARLY[..2];
    assert EARLY[..1] == [EARLY[0]] && two == [EARLY[0], EARLY[1]];
    assert EARLY[..3] == two + [EARLY[2]] && EARLY == EARLY[..3] + [EARLY[3]];
    OnePressed();
    TwoPressed();
    LatePress(Run(DEFAULTS, two));
    RunSnoc(DEFAULTS, two, EARLY[2]);
    EarlyRelease(Run(DEFAULTS, EARLY[..3]));
    RunSnoc(DEFAULTS, EARLY[..3], EARLY[3]);
  }

  lemma OneArrives(c: Config, offers: seq<Offer>, tops: seq<Choice>, o: Offer, top: Choice)
    requires |tops| == |offers| && IsEvent(o.event)
    requires Run(c, offers + [o]).log == Run(c, offers).log
    ensures |Trace(c, offers + [o], tops + [top])| == |Trace(c, offers, tops)| + 1
  {
    hide Run, Trace;
    TraceSnoc(c, offers, tops, o, top);
  }

  lemma NothingYet()
    ensures Run(DEFAULTS, []).log == [] && Trace(DEFAULTS, [], []) == []
    ensures |EARLY| == 4 && IsEvent(EARLY[0].event) && IsEvent(EARLY[1].event)
  {
  }

  lemma EarlyBegins(tops: seq<Choice>)
    requires |tops| == 4
    ensures |Trace(DEFAULTS, EARLY[..2], tops[..2])| == 2
  {
    hide *;
    NothingYet();
    EarlyRuns();
    assert EARLY[..1] == [] + [EARLY[0]] && EARLY[..2] == EARLY[..1] + [EARLY[1]];
    assert tops[..1] == [] + [tops[0]] && tops[..2] == tops[..1] + [tops[1]];
    OneArrives(DEFAULTS, [], [], EARLY[0], tops[0]);
    OneArrives(DEFAULTS, EARLY[..1], tops[..1], EARLY[1], tops[1]);
  }

  lemma EarlyArrivals(log: Log, tops: seq<Choice>)
    requires |tops| == 4
    ensures Arriving(2, [], EARLY[2].event, tops[2]) == [Arrives(2, 0, At(A, 215, true), tops[2]([], A))]
    ensures Arriving(3, log, EARLY[3].event, tops[3]) == [Arrives(3, |log|, At(A, 216, false), tops[3](log, A))]
  {
  }

  lemma EarlySplits(tops: seq<Choice>)
    requires |tops| == 4
    ensures EARLY[..3] == EARLY[..2] + [EARLY[2]] && EARLY == EARLY[..3] + [EARLY[3]]
    ensures tops[..3] == tops[..2] + [tops[2]] && tops == tops[..3] + [tops[3]]
  {
  }

  /** The pieces of the trace, with what the last two calls deliver. */
  lemma EarlyPieces(tops: seq<Choice>)
    requires |tops| == 4
    ensures var log, log', begins := Run(DEFAULTS, EARLY[..3]).log, Run(DEFAULTS, EARLY).log,
        Trace(DEFAULTS, EARLY[..2], tops[..2]);
      && |log| == 2 && log <= log' && |begins| == 2
      && Trace(DEFAULTS, EARLY, tops)
      == begins + [Arrives(2, 0, At(A, 215, true), tops[2]([], A))] + Leaving(log, 0, tops[2])
         + [Arrives(3, 2, At(A, 216, false), tops[3](log, A))] + Leaving(log', 2, tops[3])
  {
    hide *;
    EarlyRuns();
    EarlyBegins(tops);
    EarlySplits(tops);
    EarlyArrivals(Run(DEFAULTS, EARLY[..3]).log, tops);
    TraceSnoc(DEFAULTS, EARLY[..2], tops[..2], EARLY[2], tops[2]);
    TraceSnoc(DEFAULTS, EARLY[..3], tops[..3], EARLY[3], tops[3]);
  }

  lemma EarlyTrace(tops: seq<Choice>)
    requires |tops| == 4
    ensures var touches, log := Trace(DEFAULTS, EARLY, tops), Run(DEFAULTS, EARLY).log;
      && |touches| == 8 && |log| == 4
      && touches[2] == Arrives(2, 0, At(A, 215, true), tops[2]([], A))
      && touches[3].Subject() == At(T, 0, true) && touches[4].Subject() == At(U, 10, true)
      && touches[5].Subject() == At(A, 216, false)
      && touches[6].Leaves? && touches[6].Subject() == At(A, 216, false)
      && touches[7] == Leaves(3, Delivery(Plainly(At(A, 215, true)), Plain), tops[3](log[..3], A))
  {
    hide Run, Trace, Leaving;
    EarlyRuns();
    EarlyPieces(tops);
  }

  lemma EarlyWrite(touches: seq<Touch>)
    requires |touches| == 8 && touches[2].Subject() == At(A, 215, true)
    requires touches[3].Subject() == At(T, 0, true) && touches[4].Subject() == At(U, 10, true)
    requires touches[5].Subject() == At(A, 216, false)
    ensures LastWrite(A, touches[..6]) == 2
  {
    hide LastWrite;
    var before := touches[..6];
    assert Presses(before[2], A) && !Presses(before[3], A) && !Presses(before[4], A) && !Presses(before[5], A);
  }

  /** In the run of four key events that is not orderly, the release comes out before its
      press is delivered, on the layer that the press chose when it arrived. */
  lemma EarlyReleaseOnLayerOfArrival(b: Board, tops: seq<Choice>)
    requires |tops| == 4 && b.layerBits <= CHAR_BIT && AllNumbered(b, tops) && b.InMatrix(A)
    ensures var touches, log := Trace(DEFAULTS, EARLY, tops), Run(DEFAULTS, EARLY).log;
      && |touches| == 8 && |log| == 4
      && touches[6].Leaves? && touches[6].Subject() == At(A, 216, false)
      && LookedUp(b, touches, 6) == tops[2]([], A)
      && touches[7].Leaves? && touches[7].Subject() == At(A, 215, true)
      && LookedUp(b, touches, 7) == tops[3](log[..3], A)
  {
    hide Run, Trace, LookedUp, Numbered, AllNumbered, LastWrite, Low, TapKeys;
    var touches := Trace(DEFAULTS, EARLY, tops);
    EarlyTrace(tops);
    TraceNumbered(DEFAULTS, EARLY, tops, b);
    EarlyWrite(touches);
    ReleaseLookedUp(b, touches, 6);
    PressLookedUp(b, touches, 7);
  }
}
