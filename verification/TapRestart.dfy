/** What AnswersPress excludes.  A dual-role key that is pressed again after its
    quick-tap term becomes the tapping key without a search of the buffer; when
    its release already waits there, the release that settles it later is the
    wrong one.  A run of eight key events and two ticks ends with a key pressed
    as a tap and released as a hold. */
module TapRestart {
  import opened TapModel
  import opened TapLedger
  import opened TapOrder

  const X := KeyPos(1, 1)

  /** No quick taps; all keys of the run are dual-role keys. */
  const NO_QUICK := Config(200, 0, false, false)

  function AllTap(): Env {
    Env((log: Log, r: Record) => true, (log: Log, r: Record) => false)
  }

  function TickAt(time: nat): Event {
    Event(KeyPos(0, 0), time, Tick, false)
  }

  function Counted(e: Event, n: TapCount): Record {
    Record(e, Tap(false, n))
  }

  /** An event that has to wait behind an undecided key leaves everything else alone. */
  lemma OneMoreWaits(st: State, e: Event)
    requires Undecided(st.tapping) && |st.buf| < WAITING_BUFFER_SIZE - 1
    requires IsEvent(e) && WithinTerm(NO_QUICK, e, st.tapping) && e.key != st.tapping.event.key
    requires e.pressed || Typed(st.buf, e)
    requires st.buf == [] ==> e.pressed
    requires st.buf != [] ==> var h := st.buf[0].event;
      IsEvent(h) && h.pressed && WithinTerm(NO_QUICK, h, st.tapping)
    ensures Call(NO_QUICK, AllTap(), st, e)
         == State(Interrupt(st.tapping, true), st.buf + [Plainly(e)], st.log, st.input + [e], st.dropped)
  {
    var st1 := Accept(NO_QUICK, AllTap(), st, e);
    assert st1.buf == st.buf + [Plainly(e)];
    assert st1.buf[0 := st1.buf[0]] == st1.buf;
    assert HeadVerdict(NO_QUICK, AllTap(), st1) == Wait(true);
  }

  function Waiting6(): seq<Record> {
    [Plainly(At(K, 10, true)), Plainly(At(K, 20, false)), Plainly(At(K, 30, true)),
     Plainly(At(X, 40, true)), Plainly(At(K, 50, false)), Plainly(At(K, 60, true))]
  }

  function Offers7(): seq<Offer> {
    [Offer(AllTap(), At(T, 0, true)), Offer(AllTap(), At(K, 10, true)), Offer(AllTap(), At(K, 20, false)),
     Offer(AllTap(), At(K, 30, true)), Offer(AllTap(), At(X, 40, true)), Offer(AllTap(), At(K, 50, false)),
     Offer(AllTap(), At(K, 60, true))]
  }

  /** T is undecided, and the first `n` of the six others wait. */
  predicate WaitBehindT(st: State, n: nat)
    requires n <= 6
  {
    && st.tapping == Interrupt(Plainly(At(T, 0, true)), n > 0)
    && st.buf == Waiting6()[..n] && st.log == [] && st.dropped == []
  }

  lemma NextWaits(st: State, n: nat)
    requires n < 6 && WaitBehindT(st, n)
    ensures WaitBehindT(Call(NO_QUICK, AllTap(), st, Waiting6()[n].event), n + 1)
  {
    hide Call;
    var e := Waiting6()[n].event;
    assert Waiting6()[..n + 1] == Waiting6()[..n] + [Waiting6()[n]];
    if n > 0 {
      assert st.buf[0] == Waiting6()[0];
      if e.key == K && !e.pressed {
        assert st.buf[0].event.pressed && st.buf[0].event.key == K;
        assert Typed(st.buf, e);
      }
    }
    OneMoreWaits(st, e);
  }

  lemma {:induction false} SixWait(n: nat)
    requires n < 7
    ensures WaitBehindT(Run(NO_QUICK, Offers7()[..n + 1]), n)
  {
    var o := Offers7();
    assert o[..n + 1] == o[..n] + [o[n]];
    RunSnoc(NO_QUICK, o[..n], o[n]);
    if n == 0 {
      assert o[..0] == [];
    } else {
      hide Run, Call, WaitBehindT;
      SixWait(n - 1);
      assert o[n].event == Waiting6()[n - 1].event;
      NextWaits(Run(NO_QUICK, o[..n]), n - 1);
    }
  }

  /** The tick settles T as held; K is tapped once, and its second press becomes
      the tapping key although the release at 50 waits. */
  lemma TickSettlesT(st: State)
    requires st.tapping == Interrupt(Plainly(At(T, 0, true)), true)
    requires st.buf == Waiting6() && st.log == []
    ensures var st' := Call(NO_QUICK, AllTap(), st, TickAt(200));
      && st'.tapping == Interrupt(Plainly(At(K, 30, true)), true)
      && st'.buf == Waiting6()[3..]
      && |st'.log| == 3
  {
    var c, env, w := NO_QUICK, AllTap(), Waiting6();
    var a := Accept(c, env, st, TickAt(200));
    assert a.tapping == NO_RECORD && a.buf == w && |a.log| == 1;
    hide Retry, HeadVerdict, Accept;
    FirstTap(a);
    var b := Retry(c, env, a);
    FirstRelease(b);
    var d := Retry(c, env, b);
    SecondPress(d);
    assert Drain(c, env, a) == Drain(c, env, b);
  }

  lemma FirstRelease(b: State)
    requires b.tapping == Counted(At(K, 10, true), 1)
    requires b.buf == [Counted(At(K, 20, false), 1)] + Waiting6()[2..]
    ensures Done(HeadVerdict(NO_QUICK, AllTap(), b))
    ensures var d := Retry(NO_QUICK, AllTap(), b);
      && d.tapping == Counted(At(K, 20, false), 1) && d.buf == Waiting6()[2..] && |d.log| == |b.log| + 1
  {
  }

  lemma SecondPress(d: State)
    requires d.tapping == Counted(At(K, 20, false), 1) && d.buf == Waiting6()[2..]
    ensures var f := Drain(NO_QUICK, AllTap(), d);
      && f.tapping == Interrupt(Plainly(At(K, 30, true)), true)
      && f.buf == Waiting6()[3..] && f.log == d.log
  {
    var c, env, w := NO_QUICK, AllTap(), Waiting6();
    var f := Retry(c, env, d);
    assert f.tapping == w[2] && f.buf == w[3..] && f.log == d.log;
    assert f.buf[0 := f.buf[0]] == f.buf;
    assert Drain(c, env, f) == Retry(c, env, f);
  }

  lemma FirstTap(a: State)
    requires a.tapping == NO_RECORD && a.buf == Waiting6()
    ensures Done(HeadVerdict(NO_QUICK, AllTap(), a))
    ensures var b := Retry(NO_QUICK, AllTap(), a);
      && b.tapping == Counted(At(K, 10, true), 1)
      && b.buf == [Counted(At(K, 20, false), 1)] + Waiting6()[2..]
      && |b.log| == |a.log| + 1
  {
    var w := Waiting6();
    assert !EndsTap(NO_QUICK, w[0], w[0]) && EndsTap(NO_QUICK, w[0], w[1]);
    assert FindTapEnd(NO_QUICK, w[0], w) == 1;
  }

  /** The release at 205 settles K as a tap and goes to the end of the buffer. */
  lemma ReleaseQueues(st: State)
    requires st.tapping == Interrupt(Plainly(At(K, 30, true)), true)
    requires st.buf == Waiting6()[3..]
    ensures var a := Accept(NO_QUICK, AllTap(), st, At(K, 205, false));
      && a.tapping == Record(At(K, 30, true), Tap(true, 1))
      && a.buf == Waiting6()[3..] + [Record(At(K, 205, false), Tap(true, 1))]
      && a.log == st.log + [Delivery(a.tapping, Settled)]
  {
  }

  /** X then takes over, and the release at 50 still waits unmarked. */
  lemma XTakesOver(a: State)
    requires a.tapping == Record(At(K, 30, true), Tap(true, 1))
    requires a.buf == Waiting6()[3..] + [Record(At(K, 205, false), Tap(true, 1))]
    ensures Done(HeadVerdict(NO_QUICK, AllTap(), a))
    ensures Retry(NO_QUICK, AllTap(), a) == a.(tapping := Plainly(At(X, 40, true)), buf := a.buf[1..])
  {
    var c, w := NO_QUICK, Waiting6();
    assert forall i :: 0 <= i < 4 ==> !EndsTap(c, w[3], a.buf[i]);
    assert FindTapEnd(c, w[3], a.buf) == 4;
  }

  lemma XStays(b: State)
    requires b.tapping == Plainly(At(X, 40, true))
    requires b.buf == Waiting6()[4..] + [Record(At(K, 205, false), Tap(true, 1))]
    ensures Drain(NO_QUICK, AllTap(), b) == b
  {
    assert b.buf[1].event.key == K;
    assert Typed(b.buf, b.buf[0].event);
    assert b.buf[0 := b.buf[0]] == b.buf;
    assert HeadVerdict(NO_QUICK, AllTap(), b) == Wait(false);
  }

  lemma ReleaseSettlesK(st: State)
    requires st.tapping == Interrupt(Plainly(At(K, 30, true)), true)
    requires st.buf == Waiting6()[3..]
    ensures var st' := Call(NO_QUICK, AllTap(), st, At(K, 205, false));
      && st'.tapping == Plainly(At(X, 40, true))
      && |st'.buf| == 3 && st'.buf[0] == Plainly(At(K, 50, false))
      && |st'.log| == |st.log| + 1 && st'.log[..|st.log|] == st.log
      && st'.log[|st.log|].rec.event == At(K, 30, true) && st'.log[|st.log|].rec.tap.count == 1
  {
    hide Accept, Retry, HeadVerdict;
    var c, env := NO_QUICK, AllTap();
    var a := Accept(c, env, st, At(K, 205, false));
    ReleaseQueues(st);
    XTakesOver(a);
    var b := Retry(c, env, a);
    XStays(b);
    assert Drain(c, env, a) == Drain(c, env, b);
  }

  /** X runs out of time and the old release is delivered as it stands. */
  lemma TickReleasesK(st: State)
    requires st.tapping == Plainly(At(X, 40, true))
    requires |st.buf| == 3 && st.buf[0] == Plainly(At(K, 50, false))
    ensures var st' := Call(NO_QUICK, AllTap(), st, TickAt(240));
      && |st.log| + 2 <= |st'.log| && st'.log[..|st.log|] == st.log
      && st'.log[|st.log|].rec.event == At(X, 40, true)
      && st'.log[|st.log| + 1].rec == Plainly(At(K, 50, false))
  {
    var c, env := NO_QUICK, AllTap();
    var a := Accept(c, env, st, TickAt(240));
    assert a.tapping == NO_RECORD && a.buf == st.buf;
    assert a.log == st.log + [Delivery(st.tapping, Settled)];
    var b := Retry(c, env, a);
    assert b.log == a.log + [Delivery(Plainly(At(K, 50, false)), Plain)];
    DrainAppends(c, env, b);
    assert Drain(c, env, a) == Drain(c, env, b);
  }

  /** K is pressed as a tap (count 1), and the next thing that happens to K is a
      release as a hold (count 0). */
  lemma TapReleasedAsHold()
    ensures var offers := Offers7() + [Offer(AllTap(), TickAt(200)), Offer(AllTap(), At(K, 205, false)),
        Offer(AllTap(), TickAt(240))];
      var log := Run(NO_QUICK, offers).log;
      && |log| >= 6
      && log[3].rec.event == At(K, 30, true) && log[3].rec.tap.count == 1
      && log[4].rec.event == At(X, 40, true)
      && log[5].rec == Counted(At(K, 50, false), 0)
  {
    hide Run, Call;
    var o, env := Offers7(), AllTap();
    var t1, r, t2 := Offer(env, TickAt(200)), Offer(env, At(K, 205, false)), Offer(env, TickAt(240));
    assert o[..7] == o;
    SixWait(6);
    assert Waiting6()[..6] == Waiting6();
    var s7 := Run(NO_QUICK, o);
    TickSettlesT(s7);
    RunSnoc(NO_QUICK, o, t1);
    ReleaseSettlesK(Run(NO_QUICK, o + [t1]));
    RunSnoc(NO_QUICK, o + [t1], r);
    TickReleasesK(Run(NO_QUICK, o + [t1] + [r]));
    RunSnoc(NO_QUICK, o + [t1] + [r], t2);
    assert o + [t1] + [r] + [t2] == o + [t1, r, t2];
  }
}
