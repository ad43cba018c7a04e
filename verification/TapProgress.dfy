/** Progress: a buffer that no undecided key holds back is gone after at most as
    many ticks as it has events, so after at most WAITING_BUFFER_SIZE - 1. */
module TapProgress {
  import opened TapModel
  import opened TapLedger
  import opened TapOrder

  /** Nothing waits, or what waits has an undecided key to wait for. */
  predicate AtRest(st: State) {
    st.buf == [] || Undecided(st.tapping)
  }

  /** Between calls a waiting event never meets a released tapping key: the loop
      stops early only after settling or forgetting the tapping key, or when it
      is undecided. */
  predicate Boundary(st: State) {
    CleanBuffer(st.buf) && (st.buf != [] ==> !Released(st.tapping))
  }

  lemma {:induction false} DrainBoundary(c: Config, env: Env, st: State)
    requires CleanBuffer(st.buf)
    ensures var st' := Drain(c, env, st);
      Boundary(st') && |st'.buf| <= |st.buf|
    decreases |st.buf|
  {
    if st.buf != [] {
      var r := st.buf[0];
      RetryTally(c, env, st, r.event);
      if Done(HeadVerdict(c, env, st)) {
        DrainBoundary(c, env, Retry(c, env, st));
      } else {
        DecideFits(c, env, st.tapping, st.buf, st.log, r);
      }
    }
  }

  /** A tick that finds a stuck buffer takes at least one event out of it. */
  lemma TickShrinks(c: Config, env: Env, st: State, e: Event)
    requires Boundary(st) && !AtRest(st) && !IsEvent(e)
    ensures var st' := Call(c, env, st, e);
      Boundary(st') && |st'.buf| < |st.buf|
  {
    assert Decide(c, env, st.tapping, st.buf, st.log, Record(e, NO_TAP)) == Ignore;
    assert Accept(c, env, st, e) == st;
    assert Done(HeadVerdict(c, env, st));
    RetryTally(c, env, st, e);
    hide Retry, HeadVerdict, Accept;
    DrainBoundary(c, env, Retry(c, env, st));
  }

  lemma {:induction false} RunBoundary(c: Config, offers: seq<Offer>)
    ensures Boundary(Run(c, offers))
  {
    if offers != [] {
      var n := |offers| - 1;
      RunBoundary(c, offers[..n]);
      hide Accept, Drain;
      AcceptClean(c, offers[n].env, Run(c, offers[..n]), offers[n].event);
      DrainBoundary(c, offers[n].env, Accept(c, offers[n].env, Run(c, offers[..n]), offers[n].event));
    }
  }

  predicate Ticks(offers: seq<Offer>) {
    forall i :: 0 <= i < |offers| ==> !IsEvent(offers[i].event)
  }

  /** From any reachable state, whatever the ticks and the answers of the keymap
      are, the machine comes to rest within as many ticks as events wait. */
  lemma {:induction false} ComesToRest(c: Config, offers: seq<Offer>, ticks: seq<Offer>)
    requires Ticks(ticks) && |ticks| >= WAITING_BUFFER_SIZE - 1
    ensures exists n :: 0 <= n <= |Run(c, offers).buf| < WAITING_BUFFER_SIZE && AtRest(Run(c, offers + ticks[..n]))
  {
    RunBoundary(c, offers);
    var n := RestAfter(c, offers, ticks);
  }

  lemma {:induction false} RestAfter(c: Config, offers: seq<Offer>, ticks: seq<Offer>) returns (n: nat)
    requires Ticks(ticks) && |ticks| >= |Run(c, offers).buf|
    ensures n <= |Run(c, offers).buf| && AtRest(Run(c, offers + ticks[..n]))
    decreases |Run(c, offers).buf|
  {
    var st := Run(c, offers);
    if AtRest(st) {
      assert offers + ticks[..0] == offers;
      return 0;
    }
    hide Run, Call, AtRest, Boundary;
    RunBoundary(c, offers);
    TickShrinks(c, ticks[0].env, st, ticks[0].event);
    RunSnoc(c, offers, ticks[0]);
    var m := RestAfter(c, offers + [ticks[0]], ticks[1..]);
    NextTicks(offers, ticks, m);
    return m + 1;
  }

  lemma NextTicks(offers: seq<Offer>, ticks: seq<Offer>, m: nat)
    requires m < |ticks|
    ensures offers + [ticks[0]] + ticks[1..][..m] == offers + ticks[..m + 1]
  {
    assert ticks[..m + 1] == [ticks[0]] + ticks[1..][..m];
  }
}
