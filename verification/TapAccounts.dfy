/** Every tap is ended, in every run without an overflow and in whatever order events
    are offered: for each press delivered with a tap count, that key still is the tapping
    key with that count, or a later release of it with that count was delivered, or such
    a release waits.  (Module TapBalance says when it is the very next event of the key.) */
module TapAccounts {
  import opened TapModel
  import opened TapLedger
  import opened TapOrder

  predicate Releases(r: Record, k: KeyPos, n: TapCount) {
    !r.event.pressed && r.event.key == k && r.tap.count == n
  }

  /** A release of the key with that count was delivered after the `i`-th delivery. */
  predicate Ended(log: Log, i: nat, k: KeyPos, n: TapCount) {
    exists j :: i < j < |log| && Releases(log[j].rec, k, n)
  }

  predicate Waits(buf: seq<Record>, k: KeyPos, n: TapCount) {
    exists j :: 0 <= j < |buf| && Releases(buf[j], k, n)
  }

  predicate HeldDown(t: Record, k: KeyPos, n: TapCount) {
    IsEvent(t.event) && t.event.pressed && t.event.key == k && t.tap.count == n
  }

  /** The tapping key has gone past its first tap. */
  predicate Past(t: Record, k: KeyPos) {
    && IsEvent(t.event) && t.event.key == k
    && if t.event.pressed then t.tap.count >= 2 else t.tap.count >= 1
  }

  /** What is known of a press with a count: a first tap has its release waiting until
      it was delivered, and a repeated tap is held until then. */
  predicate Settles(t: Record, buf: seq<Record>, log: Log, i: nat, k: KeyPos, n: TapCount) {
    || Ended(log, i, k, n)
    || if n == 1 then Waits(buf, k, 1) && !Past(t, k) else HeldDown(t, k, n)
  }

  ghost predicate Accounted(t: Record, buf: seq<Record>, log: Log) {
    forall i :: 0 <= i < |log| && log[i].rec.event.pressed && log[i].rec.tap.count >= 1 ==>
      Settles(t, buf, log, i, log[i].rec.event.key, log[i].rec.tap.count)
  }

  // ----- Waiting releases -----

  lemma WaitsConcat(a: seq<Record>, b: seq<Record>, k: KeyPos, n: TapCount)
    ensures Waits(a + b, k, n) <==> Waits(a, k, n) || Waits(b, k, n)
  {
    var s := a + b;
    if j :| 0 <= j < |a| && Releases(a[j], k, n) {
      assert s[j] == a[j];
    }
    if j :| 0 <= j < |b| && Releases(b[j], k, n) {
      assert s[|a| + j] == b[j];
    }
    if j :| 0 <= j < |s| && Releases(s[j], k, n) {
      assert if j < |a| then s[j] == a[j] else s[j] == b[j - |a|];
    }
  }

  lemma WaitsOne(r: Record, k: KeyPos, n: TapCount)
    ensures Waits([r], k, n) <==> Releases(r, k, n)
  {
    assert [r][0] == r;
  }

  lemma EndedLater(log: Log, more: Log, i: nat, k: KeyPos, n: TapCount)
    requires Ended(log, i, k, n)
    ensures Ended(log + more, i, k, n)
  {
    var j :| i < j < |log| && Releases(log[j].rec, k, n);
    assert (log + more)[j] == log[j];
  }

  lemma EndedNow(log: Log, d: Delivery, i: nat, k: KeyPos, n: TapCount)
    requires i < |log| && Releases(d.rec, k, n)
    ensures Ended(log + [d], i, k, n)
  {
    assert (log + [d])[|log|] == d;
  }

  // ----- One turn -----

  /** What waits besides the record that is processed: the whole ring for a new event,
      all but the head for the head. */
  predicate Besides(st: State, r: Record, a: nat) {
    a <= 1 && a <= |st.buf| && (a == 1 ==> st.buf[0] == r)
  }

  /** An exit that adds nothing but a record that is no press with a count keeps the
      account if it keeps every single entry. */
  lemma AccountedStep(t: Record, buf: seq<Record>, log: Log, t': Record, buf': seq<Record>, more: Log)
    requires Accounted(t, buf, log)
    requires forall i, k, n: TapCount ::
               0 <= i < |log| && n >= 1 && Settles(t, buf, log, i, k, n) && !Ended(log, i, k, n)
               ==> Settles(t', buf', log + more, i, k, n)
    requires forall i :: 0 <= i < |more| && more[i].rec.event.pressed && more[i].rec.tap.count >= 1 ==>
               Settles(t', buf', log + more, |log| + i, more[i].rec.event.key, more[i].rec.tap.count)
    ensures Accounted(t', buf', log + more)
  {
    var log' := log + more;
    forall i | 0 <= i < |log'| && log'[i].rec.event.pressed && log'[i].rec.tap.count >= 1
      ensures Settles(t', buf', log', i, log'[i].rec.event.key, log'[i].rec.tap.count)
    {
      if i < |log| {
        var k, n := log[i].rec.event.key, log[i].rec.tap.count;
        assert log'[i] == log[i];
        assert Settles(t, buf, log, i, k, n);
        if Ended(log, i, k, n) {
          EndedLater(log, more, i, k, n);
        }
      } else {
        assert log'[i] == more[i - |log|];
      }
    }
  }

  /** What waits after an exit. */
  function Left(st: State, r: Record, v: Verdict, a: nat): seq<Record>
    requires a <= |st.buf|
  {
    if Done(v) then st.buf[a..] else st.buf[a..] + [r]
  }

  /** Exits that leave the ring alone keep each entry of the account. */
  lemma EntryKept(c: Config, st: State, r: Record, v: Verdict, a: nat, i: nat, k: KeyPos, n: TapCount)
    requires Fits(c, st.tapping, st.buf, r, v) && Clean(r) && IsEvent(r.event) && Besides(st, r, a)
    requires !v.Begin? && !v.Restart? && !v.Replace?
    requires i < |st.log| && n >= 1
    requires Settles(st.tapping, st.buf[a..] + [r], st.log, i, k, n) && !Ended(st.log, i, k, n)
    ensures var st', r' := Apply(c, st, r, v), Patch(st.tapping, r, v);
      Settles(st'.tapping, Left(st', r', v, a), st'.log, i, k, n)
  {
    var t, rest := st.tapping, st.buf[a..];
    var st', r' := Apply(c, st, r, v), Patch(t, r, v);
    assert st'.buf == st.buf;
    WaitsConcat(rest, [r], k, n);
    WaitsOne(r, k, n);
    WaitsConcat(rest, [r'], k, n);
    WaitsOne(r', k, n);
    hide Waits, Elapsed, Typed;
    if v.Pass? || v.ReleaseTap? {
      var d := st'.log[|st.log|];
      assert st'.log == st.log + [d];
      if Releases(d.rec, k, n) {
        EndedNow(st.log, d, i, k, n);
      }
    }
  }

  lemma OthersAccounted(c: Config, st: State, r: Record, v: Verdict, a: nat)
    requires Fits(c, st.tapping, st.buf, r, v) && Clean(r) && IsEvent(r.event) && Besides(st, r, a)
    requires !v.Begin? && !v.Restart? && !v.Replace?
    requires Accounted(st.tapping, st.buf[a..] + [r], st.log)
    ensures var st', r' := Apply(c, st, r, v), Patch(st.tapping, r, v);
      Accounted(st'.tapping, Left(st', r', v, a), st'.log)
  {
    var t, rest := st.tapping, st.buf[a..];
    var st', r' := Apply(c, st, r, v), Patch(t, r, v);
    var more := st'.log[|st.log|..];
    assert st'.log == st.log + more;
    forall i, k, n: TapCount | 0 <= i < |st.log| && n >= 1
        && Settles(t, rest + [r], st.log, i, k, n) && !Ended(st.log, i, k, n)
      ensures Settles(st'.tapping, Left(st', r', v, a), st'.log, i, k, n)
    {
      EntryKept(c, st, r, v, a, i, k, n);
    }
    if v.SettleTap? {
      WaitsConcat(rest, [r'], r'.event.key, 1);
      WaitsOne(r', r'.event.key, 1);
    }
    hide Ended, Waits, Typed, Elapsed;
    AccountedStep(t, rest + [r], st.log, st'.tapping, Left(st', r', v, a), more);
  }

  /** A press takes over as the tapping key; the end of a repeated tap is made up. */
  function TakingLog(st: State, r: Record, v: Verdict): Log {
    if v.Replace? && st.tapping.tap.count > 1
    then st.log + [Delivery(SyntheticRelease(st.tapping, r.event), Synthetic)]
    else st.log
  }

  lemma EntryTaken(c: Config, st: State, r: Record, v: Verdict, a: nat, i: nat, k: KeyPos, n: TapCount)
    requires Fits(c, st.tapping, st.buf, r, v) && Clean(r) && Besides(st, r, a)
    requires v.Begin? || v.Restart? || v.Replace?
    requires i < |st.log| && n >= 1
    requires Settles(st.tapping, st.buf[a..] + [r], st.log, i, k, n) && !Ended(st.log, i, k, n)
    ensures Settles(r, st.buf[a..], TakingLog(st, r, v), i, k, n)
  {
    var t := st.tapping;
    WaitsConcat(st.buf[a..], [r], k, n);
    WaitsOne(r, k, n);
    hide Waits, Elapsed;
    if v.Replace? && HeldDown(t, k, n) && n >= 2 {
      EndedNow(st.log, Delivery(SyntheticRelease(t, r.event), Synthetic), i, k, n);
    }
  }

  lemma TakenAccounted(c: Config, st: State, r: Record, v: Verdict, a: nat)
    requires Fits(c, st.tapping, st.buf, r, v) && Clean(r) && Besides(st, r, a)
    requires v.Begin? || v.Restart? || v.Replace?
    requires Accounted(st.tapping, st.buf[a..] + [r], st.log)
    ensures Accounted(r, st.buf[a..], TakingLog(st, r, v))
  {
    var rest, log' := st.buf[a..], TakingLog(st, r, v);
    var more := log'[|st.log|..];
    assert log' == st.log + more;
    forall i, k, n: TapCount | 0 <= i < |st.log| && n >= 1
        && Settles(st.tapping, rest + [r], st.log, i, k, n) && !Ended(st.log, i, k, n)
      ensures Settles(r, rest, log', i, k, n)
    {
      EntryTaken(c, st, r, v, a, i, k, n);
    }
    hide Ended, Waits;
    AccountedStep(st.tapping, rest + [r], st.log, r, rest, more);
  }

  /** Settling a new tapping key at once marks the release that ends the tap. */
  lemma ScanAccounted(c: Config, st: State, a: nat)
    requires Undecided(st.tapping) && Besides(st, st.tapping, a)
    requires Accounted(st.tapping, st.buf[a..], st.log)
    ensures var st' := Scan(c, st);
      |st'.buf| == |st.buf| && Accounted(st'.tapping, st'.buf[a..], st'.log)
  {
    var st' := Scan(c, st);
    if st'.log != st.log {
      var m := FindTapEnd(c, st.tapping, st.buf);
      var more := [st'.log[|st.log|]];
      assert st'.log == st.log + more;
      var rest, rest' := st.buf[a..], st'.buf[a..];
      assert m >= a;
      assert rest' == rest[m - a := st'.buf[m]];
      forall i, k, n: TapCount | 0 <= i < |st.log| && n >= 1
          && Settles(st.tapping, rest, st.log, i, k, n) && !Ended(st.log, i, k, n)
        ensures Settles(st'.tapping, rest', st'.log, i, k, n)
      {
        MarkKeeps(rest, m - a, st'.buf[m], k);
      }
      assert Releases(rest'[m - a], st'.tapping.event.key, 1);
      hide Ended, Waits;
      AccountedStep(st.tapping, rest, st.log, st'.tapping, rest', more);
    }
  }

  lemma MarkKeeps(buf: seq<Record>, m: nat, w: Record, k: KeyPos)
    requires m < |buf| && w.event == buf[m].event && w.tap.count == 1 && Waits(buf, k, 1)
    ensures Waits(buf[m := w], k, 1)
  {
    var j :| 0 <= j < |buf| && Releases(buf[j], k, 1);
    assert Releases(buf[m := w][j], k, 1);
  }

  lemma TurnAccounted(c: Config, env: Env, st: State, r: Record, a: nat)
    requires Clean(r) && IsEvent(r.event) && Besides(st, r, a)
    requires Accounted(st.tapping, st.buf[a..] + [r], st.log)
    ensures var v := Decide(c, env, st.tapping, st.buf, st.log, r);
      var st', r' := Apply(c, st, r, v), Patch(st.tapping, r, v);
      |st'.buf| == |st.buf| && Accounted(st'.tapping, Left(st', r', v, a), st'.log)
  {
    var v := Decide(c, env, st.tapping, st.buf, st.log, r);
    DecideFits(c, env, st.tapping, st.buf, st.log, r);
    hide Decide, Accounted;
    if v.Begin? || v.Restart? || v.Replace? {
      assert Undecided(r);
      TakenAccounted(c, st, r, v, a);
      if !v.Restart? {
        hide Fits;
        ScanAccounted(c, st.(tapping := r, log := TakingLog(st, r, v)), a);
      }
    } else {
      hide Fits;
      OthersAccounted(c, st, r, v, a);
    }
  }

  // ----- Runs -----

  ghost predicate Balances(st: State) {
    CleanBuffer(st.buf) && (st.dropped == [] ==> Accounted(st.tapping, st.buf, st.log))
  }

  /** Ticks can only settle or forget the tapping key. */
  lemma TickAccounted(c: Config, env: Env, st: State, e: Event)
    requires !IsEvent(e) && Accounted(st.tapping, st.buf, st.log)
    ensures var st' := Accept(c, env, st, e);
      Accounted(st'.tapping, st'.buf, st'.log)
  {
    var v := Decide(c, env, st.tapping, st.buf, st.log, Record(e, NO_TAP));
    DecideFits(c, env, st.tapping, st.buf, st.log, Record(e, NO_TAP));
    var st' := Accept(c, env, st, e);
    hide Decide, Waits, Ended;
    var more := st'.log[|st.log|..];
    assert st'.log == st.log + more;
    AccountedStep(st.tapping, st.buf, st.log, st'.tapping, st'.buf, more);
  }

  lemma AccountedMoved(t: Record, a: seq<Record>, b: seq<Record>, log: Log)
    requires Accounted(t, a, log) && forall k :: Waits(a, k, 1) ==> Waits(b, k, 1)
    ensures Accounted(t, b, log)
  {
    hide Waits, Ended;
  }

  lemma AcceptAccounted(c: Config, env: Env, st: State, e: Event)
    requires Balances(st)
    ensures Balances(Accept(c, env, st, e))
  {
    var st', r := Accept(c, env, st, e), Record(e, NO_TAP);
    AcceptClean(c, env, st, e);
    var v := Decide(c, env, st.tapping, st.buf, st.log, r);
    DecideFits(c, env, st.tapping, st.buf, st.log, r);
    var st0 := Offered(st, e);
    hide Decide, Fits, Accounted;
    ApplyFront(c, st0, r, v);
    if st'.dropped == [] {
      assert st.dropped == [] by { hide Apply; }
      if IsEvent(e) {
        forall k | Waits(st.buf, k, 1)
          ensures Waits(st.buf + [r], k, 1)
        {
          WaitsConcat(st.buf, [r], k, 1);
        }
        AccountedMoved(st.tapping, st.buf, st.buf + [r], st.log);
        assert st0.buf[0..] == st.buf;
        TurnAccounted(c, env, st0, r, 0);
        hide Apply, Patch;
        var st1 := Apply(c, st0, r, v);
        assert st1.buf[0..] == st1.buf;
      } else {
        TickAccounted(c, env, st, e);
      }
    }
  }

  lemma RetryAccounted(c: Config, env: Env, st: State)
    requires CleanBuffer(st.buf) && st.buf != [] && Accounted(st.tapping, st.buf, st.log)
    ensures var st' := Retry(c, env, st);
      Accounted(st'.tapping, st'.buf, st'.log)
  {
    var r, v := st.buf[0], HeadVerdict(c, env, st);
    Rotated(st.buf, r);
    hide Accounted, Decide, Apply, Patch, Waits;
    AccountedMoved(st.tapping, st.buf, st.buf[1..] + [r], st.log);
    TurnAccounted(c, env, st, r, 1);
    var st1, r' := Apply(c, st, r, v), Patch(st.tapping, r, v);
    if !Done(v) {
      Rotated(st1.buf[0 := r'], r');
      assert st1.buf[0 := r'][1..] == st1.buf[1..];
      AccountedMoved(st1.tapping, st1.buf[1..] + [r'], st1.buf[0 := r'], st1.log);
    }
  }

  lemma Rotated(buf: seq<Record>, r: Record)
    requires buf != [] && buf[0] == r
    ensures forall k :: Waits(buf, k, 1) <==> Waits(buf[1..] + [r], k, 1)
  {
    forall k
      ensures Waits(buf, k, 1) <==> Waits(buf[1..] + [r], k, 1)
    {
      WaitsConcat([r], buf[1..], k, 1);
      WaitsConcat(buf[1..], [r], k, 1);
      assert buf == [r] + buf[1..];
    }
  }

  lemma {:induction false} DrainAccounted(c: Config, env: Env, st: State)
    requires CleanBuffer(st.buf)
    ensures CleanBuffer(Drain(c, env, st).buf) && Drain(c, env, st).dropped == st.dropped
    ensures Accounted(st.tapping, st.buf, st.log) ==>
              var st' := Drain(c, env, st); Accounted(st'.tapping, st'.buf, st'.log)
    decreases |st.buf|
  {
    if st.buf != [] {
      RetryTally(c, env, st, st.buf[0].event);
      DecideFits(c, env, st.tapping, st.buf, st.log, st.buf[0]);
      hide Decide, Fits, Accounted;
      ApplyFront(c, st, st.buf[0], HeadVerdict(c, env, st));
      assert Retry(c, env, st).dropped == st.dropped;
      hide Apply, Retry, HeadVerdict;
      if Accounted(st.tapping, st.buf, st.log) {
        RetryAccounted(c, env, st);
      }
      if Done(HeadVerdict(c, env, st)) {
        DrainAccounted(c, env, Retry(c, env, st));
      }
    }
  }

  lemma {:induction false} RunBalances(c: Config, offers: seq<Offer>)
    ensures Balances(Run(c, offers))
  {
    if offers != [] {
      var n := |offers| - 1;
      var env, st, e := offers[n].env, Run(c, offers[..n]), offers[n].event;
      RunBalances(c, offers[..n]);
      hide Accept, Drain, Accounted, CleanBuffer;
      AcceptAccounted(c, env, st, e);
      DrainAccounted(c, env, Accept(c, env, st, e));
    }
  }

  /** In every run without an overflow each press delivered with a count is accounted
      for: its key still is the pressed tapping key with that count, or a release of it
      with that count was delivered later, or such a release waits. */
  lemma EveryTapAccounted(c: Config, offers: seq<Offer>, i: nat)
    requires var st := Run(c, offers);
      st.dropped == [] && i < |st.log| && st.log[i].rec.event.pressed && st.log[i].rec.tap.count >= 1
    ensures var st := Run(c, offers);
      var k, n := st.log[i].rec.event.key, st.log[i].rec.tap.count;
      HeldDown(st.tapping, k, n) || Ended(st.log, i, k, n) || Waits(st.buf, k, n)
  {
    RunBalances(c, offers);
    hide Run, Ended, Waits;
    var st := Run(c, offers);
    assert Settles(st.tapping, st.buf, st.log, i, st.log[i].rec.event.key, st.log[i].rec.tap.count);
  }
}
