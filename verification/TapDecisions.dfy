/** What is known of a delivery from the deliveries before it, over every run and
    whatever the keymap answers: a press passed on undecided has no count; a settled
    key counts at most one; a count of two or more is a quick repetition of a delivered
    tap; and a release is made up only to end such a repetition. */
module TapDecisions {
  import opened TapModel
  import opened TapLedger

  /** An event was delivered with this tap count. */
  predicate Delivered(log: Log, e: Event, n: TapCount) {
    exists i :: 0 <= i < |log| && log[i].rec.event == e && log[i].rec.tap.count == n
  }

  lemma DeliveredAppend(log: Log, d: Delivery, e: Event, n: TapCount)
    ensures Delivered(log, e, n) ==> Delivered(log + [d], e, n)
    ensures d.rec.event == e && d.rec.tap.count == n ==> Delivered(log + [d], e, n)
  {
    if Delivered(log, e, n) {
      var i :| 0 <= i < |log| && log[i].rec.event == e && log[i].rec.tap.count == n;
      assert (log + [d])[i] == log[i];
    }
    assert (log + [d])[|log|] == d;
  }

  /** The reason a delivery needs, given the deliveries before it. */
  ghost predicate Justified(c: Config, before: Log, d: Delivery) {
    var r := d.rec;
    match d.why
    case Plain => r.event.pressed ==> r.tap.count == 0
    case Settled => r.event.pressed && r.tap.count <= 1
    case Repeated(p) =>
      && r.event.pressed && 2 <= r.tap.count <= 15
      && !p.event.pressed && p.event.key == r.event.key && !p.tap.interrupted
      && Elapsed(r.event.time, p.event.time) < c.quickTapTerm
      && 1 <= p.tap.count && (r.tap.count == p.tap.count + 1 || r.tap.count == p.tap.count == 15)
      && Delivered(before, p.event, p.tap.count)
    case Synthetic =>
      && !r.event.pressed && 2 <= r.tap.count
      && exists e :: Delivered(before, e, r.tap.count) && e.key == r.event.key && e.pressed
  }

  ghost predicate AllJustified(c: Config, log: Log) {
    forall i :: 0 <= i < |log| ==> Justified(c, log[..i], log[i])
  }

  lemma JustifiedAppend(c: Config, log: Log, d: Delivery)
    requires AllJustified(c, log) && Justified(c, log, d)
    ensures AllJustified(c, log + [d])
  {
    var log' := log + [d];
    forall i | 0 <= i < |log'|
      ensures Justified(c, log'[..i], log'[i])
    {
      assert log'[..i] == if i < |log| then log[..i] else log;
    }
  }

  /** A decided tapping key stands for a delivery with its count. */
  predicate Backed(t: Record, log: Log) {
    && (Tapped(t) ==> Delivered(log, t.event, t.tap.count))
    && (Released(t) ==> t.tap.count >= 1 && Delivered(log, t.event, t.tap.count))
  }

  ghost predicate Reasoned(c: Config, st: State) {
    AllJustified(c, st.log) && Backed(st.tapping, st.log)
  }

  /** Exits that deliver the tapping key or the event, as it is or patched. */
  lemma DeliverReasoned(c: Config, st: State, r: Record, v: Verdict)
    requires Reasoned(c, st) && Clean(r) && Fits(c, st.tapping, st.buf, r, v)
    requires !v.Begin? && !v.Replace?
    ensures Reasoned(c, Apply(c, st, r, v))
  {
    var t := st.tapping;
    var st' := Apply(c, st, r, v);
    if st'.log != st.log {
      var d := st'.log[|st.log|];
      assert st'.log == st.log + [d];
      assert Justified(c, st.log, d);
      hide AllJustified, Justified;
      JustifiedAppend(c, st.log, d);
      DeliveredAppend(st.log, d, t.event, t.tap.count);
      DeliveredAppend(st.log, d, st'.tapping.event, st'.tapping.tap.count);
    }
  }

  lemma ScanReasoned(c: Config, st: State)
    requires AllJustified(c, st.log) && Undecided(st.tapping)
    ensures Reasoned(c, Scan(c, st))
  {
    var i := FindTapEnd(c, st.tapping, st.buf);
    if i < |st.buf| {
      var st' := Scan(c, st);
      var d := st'.log[|st.log|];
      assert st'.log == st.log + [d];
      JustifiedAppend(c, st.log, d);
      DeliveredAppend(st.log, d, d.rec.event, 1);
    }
  }

  lemma TakeReasoned(c: Config, st: State, r: Record, v: Verdict)
    requires Reasoned(c, st) && Clean(r) && Fits(c, st.tapping, st.buf, r, v)
    requires v.Begin? || v.Replace?
    ensures Reasoned(c, Apply(c, st, r, v))
  {
    var t := st.tapping;
    if v.Replace? && t.tap.count > 1 {
      var d := Delivery(SyntheticRelease(t, r.event), Synthetic);
      assert Justified(c, st.log, d);
      JustifiedAppend(c, st.log, d);
      ScanReasoned(c, st.(tapping := r, log := st.log + [d]));
    } else {
      ScanReasoned(c, st.(tapping := r));
    }
  }

  lemma StepReasoned(c: Config, env: Env, st: State, r: Record)
    requires Reasoned(c, st) && Clean(r)
    ensures Reasoned(c, Apply(c, st, r, Decide(c, env, st.tapping, st.buf, st.log, r)))
  {
    hide Reasoned, Fits, Decide, Apply;
    var v := Decide(c, env, st.tapping, st.buf, st.log, r);
    DecideFits(c, env, st.tapping, st.buf, st.log, r);
    if v.Begin? || v.Replace? {
      TakeReasoned(c, st, r, v);
    } else {
      DeliverReasoned(c, st, r, v);
    }
  }

  lemma AcceptReasoned(c: Config, env: Env, st: State, e: Event)
    requires Reasoned(c, st)
    ensures Reasoned(c, Accept(c, env, st, e))
  {
    hide Decide, Apply, AllJustified;
    StepReasoned(c, env, Offered(st, e), Record(e, NO_TAP));
  }

  lemma RetryReasoned(c: Config, env: Env, st: State)
    requires Reasoned(c, st) && CleanBuffer(st.buf) && st.buf != []
    ensures Reasoned(c, Retry(c, env, st)) && CleanBuffer(Retry(c, env, st).buf)
  {
    RetryTally(c, env, st, st.buf[0].event);
    hide Decide, Apply, AllJustified;
    StepReasoned(c, env, st, st.buf[0]);
  }

  lemma {:induction false} DrainReasoned(c: Config, env: Env, st: State)
    requires Reasoned(c, st) && CleanBuffer(st.buf)
    ensures Reasoned(c, Drain(c, env, st))
    decreases |st.buf|
  {
    if st.buf != [] {
      RetryReasoned(c, env, st);
      if Done(HeadVerdict(c, env, st)) {
        DrainReasoned(c, env, Retry(c, env, st));
      }
    }
  }

  lemma {:induction false} RunReasoned(c: Config, offers: seq<Offer>)
    ensures Reasoned(c, Run(c, offers))
  {
    if offers != [] {
      var n := |offers| - 1;
      var env, st, e := offers[n].env, Run(c, offers[..n]), offers[n].event;
      RunReasoned(c, offers[..n]);
      RunInvariant(c, offers[..n]);
      AcceptReasoned(c, env, st, e);
      AcceptClean(c, env, st, e);
      DrainReasoned(c, env, Accept(c, env, st, e));
    }
  }
}
