/** What becomes of an older release.  A release that settles its key as a tap, while an
    older release of the same key still waits, is not the one that ends this tap: the older
    one comes first.  It is delivered with the count of the press if it is reached before
    the next dual-role press of the ring takes over, and as a hold otherwise. */
module TapFate {
  import opened TapModel
  import opened TapLedger
  import opened TapOrder
  import opened TapBalance

  /** The next delivery of a key at or after a place of the log. */
  function NextDelivery(k: KeyPos, log: Log, from: nat): (j: nat)
    requires from <= |log|
    ensures from <= j <= |log|
    ensures j < |log| ==> log[j].rec.event.key == k
    ensures forall m :: from <= m < j ==> log[m].rec.event.key != k
    decreases |log| - from
  {
    if from == |log| || log[from].rec.event.key == k then from else NextDelivery(k, log, from + 1)
  }

  /** Of this key `w` is delivered next, with this count. */
  predicate AnsweredBy(k: KeyPos, log: Log, from: nat, w: Event, n: TapCount)
    requires from <= |log|
  {
    var j := NextDelivery(k, log, from);
    j < |log| && log[j].rec.event == w && log[j].rec.tap.count == n
  }

  /** Nothing of the key was delivered, and `w` waits as its next event without a mark
      while another key, or none, is the tapping key. */
  predicate Stranded(k: KeyPos, st: State, from: nat, w: Event)
    requires from <= |st.log|
  {
    var q := Queue(k, st.buf);
    && NextDelivery(k, st.log, from) == |st.log|
    && q != [] && q[0].event == w && !w.pressed && q[0].tap.count == 0
    && (IsEvent(st.tapping.event) ==> st.tapping.event.key != k)
  }

  /** Stranded, or delivered as a hold by now. */
  predicate ComesAsHold(k: KeyPos, st: State, from: nat, w: Event)
    requires from <= |st.log|
  {
    Stranded(k, st, from, w) || AnsweredBy(k, st.log, from, w, 0)
  }

  lemma AnsweredStays(k: KeyPos, log: Log, log': Log, from: nat, w: Event, n: TapCount)
    requires from <= |log| && log <= log' && AnsweredBy(k, log, from, w, n)
    ensures AnsweredBy(k, log', from, w, n)
  {
    var j := NextDelivery(k, log, from);
    assert forall m :: from <= m <= j ==> log'[m] == log[m];
  }

  lemma NextAppend(k: KeyPos, log: Log, d: Delivery, from: nat)
    requires from <= |log| && NextDelivery(k, log, from) == |log|
    ensures NextDelivery(k, log + [d], from) == if d.rec.event.key == k then |log| else |log| + 1
  {
    var log' := log + [d];
    assert forall m :: from <= m < |log| ==> log'[m].rec.event.key != k;
    assert log'[|log|] == d;
  }

  lemma QueueOther(k: KeyPos, buf: seq<Record>, i: nat, w: Record)
    requires i < |buf| && w.event.key == buf[i].event.key != k
    ensures Queue(k, buf[i := w]) == Queue(k, buf)
  {
    hide Queue;
    var a, b := buf[..i], buf[i + 1..];
    assert buf == a + ([buf[i]] + b) && buf[i := w] == a + ([w] + b);
    QueueConcat(k, a, [buf[i]] + b);
    QueueConcat(k, a, [w] + b);
    QueueCons(k, buf[i], b);
    QueueCons(k, w, b);
  }

  // ----- A stranded release comes out as a hold -----

  /** A delivery of another key leaves the release stranded. */
  lemma DeliveryStranded(k: KeyPos, st: State, from: nat, w: Event, d: Delivery, t: Record)
    requires from <= |st.log| && Stranded(k, st, from, w)
    requires d.rec.event.key != k && (IsEvent(t.event) ==> t.event.key != k)
    ensures Stranded(k, st.(log := st.log + [d], tapping := t), from, w)
  {
    NextAppend(k, st.log, d, from);
  }

  lemma ScanStranded(c: Config, st: State, k: KeyPos, from: nat, w: Event)
    requires from <= |st.log| && Stranded(k, st, from, w)
    requires IsEvent(st.tapping.event)
    ensures var st' := Scan(c, st);
      && st.log <= st'.log && Stranded(k, st', from, w)
      && |st'.buf| == |st.buf| && Queue(k, st'.buf) == Queue(k, st.buf)
  {
    var st' := Scan(c, st);
    if st' != st {
      var i := FindTapEnd(c, st.tapping, st.buf);
      QueueOther(k, st.buf, i, st'.buf[i]);
      DeliveryStranded(k, st, from, w, st'.log[|st.log|], st'.tapping);
      assert st'.log == st.log + [st'.log[|st.log|]];
    }
  }

  /** An exit on an event of another key, or one that has to wait, touches nothing of the
      stranded key. */
  lemma ApplyStranded(c: Config, st: State, r: Record, v: Verdict, k: KeyPos, from: nat, w: Event)
    requires from <= |st.log| && Stranded(k, st, from, w) && Fits(c, st.tapping, st.buf, r, v)
    requires Done(v) && IsEvent(r.event) ==> r.event.key != k
    ensures var st' := Apply(c, st, r, v);
      && st.log <= st'.log && Stranded(k, st', from, w)
      && |st'.buf| == |st.buf| && Queue(k, st'.buf) == Queue(k, st.buf)
  {
    var st', t := Apply(c, st, r, v), st.tapping;
    if v.Begin? {
      ScanStranded(c, st.(tapping := r), k, from, w);
    } else if v.Replace? {
      var d := Delivery(SyntheticRelease(t, r.event), Synthetic);
      DeliveryStranded(k, st, from, w, d, r);
      ScanStranded(c, Taken(st, r, v), k, from, w);
    } else if st'.log != st.log {
      var d := st'.log[|st.log|];
      assert st'.log == st.log + [d];
      DeliveryStranded(k, st, from, w, d, st'.tapping);
    }
  }

  /** Reached at the head of the ring, the release is passed on as it is. */
  lemma StrandedDelivered(c: Config, env: Env, st: State, k: KeyPos, from: nat, w: Event)
    requires st.buf != [] && from <= |st.log| && Stranded(k, st, from, w)
    requires Done(HeadVerdict(c, env, st)) && IsEvent(st.buf[0].event) && st.buf[0].event.key == k
    ensures var st' := Retry(c, env, st);
      st.log <= st'.log && AnsweredBy(k, st'.log, from, w, 0)
  {
    assert Queue(k, st.buf)[0] == st.buf[0];
    hide NextDelivery, Queue;
    assert HeadVerdict(c, env, st).Pass?;
    NextAppend(k, st.log, Delivery(st.buf[0], Plain), from);
  }

  /** Whatever happens to the rest of the ring. */
  lemma StrandedRing(k: KeyPos, st: State, buf: seq<Record>, from: nat, w: Event)
    requires from <= |st.log| && Stranded(k, st, from, w) && Queue(k, buf) == Queue(k, st.buf)
    ensures Stranded(k, st.(buf := buf), from, w)
  {
  }

  /** Neither taking the head out of the ring nor putting it back changes what waits of the
      key. */
  lemma HeadPutBack(k: KeyPos, buf: seq<Record>, buf1: seq<Record>, r: Record, r': Record)
    requires buf != [] && buf1 != [] && r == buf[0] && r'.event.key == buf1[0].event.key == r.event.key
    requires Queue(k, buf1) == Queue(k, buf) && (r.event.key == k ==> r' == r)
    ensures Queue(k, buf1[0 := r']) == Queue(k, buf)
    ensures r.event.key != k ==> Queue(k, buf1[1..]) == Queue(k, buf)
  {
    hide Queue;
    HeadQueue(buf, r, k);
    HeadQueue(buf1, r', k);
  }

  lemma HeadStranded(c: Config, env: Env, st: State, k: KeyPos, from: nat, w: Event)
    requires st.buf != [] && CleanBuffer(st.buf) && from <= |st.log| && Stranded(k, st, from, w)
    requires !(Done(HeadVerdict(c, env, st)) && st.buf[0].event.key == k)
    ensures var st' := Retry(c, env, st);
      st.log <= st'.log && Stranded(k, st', from, w)
  {
    var r, v := st.buf[0], HeadVerdict(c, env, st);
    DecideFits(c, env, st.tapping, st.buf, st.log, r);
    var st1, r' := Apply(c, st, r, v), Patch(st.tapping, r, v);
    assert r.event.key == k ==> r' == r;
    PatchKeepsEvent(st.tapping, r, v);
    hide Decide, Apply, Fits, Stranded, Queue, CleanBuffer;
    ApplyStranded(c, st, r, v, k, from, w);
    ApplyFront(c, st, r, v);
    assert st1.buf[0].event == Events(st1.buf)[0] == Events(st.buf)[0] == r.event;
    HeadPutBack(k, st.buf, st1.buf, r, r');
    StrandedRing(k, st1, if Done(v) then st1.buf[1..] else st1.buf[0 := r'], from, w);
  }

  lemma {:induction false} DrainStranded(c: Config, env: Env, st: State, k: KeyPos, from: nat, w: Event)
    requires CleanBuffer(st.buf) && from <= |st.log| && ComesAsHold(k, st, from, w)
    ensures var st' := Drain(c, env, st);
      st.log <= st'.log && ComesAsHold(k, st', from, w)
    decreases |st.buf|
  {
    if AnsweredBy(k, st.log, from, w, 0) {
      DrainAppends(c, env, st);
      AnsweredStays(k, st.log, Drain(c, env, st).log, from, w, 0);
    } else if st.buf != [] {
      RetryTally(c, env, st, w);
      hide Stranded, AnsweredBy, HeadVerdict, Retry, CleanBuffer;
      if Done(HeadVerdict(c, env, st)) {
        if st.buf[0].event.key == k {
          StrandedDelivered(c, env, st, k, from, w);
        } else {
          HeadStranded(c, env, st, k, from, w);
        }
        DrainStranded(c, env, Retry(c, env, st), k, from, w);
      } else {
        HeadStranded(c, env, st, k, from, w);
      }
    }
  }

  /** An event that arrives in order does not get ahead of it. */
  lemma AcceptStranded(c: Config, env: Env, st: State, e: Event, k: KeyPos, from: nat, w: Event)
    requires CleanBuffer(st.buf) && InOrder(st) && OfferOk(c, st, e) && !Overflows(c, env, st, e)
    requires IsEvent(e) ==> Alternates(Lane(e.key, st.input + [e]))
    requires from <= |st.log| && Stranded(k, st, from, w)
    ensures var st' := Accept(c, env, st, e);
      st.log <= st'.log && CleanBuffer(st'.buf) && Stranded(k, st', from, w)
  {
    var r := Record(e, NO_TAP);
    var v := Decide(c, env, st.tapping, st.buf, st.log, r);
    AcceptFacts(c, env, st, e);
    AcceptClean(c, env, st, e);
    if IsEvent(e) && e.key == k {
      QueueEvents(k, st.buf);
      assert Lane(k, Timeline(st)) == Lane(k, st.input);
      LastWaiting(st, e);
      assert !Done(v);
    }
    hide Decide, Apply, Fits, NextDelivery, Queue, InOrder, Alternates, Lane, Timeline, OfferOk, CleanBuffer;
    var st0 := Offered(st, e);
    assert Stranded(k, st0, from, w);
    ApplyStranded(c, st0, r, v, k, from, w);
    var st1 := Apply(c, st0, r, v);
    PatchKeepsEvent(st.tapping, r, v);
    QueueSnoc(k, st1.buf, Patch(st.tapping, r, v));
  }

  /** A call keeps the release stranded or delivers it as a hold. */
  lemma CallStranded(c: Config, env: Env, st: State, e: Event, k: KeyPos, from: nat, w: Event)
    requires CleanBuffer(st.buf) && InOrder(st) && OfferOk(c, st, e) && !Overflows(c, env, st, e)
    requires IsEvent(e) ==> Alternates(Lane(e.key, st.input + [e]))
    requires from <= |st.log| && ComesAsHold(k, st, from, w)
    ensures var st' := Call(c, env, st, e);
      st.log <= st'.log && ComesAsHold(k, st', from, w)
  {
    CallAppends(c, env, st, e);
    hide Accept, Drain, Stranded, AnsweredBy, InOrder, OfferOk, Overflows, Alternates, Lane, CleanBuffer;
    if AnsweredBy(k, st.log, from, w, 0) {
      AnsweredStays(k, st.log, Call(c, env, st, e).log, from, w, 0);
    } else {
      AcceptStranded(c, env, st, e, k, from, w);
      DrainStranded(c, env, Accept(c, env, st, e), k, from, w);
    }
  }

  // ----- The call in which the key is settled -----

  /** The release is reached before a dual-role press of the ring becomes the tapping key. */
  predicate Reached(env: Env, k: KeyPos, buf: seq<Record>, log: Log) {
    && buf != []
    && var r := buf[0];
       || (r.event.key == k && !r.event.pressed)
       || (!(r.event.pressed && IsTapRecord(env, log, r)) && Reached(env, k, buf[1..], log + [Delivery(r, Plain)]))
  }

  /** A release of the key waits as its next event while the key is a tap. */
  predicate Expected(k: KeyPos, st: State, from: nat, w: Event)
    requires from <= |st.log|
  {
    var q := Queue(k, st.buf);
    && NextDelivery(k, st.log, from) == |st.log|
    && q != [] && q[0].event == w && !w.pressed && q[0].tap.count == 0
    && Tapped(st.tapping) && st.tapping.event.key == k && st.tapping.tap.count == 1
  }

  lemma ExpectedReached(c: Config, env: Env, st: State, k: KeyPos, from: nat, w: Event)
    requires CleanBuffer(st.buf) && st.buf != [] && from <= |st.log| && Expected(k, st, from, w)
    requires st.buf[0].event.key == k
    ensures Done(HeadVerdict(c, env, st)) && !st.buf[0].event.pressed
    ensures var st' := Retry(c, env, st);
      st.log <= st'.log && AnsweredBy(k, st'.log, from, w, 1)
  {
    var r, t := st.buf[0], st.tapping;
    assert Queue(k, st.buf)[0] == r;
    hide NextDelivery, Queue;
    assert HeadVerdict(c, env, st).ReleaseTap?;
    NextAppend(k, st.log, Delivery(r.(tap := t.tap), Plain), from);
  }

  lemma ExpectedReplaced(c: Config, env: Env, st: State, k: KeyPos, from: nat, w: Event)
    requires CleanBuffer(st.buf) && st.buf != [] && from <= |st.log| && Expected(k, st, from, w)
    requires var r := st.buf[0]; r.event.key != k && r.event.pressed && IsTapRecord(env, st.log, r)
    ensures Done(HeadVerdict(c, env, st))
    ensures var st' := Retry(c, env, st);
      st.log <= st'.log && Stranded(k, st', from, w)
  {
    var r := st.buf[0];
    assert HeadVerdict(c, env, st) == Replace;
    var st1 := st.(tapping := r);
    var st2 := Scan(c, st1);
    assert Retry(c, env, st) == st2.(buf := st2.buf[1..]);
    assert st2.buf[0] == r;
    assert Stranded(k, st1, from, w);
    hide Queue, Scan, Retry, HeadVerdict, Stranded;
    ScanStranded(c, st1, k, from, w);
    HeadPutBack(k, st.buf, st2.buf, r, r);
    StrandedRing(k, st2, st2.buf[1..], from, w);
  }

  lemma PassedOn(c: Config, env: Env, st: State)
    requires CleanBuffer(st.buf) && st.buf != [] && Tapped(st.tapping)
    requires var r := st.buf[0];
      r.event.key != st.tapping.event.key && !(r.event.pressed && IsTapRecord(env, st.log, r))
    ensures Done(HeadVerdict(c, env, st))
    ensures Retry(c, env, st) == st.(buf := st.buf[1..], log := st.log + [Delivery(st.buf[0], Plain)])
  {
    assert HeadVerdict(c, env, st) == Pass(false);
  }

  lemma ExpectedPassed(c: Config, env: Env, st: State, k: KeyPos, from: nat, w: Event)
    requires CleanBuffer(st.buf) && st.buf != [] && from <= |st.log| && Expected(k, st, from, w)
    requires var r := st.buf[0]; r.event.key != k && !(r.event.pressed && IsTapRecord(env, st.log, r))
    ensures Done(HeadVerdict(c, env, st))
    ensures var st' := Retry(c, env, st);
      && st'.buf == st.buf[1..] && st'.log == st.log + [Delivery(st.buf[0], Plain)]
      && Expected(k, st', from, w)
  {
    PassedOn(c, env, st);
    HeadQueue(st.buf, st.buf[0], k);
    hide NextDelivery, Queue, Retry, HeadVerdict;
    NextAppend(k, st.log, Delivery(st.buf[0], Plain), from);
  }

  lemma {:induction false} DrainExpected(c: Config, env: Env, st: State, k: KeyPos, from: nat, w: Event)
    requires CleanBuffer(st.buf) && from <= |st.log| && Expected(k, st, from, w)
    ensures var st' := Drain(c, env, st);
      && st.log <= st'.log
      && if Reached(env, k, st.buf, st.log) then AnsweredBy(k, st'.log, from, w, 1) else ComesAsHold(k, st', from, w)
    decreases |st.buf|
  {
    var r, st' := st.buf[0], Retry(c, env, st);
    RetryTally(c, env, st, w);
    if r.event.key == k {
      ExpectedReached(c, env, st, k, from, w);
      DrainAppends(c, env, st');
      hide AnsweredBy, HeadVerdict, Retry, CleanBuffer, Expected;
      AnsweredStays(k, st'.log, Drain(c, env, st').log, from, w, 1);
    } else if r.event.pressed && IsTapRecord(env, st.log, r) {
      ExpectedReplaced(c, env, st, k, from, w);
      hide AnsweredBy, HeadVerdict, Retry, CleanBuffer, Expected, Stranded;
      DrainStranded(c, env, st', k, from, w);
    } else {
      ExpectedPassed(c, env, st, k, from, w);
      hide AnsweredBy, HeadVerdict, Retry, CleanBuffer, Expected, Stranded;
      DrainExpected(c, env, st', k, from, w);
    }
  }

  /** The events behind the release do not matter. */
  lemma {:induction false} ReachedBefore(env: Env, k: KeyPos, buf: seq<Record>, r: Record, log: Log)
    requires Queue(k, buf) != [] && !Queue(k, buf)[0].event.pressed
    ensures Reached(env, k, buf + [r], log) <==> Reached(env, k, buf, log)
  {
    assert (buf + [r])[1..] == buf[1..] + [r];
    if buf[0].event.key != k {
      ReachedBefore(env, k, buf[1..], r, log + [Delivery(buf[0], Plain)]);
    }
  }

  lemma OlderRelease(c: Config, st: State, e: Event)
    requires InOrder(st) && Balanced(st) && InputAlternates(st, e) && !AnswersPress(c, st, e)
    ensures var q := Queue(e.key, st.buf);
      q != [] && !q[0].event.pressed && q[0].tap.count == 0
  {
    var k := e.key;
    InputAlternating(st, e);
    assert Alternates(Lane(k, Timeline(st)));
    assert Owed(k, st.tapping, st.log, Queue(k, st.buf));
    hide Lane, Alternates, Timeline, Queue, InOrder, InputAlternates;
    AlternationReady(st, k);
  }

  /** What the next delivery of the key is, if there is one yet: the release `w`, with count
      1 if it was reached in time and 0 otherwise; until then it is stranded. */
  predicate Fate(k: KeyPos, st: State, from: nat, w: Event, reached: bool) {
    && from <= |st.log|
    && var j := NextDelivery(k, st.log, from);
       if j < |st.log| then st.log[j].rec.event == w && st.log[j].rec.tap.count == if reached then 1 else 0
       else !reached && Stranded(k, st, from, w)
  }

  lemma FateIs(k: KeyPos, st: State, from: nat, w: Event, reached: bool)
    requires from <= |st.log|
    ensures Fate(k, st, from, w, reached)
       <==> if reached then AnsweredBy(k, st.log, from, w, 1) else ComesAsHold(k, st, from, w)
  {
    hide NextDelivery, Queue;
  }

  /** The log with the press of the key, delivered as a tap. */
  function Tapping(st: State): Log {
    st.log + [Delivery(Marked(st.tapping), Settled)]
  }

  /** The newer release goes to the end of the ring, and the older one is expected. */
  lemma OutrunAccept(c: Config, env: Env, st: State, e: Event)
    requires CleanBuffer(st.buf) && InOrder(st) && Balanced(st) && InputAlternates(st, e)
    requires !AnswersPress(c, st, e) && !Overflows(c, env, st, e)
    ensures var a := Accept(c, env, st, e);
      && a.buf == st.buf + [Record(e, Marked(st.tapping).tap)] && a.log == Tapping(st)
      && Expected(e.key, a, |a.log|, Queue(e.key, st.buf)[0].event)
  {
    var k, t := e.key, st.tapping;
    OlderRelease(c, st, e);
    SettledTapShape(c, env, st, e);
    assert IsEvent(t.event) && t.event.pressed && t.event.key == k;
    hide InOrder, Balanced, InputAlternates, Accept, Overflows, AnswersPress, Queue, CleanBuffer;
    QueueSnoc(k, st.buf, Record(e, Marked(t).tap));
  }

  /** When an older release waits, the press settled by a newer one is answered by the older:
      with the count of the press if it is reached in this call, and as a hold otherwise,
      now or later. */
  lemma OutrunRelease(c: Config, env: Env, st: State, e: Event)
    requires CleanBuffer(st.buf) && InOrder(st) && Balanced(st) && InputAlternates(st, e)
    requires !AnswersPress(c, st, e) && !Overflows(c, env, st, e)
    ensures var k, w, log, st' := e.key, Queue(e.key, st.buf)[0].event, Tapping(st), Call(c, env, st, e);
      log <= st'.log && Fate(k, st', |log|, w, Reached(env, k, st.buf, log))
  {
    var k, a, st', q := e.key, Accept(c, env, st, e), Call(c, env, st, e), Queue(e.key, st.buf);
    OlderRelease(c, st, e);
    assert st' == Drain(c, env, a);
    hide *;
    var w, log := q[0].event, Tapping(st);
    OutrunAccept(c, env, st, e);
    AcceptClean(c, env, st, e);
    ReachedBefore(env, k, st.buf, Record(e, Marked(st.tapping).tap), log);
    DrainExpected(c, env, a, k, |log|, w);
    FateIs(k, st', |log|, w, Reached(env, k, st.buf, log));
  }

  // ----- Over the rest of the run -----

  lemma {:induction false} RunStranded(c: Config, offers: seq<Offer>, more: seq<Offer>, k: KeyPos, from: nat, w: Event)
    requires Orderly(c, offers + more)
    requires from <= |Run(c, offers).log| && ComesAsHold(k, Run(c, offers), from, w)
    ensures from <= |Run(c, offers + more).log| && ComesAsHold(k, Run(c, offers + more), from, w)
  {
    hide *;
    if more == [] {
      assert offers + more == offers;
    } else {
      var before, o := offers + more[..|more| - 1], more[|more| - 1];
      Snoc(offers, more);
      OrderlySnoc(c, before, o);
      RunStranded(c, offers, more[..|more| - 1], k, from, w);
      RunSnoc(c, before, o);
      CallStranded(c, o.env, Run(c, before), o.event, k, from, w);
    }
  }

  /** What a call settles is settled for the rest of the run. */
  lemma FateStays(c: Config, offers: seq<Offer>, more: seq<Offer>, k: KeyPos, from: nat, w: Event, reached: bool)
    requires Orderly(c, offers + more) && Fate(k, Run(c, offers), from, w, reached)
    ensures Run(c, offers).log <= Run(c, offers + more).log
    ensures Fate(k, Run(c, offers + more), from, w, reached)
  {
    var st, st' := Run(c, offers), Run(c, offers + more);
    assert from <= |st.log|;
    hide *;
    FateIs(k, st, from, w, reached);
    RunAppends(c, offers, more);
    if reached {
      AnsweredStays(k, st.log, st'.log, from, w, 1);
    } else {
      RunStranded(c, offers, more, k, from, w);
    }
    FateIs(k, st', from, w, reached);
  }

  lemma FateOfCall(c: Config, offers: seq<Offer>, o: Offer)
    requires FairRun(c, offers) && Orderly(c, offers + [o])
    requires InputAlternates(Run(c, offers), o.event) && !AnswersPress(c, Run(c, offers), o.event)
    ensures Run(c, offers + [o]) == Call(c, o.env, Run(c, offers), o.event)
    ensures var st := Run(c, offers); CleanBuffer(st.buf) && InOrder(st) && Balanced(st)
    ensures !Overflows(c, o.env, Run(c, offers), o.event)
  {
    var st := Run(c, offers);
    FairRunSound(c, offers);
    SoundClean(st);
    assert Balanced(st);
    hide *;
    OrderlySnoc(c, offers, o);
    RunSnoc(c, offers, o);
  }

  /** A run is fair until a release settles its key although an older release waits, and
      orderly to its end.  Then the key is delivered as pressed with count 1; what is
      delivered of it next, if anything yet, is the older release; and it has the count 1 if
      and only if it is reached before a dual-role press of the ring takes over, and 0
      otherwise. */
  lemma FateOfRelease(c: Config, offers: seq<Offer>, o: Offer, more: seq<Offer>)
    requires FairRun(c, offers) && Orderly(c, offers + [o] + more)
    requires InputAlternates(Run(c, offers), o.event) && !AnswersPress(c, Run(c, offers), o.event)
    ensures var k, st, st' := o.event.key, Run(c, offers), Run(c, offers + [o] + more);
      var w, log := Queue(k, st.buf)[0].event, Tapping(st);
      log <= st'.log && Fate(k, st', |log|, w, Reached(o.env, k, st.buf, log))
  {
    var k, st := o.event.key, Run(c, offers);
    var q := Queue(k, st.buf);
    assert q != [];
    hide *;
    OrderlyBefore(c, offers + [o], more);
    FateOfCall(c, offers, o);
    OutrunRelease(c, o.env, st, o.event);
    var w, log := q[0].event, Tapping(st);
    FateStays(c, offers + [o], more, k, |log|, w, Reached(o.env, k, st.buf, log));
  }
}
