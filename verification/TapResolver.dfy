/** The resolver as the firmware runs it: static state updated in place, with
    the waiting events in a ring.  Every method is proved equal to its
    counterpart in TapModel on the abstract state. */
module TapResolver {
  import opened TapModel

  type Slots = s: seq<Record> | |s| == WAITING_BUFFER_SIZE witness seq(WAITING_BUFFER_SIZE, _ => NO_RECORD)

  function Next(i: nat): (j: nat)
    ensures j < WAITING_BUFFER_SIZE
  {
    (i + 1) % WAITING_BUFFER_SIZE
  }

  /** The slot `i` places after `tail`. */
  function Slot(tail: nat, i: nat): (j: nat)
    requires tail < WAITING_BUFFER_SIZE && i <= WAITING_BUFFER_SIZE
    ensures j < WAITING_BUFFER_SIZE
  {
    if tail + i < WAITING_BUFFER_SIZE then tail + i else tail + i - WAITING_BUFFER_SIZE
  }

  /** The `n` slots from `tail` on, around the end of the ring. */
  function Window(s: Slots, tail: nat, n: nat): (w: seq<Record>)
    requires tail < WAITING_BUFFER_SIZE && n <= WAITING_BUFFER_SIZE
    ensures |w| == n
    ensures forall i :: 0 <= i < n ==> w[i] == s[Slot(tail, i)]
  {
    seq(n, i requires 0 <= i < n => s[Slot(tail, i)])
  }

  /** Distinct positions of a window are distinct slots. */
  lemma WindowUpdate(s: Slots, tail: nat, n: nat, k: nat, r: Record)
    requires tail < WAITING_BUFFER_SIZE && k <= n <= WAITING_BUFFER_SIZE && k < WAITING_BUFFER_SIZE
    ensures var s' := s[Slot(tail, k) := r];
      Window(s', tail, n) == if k < n then Window(s, tail, n)[k := r] else Window(s, tail, n)
  {
  }

  lemma WindowTail(s: Slots, tail: nat, n: nat)
    requires tail < WAITING_BUFFER_SIZE && 0 < n <= WAITING_BUFFER_SIZE
    ensures Window(s, tail, n)[1..] == Window(s, Next(tail), n - 1)
  {
  }

  /** The number of waiting slots between `tail` and `head`. */
  function Distance(tail: nat, head: nat): (n: nat)
    requires tail < WAITING_BUFFER_SIZE && head < WAITING_BUFFER_SIZE
    ensures n < WAITING_BUFFER_SIZE
  {
    if tail <= head then head - tail else head + WAITING_BUFFER_SIZE - tail
  }

  /** Stepping from slot to slot with Next reaches `head` after exactly the waiting ones. */
  lemma Step(tail: nat, head: nat, k: nat)
    requires tail < WAITING_BUFFER_SIZE && head < WAITING_BUFFER_SIZE && k < WAITING_BUFFER_SIZE
    ensures Next(Slot(tail, k)) == Slot(tail, k + 1)
    ensures Slot(tail, k) == head <==> k == Distance(tail, head)
  {
  }

  lemma Ends(tail: nat, head: nat)
    requires tail < WAITING_BUFFER_SIZE && head < WAITING_BUFFER_SIZE
    ensures var n := Distance(tail, head);
      && Slot(tail, n) == head
      && (n > 0 ==> Distance(Next(tail), head) == n - 1)
      && (if n == WAITING_BUFFER_SIZE - 1 then Next(head) == tail
          else Next(head) != tail && Distance(tail, Next(head)) == n + 1)
  {
  }

  lemma DrainOnce(c: Config, env: Env, st: State)
    requires st.buf != []
    ensures var st' := Retry(c, env, st);
      Drain(c, env, st) == if Done(HeadVerdict(c, env, st)) then Drain(c, env, st') else st'
  {
  }

  class Resolver {
    const config: Config
    var tapping: Record
    const ring: array<Record>
    var head: nat
    var tail: nat
    var log: Log
    ghost var input: seq<Event>
    ghost var dropped: seq<Event>

    predicate Valid()
      reads this
    {
      ring.Length == WAITING_BUFFER_SIZE && head < WAITING_BUFFER_SIZE && tail < WAITING_BUFFER_SIZE
    }

    function Count(): (n: nat)
      requires Valid()
      reads this
    {
      Distance(tail, head)
    }

    function Waiting(): (w: seq<Record>)
      requires Valid()
      reads this, ring
      ensures |w| == Count()
    {
      Window(ring[..], tail, Count())
    }

    ghost function Abstract(): State
      requires Valid()
      reads this, ring
    {
      State(tapping, Waiting(), log, input, dropped)
    }

    constructor (c: Config)
      ensures Valid() && fresh(ring) && config == c
      ensures Abstract() == INITIAL
    {
      config := c;
      tapping := NO_RECORD;
      ring := new Record[WAITING_BUFFER_SIZE](_ => NO_RECORD);
      head, tail := 0, 0;
      log, input, dropped := [], [], [];
    }

    method BufferEnq(r: Record) returns (ok: bool)
      requires Valid()
      modifies this`head, ring
      ensures Valid()
      ensures ok == (!IsEvent(r.event) || old(Count()) < WAITING_BUFFER_SIZE - 1)
      ensures Waiting() == if ok && IsEvent(r.event) then old(Waiting()) + [r] else old(Waiting())
    {
      if !IsEvent(r.event) {
        return true;
      }
      Ends(tail, head);
      if Next(head) == tail {
        return false;
      }
      ghost var n := Count();
      WindowUpdate(ring[..], tail, n, n, r);
      ghost var s := ring[..][head := r];
      assert Window(s, tail, n + 1) == Window(s, tail, n) + [r];
      ring[head] := r;
      assert ring[..] == s;
      head := Next(head);
      return true;
    }

    method BufferClear()
      requires Valid()
      modifies this`head, this`tail
      ensures Valid() && Waiting() == []
    {
      head := 0;
      tail := 0;
    }

    method BufferTyped(e: Event) returns (typed: bool)
      requires Valid()
      ensures typed == Typed(Waiting(), e)
    {
      var i := tail;
      ghost var k, n, w := 0, Count(), Waiting();
      Step(tail, head, 0);
      while i != head
        invariant 0 <= k <= n && i == Slot(tail, k)
        invariant i == head <==> k == n
        invariant forall j :: 0 <= j < k ==> !(w[j].event.key == e.key && w[j].event.pressed != e.pressed)
        decreases n - k
      {
        assert w[k] == ring[i];
        if ring[i].event.key == e.key && ring[i].event.pressed != e.pressed {
          return true;
        }
        Step(tail, head, k);
        Step(tail, head, k + 1);
        i := Next(i);
        k := k + 1;
      }
      return false;
    }

    method ProcessRecord(d: Delivery)
      modifies this`log
      ensures log == old(log) + [d]
    {
      log := log + [d];
    }

    /** The search loop of waiting_buffer_scan_tap; `k` counts the slots passed. */
    method FindCandidate() returns (found: bool, i: nat, ghost k: nat)
      requires Valid()
      ensures k == FindTapEnd(config, tapping, Waiting())
      ensures found == (k < Count())
      ensures found ==> i == Slot(tail, k)
    {
      i := tail;
      k := 0;
      ghost var n, w := Count(), Waiting();
      Step(tail, head, 0);
      while i != head
        invariant 0 <= k <= n && i == Slot(tail, k)
        invariant i == head <==> k == n
        invariant forall j :: 0 <= j < k ==> !EndsTap(config, tapping, w[j])
        decreases n - k
      {
        assert w[k] == ring[i];
        if EndsTap(config, tapping, ring[i]) {
          return true, i, k;
        }
        Step(tail, head, k);
        Step(tail, head, k + 1);
        i := Next(i);
        k := k + 1;
      }
      return false, i, k;
    }

    method ScanTap()
      requires Valid()
      modifies this`tapping, this`log, ring
      ensures Valid()
      ensures Abstract() == Scan(config, old(Abstract()))
    {
      if tapping.tap.count > 0 || !tapping.event.pressed {
        return;
      }
      var found, i, k := FindCandidate();
      hide FindTapEnd;
      if found {
        var candidate := ring[i].(tap := ring[i].tap.(count := 1));
        WindowUpdate(ring[..], tail, Count(), k, candidate);
        ghost var s := ring[..][i := candidate];
        tapping := tapping.(tap := tapping.tap.(count := 1));
        ring[i] := candidate;
        assert ring[..] == s;
        ProcessRecord(Delivery(tapping, Settled));
      }
    }

    /** process_tapping.  `r` is the record the pointer argument refers to; it
        comes back as the code leaves it. */
    method ProcessTapping(env: Env, r: Record) returns (done: bool, r': Record)
      requires Valid()
      modifies this`tapping, this`log, ring
      ensures Valid()
      ensures var v := Decide(config, env, old(tapping), old(Waiting()), old(log), r);
        && done == Done(v)
        && r' == Patch(old(tapping), r, v)
        && Abstract() == Apply(config, old(Abstract()), r, v)
    {
      r' := r;
      var e := r.event;

      // Reset state: no tapping key.
      if !IsEvent(tapping.event) {
        if !IsEvent(e) {
        } else if e.pressed && IsTapRecord(env, log, r) {
          tapping := r;
          ScanTap();
        } else {
          ProcessRecord(Delivery(r, Plain));
        }
        return true, r';
      }

      if tapping.event.pressed {
        if WithinTerm(config, e, tapping) {
          if !IsEvent(e) {
            return true, r';
          }
          if tapping.tap.count == 0 {
            done, r' := ProcessPendingTap(env, r);
          } else {
            if SameKey(tapping, e) && !e.pressed {
              r' := r.(tap := tapping.tap);
              ProcessRecord(Delivery(r', Plain));
              tapping := r';
            } else if IsTapRecord(env, log, r) && e.pressed {
              StartNewTap(r);
            } else {
              ProcessRecord(Delivery(r, Plain));
            }
            done := true;
          }
        } else {
          if tapping.tap.count == 0 {
            ProcessRecord(Delivery(tapping, Settled));
            tapping := NO_RECORD;
            return false, r';
          }
          if !IsEvent(e) {
            return true, r';
          }
          if SameKey(tapping, e) && !e.pressed {
            r' := r.(tap := tapping.tap);
            ProcessRecord(Delivery(r', Plain));
            tapping := NO_RECORD;
          } else if IsTapRecord(env, log, r) && e.pressed {
            StartNewTap(r);
          } else {
            ProcessRecord(Delivery(r, Plain));
          }
          done := true;
        }
      } else {
        done, r' := ProcessReleasedTap(env, r);
      }
    }

    /** Within the tapping term of an undecided key. */
    method ProcessPendingTap(env: Env, r: Record) returns (done: bool, r': Record)
      requires Valid()
      requires Undecided(tapping) && WithinTerm(config, r.event, tapping) && IsEvent(r.event)
      modifies this`tapping, this`log
      ensures var v := DecidePending(config, env, old(tapping), Waiting(), old(log), r);
        && done == Done(v)
        && r' == Patch(old(tapping), r, v)
        && Abstract() == Apply(config, old(Abstract()), r, v)
    {
      r' := r;
      var e := r.event;
      var typed := BufferTyped(e);
      if SameKey(tapping, e) && !e.pressed {
        tapping := tapping.(tap := tapping.tap.(count := 1));
        ProcessRecord(Delivery(tapping, Settled));
        r' := r.(tap := tapping.tap);
        return false, r';
      } else if !e.pressed && typed && config.permissiveHold {
        ProcessRecord(Delivery(tapping, Settled));
        tapping := NO_RECORD;
        return false, r';
      } else if !e.pressed && !typed {
        if env.retains(log, r) {
          return false, r';
        }
        ProcessRecord(Delivery(r, Plain));
        return true, r';
      } else {
        if e.pressed {
          tapping := tapping.(tap := tapping.tap.(interrupted := true));
          if config.holdOnOtherKeyPress {
            ProcessRecord(Delivery(tapping, Settled));
            tapping := NO_RECORD;
            return false, r';
          }
        }
        return false, r';
      }
    }

    /** Another tap key takes over from a decided one; a repeated tap is ended first. */
    method StartNewTap(r: Record)
      requires Valid()
      modifies this`tapping, this`log, ring
      ensures Valid()
      ensures Abstract() == Apply(config, old(Abstract()), r, Replace)
    {
      if tapping.tap.count > 1 {
        ProcessRecord(Delivery(SyntheticRelease(tapping, r.event), Synthetic));
      }
      tapping := r;
      ScanTap();
    }

    /** The tapping key was tapped and released: it may be tapped again. */
    method ProcessReleasedTap(env: Env, r: Record) returns (done: bool, r': Record)
      requires Valid()
      requires IsEvent(tapping.event) && !tapping.event.pressed
      modifies this`tapping, this`log, ring
      ensures Valid()
      ensures var v := DecideReleased(config, env, old(tapping), old(log), r);
        && done == Done(v)
        && r' == Patch(old(tapping), r, v)
        && Abstract() == Apply(config, old(Abstract()), r, v)
    {
      r' := r;
      var e := r.event;
      if !WithinTerm(config, e, tapping) {
        tapping := NO_RECORD;
        return false, r';
      }
      if !IsEvent(e) {
        return true, r';
      }
      if e.pressed {
        if SameKey(tapping, e) {
          if WithinQuickTerm(config, e, tapping) && !tapping.tap.interrupted && tapping.tap.count > 0 {
            r' := r.(tap := tapping.tap);
            if r'.tap.count < 15 {
              r' := r'.(tap := r'.tap.(count := r'.tap.count + 1));
            }
            ProcessRecord(Delivery(r', Repeated(tapping)));
            tapping := r';
            return true, r';
          }
          tapping := r;
        } else if IsTapRecord(env, log, r) {
          tapping := r;
          ScanTap();
        } else {
          tapping := tapping.(tap := tapping.tap.(interrupted := true));
          ProcessRecord(Delivery(r, Plain));
        }
      } else {
        ProcessRecord(Delivery(r, Plain));
      }
      return true, r';
    }

    /** One turn of the loop over the waiting events. */
    method RetryHead(env: Env) returns (done: bool)
      requires Valid() && Waiting() != []
      modifies this`tapping, this`log, this`tail, ring
      ensures Valid()
      ensures done == Done(HeadVerdict(config, env, old(Abstract())))
      ensures Abstract() == Retry(config, env, old(Abstract()))
      ensures Count() == if done then old(Count()) - 1 else old(Count())
    {
      var record;
      assert Waiting()[0] == ring[tail];
      done, record := ProcessTapping(env, ring[tail]);
      if done {
        Advance();
      } else {
        Store(record);
      }
    }

    method Advance()
      requires Valid() && Waiting() != []
      modifies this`tail
      ensures Valid() && Count() == old(Count()) - 1
      ensures Waiting() == old(Waiting())[1..]
    {
      Ends(tail, head);
      WindowTail(ring[..], tail, Count());
      tail := Next(tail);
    }

    /** The code processes a waiting record in place: what it changed stays in its slot. */
    method Store(record: Record)
      requires Valid() && Waiting() != []
      modifies ring
      ensures Waiting() == old(Waiting())[0 := record]
    {
      WindowUpdate(ring[..], tail, Count(), 0, record);
      ghost var s := ring[..][tail := record];
      ring[tail] := record;
      assert ring[..] == s;
    }

    /** A record that could not be processed waits; on overflow all state is reset. */
    method EnqueueOrReset(record: Record)
      requires Valid()
      modifies this`tapping, this`head, this`tail, this`dropped, ring
      ensures Valid()
      ensures Abstract() == Enqueue(old(Abstract()), record)
    {
      ghost var pending := Pending(Abstract());
      var ok := BufferEnq(record);
      if !ok {
        BufferClear();
        tapping := NO_RECORD;
        dropped := dropped + pending + [record.event];
      }
    }

    /** The first half of action_tapping_process: the event itself. */
    method AcceptEvent(env: Env, e: Event)
      requires Valid()
      modifies this, ring
      ensures Valid()
      ensures Abstract() == Accept(config, env, old(Abstract()), e)
    {
      input := Offered(Abstract(), e).input;
      var done, record := ProcessTapping(env, Record(e, NO_TAP));
      if !done {
        EnqueueOrReset(record);
      }
    }

    /** The second half: the loop over the waiting events. */
    method ProcessWaiting(env: Env)
      requires Valid()
      modifies this`tapping, this`log, this`tail, ring
      ensures Valid()
      ensures Abstract() == Drain(config, env, old(Abstract()))
    {
      hide Retry, HeadVerdict;
      ghost var result := Drain(config, env, Abstract());
      while tail != head
        invariant Valid()
        invariant Drain(config, env, Abstract()) == result
        decreases Count()
      {
        DrainOnce(config, env, Abstract());
        var done := RetryHead(env);
        if !done {
          return;
        }
      }
    }

    /** action_tapping_process. */
    method ActionTappingProcess(env: Env, e: Event)
      requires Valid()
      modifies this, ring
      ensures Valid()
      ensures Abstract() == Call(config, env, old(Abstract()), e)
    {
      AcceptEvent(env, e);
      ProcessWaiting(env);
    }
  }
}
