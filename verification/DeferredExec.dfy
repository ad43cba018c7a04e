/** Deferred execution (deferred_exec.c): a small table of callbacks with wrapping
    32-bit deadlines and 8-bit tokens.  Time is counted without wrapping here; the
    code sees only its lowest 32 bits. */
module DeferredExec {
  const WORD := 0x1_0000_0000
  const HALF := 0x8000_0000

  type U32 = x: nat | x < WORD
  type Token = t: nat | t < 256

  const INVALID: Token := 0

  /** A callback is known by a number; 0 is the null pointer. */
  datatype Entry = Entry(token: Token, triggerTime: U32, callback: nat, arg: nat)

  const FREE := Entry(INVALID, 0, 0, 0)

  /** A callback that was run: for which token, with which intended time, and the
      delay it returned. */
  datatype Call = Call(token: Token, time: U32, delay: U32)

  /** What callbacks return may depend on everything that ran before. */
  type Callbacks = (seq<Call>, Entry) -> U32

  // ----- Wrapping time -----

  function Sub32(a: U32, b: U32): (d: U32) {
    (a - b) % WORD
  }

  /** A difference of times read as a signed number. */
  function Signed(d: U32): int {
    if d < HALF then d else d - WORD
  }

  /** Reading a difference as signed is right when the times are less than half the
      period apart. */
  lemma SignedDifference(a: nat, b: nat)
    requires -HALF <= a - b < HALF
    ensures Signed(Sub32(a % WORD, b % WORD)) == a - b
  {
    WrapDifference(a, b);
    var d := a - b;
    if d < 0 {
      assert (d + WORD) % WORD == d + WORD;
      assert d % WORD == d + WORD;
    }
  }

  lemma WrapDifference(a: nat, b: nat)
    ensures (a % WORD - b % WORD) % WORD == (a - b) % WORD
  {
    var p, q := a / WORD, b / WORD;
    assert a - b == a % WORD - b % WORD + (p - q) * WORD;
  }

  lemma WrapSum(a: nat, b: nat)
    ensures (a % WORD + b) % WORD == (a + b) % WORD
  {
    assert a + b == a % WORD + b + (a / WORD) * WORD;
  }

  predicate Due(e: Entry, now: U32) {
    e.token != INVALID && Signed(Sub32(e.triggerTime, now)) <= 0
  }

  // ----- Tokens -----

  predicate InUse(table: seq<Entry>, t: Token) {
    exists i :: 0 <= i < |table| && table[i].token == t
  }

  predicate AllInUse(table: seq<Entry>) {
    forall t: Token :: t != INVALID ==> InUse(table, t)
  }

  predicate Distinct(table: seq<Entry>) {
    forall i, j :: 0 <= i < j < |table| && table[i].token != INVALID ==> table[i].token != table[j].token
  }

  function Tokens(table: seq<Entry>): (s: set<Token>)
    ensures |s| <= |table|
    ensures forall t: Token :: t in s <==> InUse(table, t)
  {
    if table == [] then {}
    else
      var s := Tokens(table[..|table| - 1]) + {table[|table| - 1].token};
      assert forall t :: InUse(table[..|table| - 1], t) ==> InUse(table, t);
      s
  }

  lemma {:induction false} TokensBelow(n: nat) returns (s: set<Token>)
    requires n <= 256
    ensures |s| == n && forall t: Token :: t in s <==> t < n
  {
    if n == 0 {
      s := {};
    } else {
      var s' := TokensBelow(n - 1);
      var last: Token := n - 1;
      s := s' + {last};
      assert forall t: Token :: t in s <==> t in s' || t == last;
    }
  }

  /** With a free slot and at most 255 slots there is always a token left. */
  lemma TokenLeft(table: seq<Entry>, free: nat)
    requires free < |table| <= 255 && table[free].token == INVALID
    ensures !AllInUse(table)
  {
    var all := TokensBelow(256);
    if AllInUse(table) {
      assert all <= Tokens(table);
      SubsetSize(all, Tokens(table));
    }
  }

  lemma {:induction false} SubsetSize(a: set<Token>, b: set<Token>)
    requires a <= b
    ensures |a| <= |b|
  {
    if a != {} {
      var x :| x in a;
      SubsetSize(a - {x}, b - {x});
    }
  }

  // ----- What ran for one token -----

  /** The calls made for a token, in order. */
  function CallsOf(calls: seq<Call>, t: Token): seq<Call> {
    if calls == [] then []
    else
      var n := |calls| - 1;
      if calls[n].token == t then CallsOf(calls[..n], t) + [calls[n]] else CallsOf(calls[..n], t)
  }

  function TotalDelay(calls: seq<Call>): nat {
    if calls == [] then 0 else TotalDelay(calls[..|calls| - 1]) + calls[|calls| - 1].delay
  }

  /** The k-th call was meant for the first deadline plus the delays returned by the
      k calls before it, however late each of them really ran. */
  predicate Paced(start: nat, calls: seq<Call>) {
    forall k :: 0 <= k < |calls| ==> calls[k].time == (start + TotalDelay(calls[..k])) % WORD
  }

  lemma {:induction false} CallsOfConcat(a: seq<Call>, b: seq<Call>, t: Token)
    ensures CallsOf(a + b, t) == CallsOf(a, t) + CallsOf(b, t)
  {
    if b == [] {
      assert a + b == a;
    } else {
      var n := |b| - 1;
      CallsOfConcat(a, b[..n], t);
      assert (a + b)[..|a| + n] == a + b[..n];
    }
  }

  lemma CallsOfSuffix(calls: seq<Call>, run: seq<Call>, from: nat, t: Token)
    requires from <= |calls|
    ensures CallsOf((calls + run)[from..], t) == CallsOf(calls[from..], t) + CallsOf(run, t)
  {
    assert (calls + run)[from..] == calls[from..] + run;
    CallsOfConcat(calls[from..], run, t);
  }

  /** One more call at the current deadline moves the deadline by the delay it
      returned. */
  lemma PacedStep(start: nat, calls: seq<Call>, c: Call)
    requires Paced(start, calls)
    requires c.time == (start + TotalDelay(calls)) % WORD
    ensures Paced(start, calls + [c])
    ensures TotalDelay(calls + [c]) == TotalDelay(calls) + c.delay
  {
    assert (calls + [c])[..|calls|] == calls;
    forall k | 0 <= k < |calls| + 1
      ensures (calls + [c])[k].time == (start + TotalDelay((calls + [c])[..k])) % WORD
    {
      assert (calls + [c])[..k] == calls[..k];
    }
  }

  // ----- One pass over the table -----

  /** The callbacks that a pass runs in the first `n` slots, in order. */
  function PassCalls(table: seq<Entry>, calls: seq<Call>, now: U32, cb: Callbacks, n: nat): seq<Call>
    requires n <= |table|
  {
    if n == 0 then []
    else
      var before := PassCalls(table, calls, now, cb, n - 1);
      var e := table[n - 1];
      if Due(e, now) then before + [Call(e.token, e.triggerTime, cb(calls + before, e))] else before
  }

  /** The delay that the callback of a due slot returns. */
  function Answer(table: seq<Entry>, calls: seq<Call>, now: U32, cb: Callbacks, i: nat): U32
    requires i < |table|
  {
    cb(calls + PassCalls(table, calls, now, cb, i), table[i])
  }

  /** A due slot is requeued relative to its own trigger time, or freed. */
  function PassEntry(table: seq<Entry>, calls: seq<Call>, now: U32, cb: Callbacks, i: nat): Entry
    requires i < |table|
  {
    var e, d := table[i], Answer(table, calls, now, cb, i);
    if !Due(e, now) then e
    else if d > 0 then e.(triggerTime := (e.triggerTime + d) % WORD)
    else FREE
  }

  /** A slot is run by a pass exactly when its unwrapped deadline has come, as long
      as deadlines stay within half the period of the timer. */
  lemma RunsWhenDue(e: Entry, deadline: nat, now: nat)
    requires e.token != INVALID && e.triggerTime == deadline % WORD
    requires -HALF <= deadline - now < HALF
    ensures Due(e, now % WORD) <==> deadline <= now
  {
    SignedDifference(deadline, now);
  }

  /** A pass runs the callback of a live slot once if it is due, and not otherwise. */
  lemma {:induction false} RunsOnce(table: seq<Entry>, calls: seq<Call>, now: U32, cb: Callbacks, n: nat, i: nat)
    requires n <= |table| && i < |table| && Distinct(table) && table[i].token != INVALID
    ensures CallsOf(PassCalls(table, calls, now, cb, n), table[i].token)
      == if i < n && Due(table[i], now)
         then [Call(table[i].token, table[i].triggerTime, Answer(table, calls, now, cb, i))]
         else []
  {
    if n > 0 {
      RunsOnce(table, calls, now, cb, n - 1, i);
      var before, e := PassCalls(table, calls, now, cb, n - 1), table[n - 1];
      assert n - 1 != i ==> e.token != table[i].token;
      if Due(e, now) {
        var c := Call(e.token, e.triggerTime, cb(calls + before, e));
        assert (before + [c])[..|before|] == before;
      }
    }
  }

  /** The calls of a pass are those of the due slots, in the order of the table; each
      callback is told its own trigger time and sees what ran before it. */
  lemma {:induction false} RunsInSlotOrder(table: seq<Entry>, calls: seq<Call>, now: U32, cb: Callbacks, n: nat)
    returns (slots: seq<nat>)
    requires n <= |table|
    ensures forall j, k :: 0 <= j < k < |slots| ==> slots[j] < slots[k]
    ensures forall k :: 0 <= k < |slots| ==> slots[k] < n
    ensures forall i :: i in slots <==> 0 <= i < n && Due(table[i], now)
    ensures var run := PassCalls(table, calls, now, cb, n);
      && |run| == |slots|
      && forall k :: 0 <= k < |run| ==>
           var e := table[slots[k]];
           run[k] == Call(e.token, e.triggerTime, cb(calls + run[..k], e))
  {
    if n == 0 {
      return [];
    }
    hide Due;
    slots := RunsInSlotOrder(table, calls, now, cb, n - 1);
    var before, run := PassCalls(table, calls, now, cb, n - 1), PassCalls(table, calls, now, cb, n);
    if Due(table[n - 1], now) {
      assert forall k :: 0 <= k <= |before| ==> run[..k] == before[..k];
      assert before[..|before|] == before;
      slots := slots + [n - 1];
    }
  }

  /** The calls made for a token since a point of the log. */
  function History(calls: seq<Call>, from: nat, t: Token): seq<Call>
    requires from <= |calls|
  {
    CallsOf(calls[from..], t)
  }

  /** The deadline of a slot, without wrapping: the one it was given when `from` calls
      had been made, plus what its calls since then have returned. */
  function Deadline(e: Entry, start: nat, calls: seq<Call>, from: nat): nat
    requires from <= |calls|
  {
    start + TotalDelay(History(calls, from, e.token))
  }

  /** A live slot holds a callback and its deadline, wrapped, and its calls were
      paced. */
  predicate SlotValid(e: Entry, start: nat, calls: seq<Call>, from: nat)
    requires from <= |calls|
  {
    e.token != INVALID ==>
      && e.callback != 0
      && e.triggerTime == Deadline(e, start, calls, from) % WORD
      && Paced(start, History(calls, from, e.token))
  }

  /** After a pass, a slot that was not due has its old deadline and a slot that was
      has moved by the delay its callback returned. */
  lemma PassDeadline(table: seq<Entry>, calls: seq<Call>, now: U32, cb: Callbacks, i: nat, start: nat, from: nat)
    requires Distinct(table) && i < |table| && from <= |calls| && table[i].token != INVALID
    requires SlotValid(table[i], start, calls, from)
    ensures var calls' := calls + PassCalls(table, calls, now, cb, |table|);
      && Deadline(table[i], start, calls', from)
           == Deadline(table[i], start, calls, from)
              + (if Due(table[i], now) then Answer(table, calls, now, cb, i) else 0)
      && Paced(start, History(calls', from, table[i].token))
  {
    var e, run := table[i], PassCalls(table, calls, now, cb, |table|);
    var h := History(calls, from, e.token);
    RunsOnce(table, calls, now, cb, |table|, i);
    CallsOfSuffix(calls, run, from, e.token);
    if Due(e, now) {
      PacedStep(start, h, Call(e.token, e.triggerTime, Answer(table, calls, now, cb, i)));
    } else {
      assert h + [] == h;
    }
  }

  /** A pass runs a live slot exactly when its unwrapped deadline has come, and tells
      the callback that deadline, as long as deadlines stay within half the period of
      the timer. */
  lemma FiresAtDeadline(table: seq<Entry>, calls: seq<Call>, now: nat, cb: Callbacks, i: nat, start: nat, from: nat)
    requires Distinct(table) && i < |table| && from <= |calls| && table[i].token != INVALID
    requires SlotValid(table[i], start, calls, from)
    requires -HALF <= Deadline(table[i], start, calls, from) - now < HALF
    ensures var deadline := Deadline(table[i], start, calls, from);
      CallsOf(PassCalls(table, calls, now % WORD, cb, |table|), table[i].token)
      == if deadline <= now
         then [Call(table[i].token, deadline % WORD, Answer(table, calls, now % WORD, cb, i))]
         else []
  {
    RunsWhenDue(table[i], Deadline(table[i], start, calls, from), now);
    RunsOnce(table, calls, now % WORD, cb, |table|, i);
  }

  /** A live slot stays live over a pass exactly when its deadline is still to come or
      its callback asked to be run again; it keeps its token and its callback. */
  lemma SurvivesPass(table: seq<Entry>, calls: seq<Call>, now: nat, cb: Callbacks, i: nat, start: nat, from: nat)
    requires i < |table| && from <= |calls| && table[i].token != INVALID
    requires SlotValid(table[i], start, calls, from)
    requires -HALF <= Deadline(table[i], start, calls, from) - now < HALF
    ensures var e := PassEntry(table, calls, now % WORD, cb, i);
      && (e.token != INVALID
          <==> now < Deadline(table[i], start, calls, from) || Answer(table, calls, now % WORD, cb, i) > 0)
      && e == if e.token != INVALID then table[i].(triggerTime := e.triggerTime) else FREE
  {
    RunsWhenDue(table[i], Deadline(table[i], start, calls, from), now);
    hide CallsOf, TotalDelay, PassCalls, Answer;
  }

  /** Two histories with the same first deadline and the same returned delays were
      meant for the same times, whenever they were polled. */
  lemma {:induction false} PollingIndependent(start: nat, a: seq<Call>, b: seq<Call>, k: nat)
    requires Paced(start, a) && Paced(start, b) && k <= |a| && k <= |b|
    requires forall j :: 0 <= j < k ==> a[j].delay == b[j].delay
    ensures TotalDelay(a[..k]) == TotalDelay(b[..k])
    ensures forall j :: 0 <= j < k ==> a[j].time == b[j].time
  {
    hide TotalDelay;
    if k == 0 {
      assert a[..0] == b[..0];
    } else {
      PollingIndependent(start, a, b, k - 1);
      DelayUpTo(a, k);
      DelayUpTo(b, k);
      var n := k - 1;
      assert a[n].time == (start + TotalDelay(a[..n])) % WORD;
      assert b[n].time == (start + TotalDelay(b[..n])) % WORD;
    }
  }

  lemma DelayUpTo(calls: seq<Call>, k: nat)
    requires 0 < k <= |calls|
    ensures TotalDelay(calls[..k]) == TotalDelay(calls[..k - 1]) + calls[k - 1].delay
  {
    assert calls[..k][..k - 1] == calls[..k - 1];
  }

  /** A pass keeps every slot valid. */
  lemma PassKeepsSlot(table: seq<Entry>, calls: seq<Call>, now: U32, cb: Callbacks, i: nat, start: nat, from: nat)
    requires Distinct(table) && i < |table| && from <= |calls|
    requires SlotValid(table[i], start, calls, from)
    ensures SlotValid(PassEntry(table, calls, now, cb, i), start,
                      calls + PassCalls(table, calls, now, cb, |table|), from)
  {
    if table[i].token != INVALID {
      PassDeadline(table, calls, now, cb, i, start, from);
      hide CallsOf, PassCalls, Paced;
      WrapSum(Deadline(table[i], start, calls, from), Answer(table, calls, now, cb, i));
    }
  }

  /** A pass keeps live tokens distinct. */
  lemma PassKeepsDistinct(table: seq<Entry>, calls: seq<Call>, now: U32, cb: Callbacks, after: seq<Entry>)
    requires Distinct(table) && |after| == |table|
    requires forall i :: 0 <= i < |table| ==> after[i] == PassEntry(table, calls, now, cb, i)
    ensures Distinct(after)
  {
    forall i, j | 0 <= i < j < |after| && after[i].token != INVALID
      ensures after[i].token != after[j].token
    {
      assert after[i] == PassEntry(table, calls, now, cb, i) && after[j] == PassEntry(table, calls, now, cb, j);
    }
  }

  /** The first free slot, or the number of slots. */
  function FirstFree(table: seq<Entry>): (i: nat)
    ensures i <= |table|
    ensures i < |table| ==> table[i].token == INVALID
    ensures forall j :: 0 <= j < i ==> table[j].token != INVALID
  {
    if table == [] then 0
    else if table[0].token == INVALID then 0
    else 1 + FirstFree(table[1..])
  }

  /** The first slot with a token, or the number of slots. */
  function Find(table: seq<Entry>, t: Token): (i: nat)
    ensures i <= |table|
    ensures i < |table| ==> table[i].token == t
    ensures forall j :: 0 <= j < i ==> table[j].token != t
  {
    if table == [] then 0
    else if table[0].token == t then 0
    else 1 + Find(table[1..], t)
  }

  lemma {:induction false} FirstFreeIs(table: seq<Entry>, i: nat)
    requires i <= |table| && (i < |table| ==> table[i].token == INVALID)
    requires forall j :: 0 <= j < i ==> table[j].token != INVALID
    ensures FirstFree(table) == i
  {
    var k := FirstFree(table);
    assert k < |table| ==> table[k].token == INVALID;
  }

  lemma {:induction false} FindIs(table: seq<Entry>, t: Token, i: nat)
    requires i < |table| && table[i].token == t
    requires forall j :: 0 <= j < i ==> table[j].token != t
    ensures Find(table, t) == i && InUse(table, t)
  {
    assert Find(table, t) < |table| ==> table[Find(table, t)].token == t;
  }

  /** A fresh token in a free slot keeps the tokens distinct. */
  lemma Claimed(table: seq<Entry>, i: nat, e: Entry)
    requires Distinct(table) && i < |table| && !InUse(table, e.token) && e.token != INVALID
    ensures Distinct(table[i := e])
  {
    var t := table[i := e];
    forall j, k | 0 <= j < k < |t| && t[j].token != INVALID
      ensures t[j].token != t[k].token
    {
      assert table[j].token != e.token && table[k].token != e.token;
    }
  }

  // ----- The table -----

  class Executor {
    var currentToken: Token
    const table: array<Entry>
    var calls: seq<Call>
    var lastExecution: U32
    /** For each slot the deadline set when it was deferred or last extended, and
        how many callbacks had run by then. */
    ghost var first: seq<nat>
    ghost var since: seq<nat>

    ghost predicate Shaped()
      reads this
    {
      && |first| == |since| == table.Length
      && (forall i :: 0 <= i < table.Length ==> since[i] <= |calls|)
    }

    ghost predicate Valid()
      reads this, table
    {
      && Shaped()
      && Distinct(table[..])
      && forall i :: 0 <= i < table.Length ==> SlotValid(table[i], first[i], calls, since[i])
    }

    constructor (size: nat)
      ensures Valid() && fresh(table) && table.Length == size && calls == []
      ensures forall i :: 0 <= i < size ==> table[i] == FREE
    {
      currentToken := 0;
      table := new Entry[size](_ => FREE);
      calls, lastExecution := [], 0;
      first, since := seq(size, _ => 0), seq(size, _ => 0);
    }

    /** token_can_be_used */
    method TokenCanBeUsed(token: Token) returns (ok: bool)
      ensures ok == !Taken(table[..], token)
    {
      if token == INVALID {
        return false;
      }
      for i := 0 to table.Length
        invariant forall j :: 0 <= j < i ==> table[j].token != token
      {
        if table[i].token == token {
          assert table[..][i].token == token;
          return false;
        }
      }
      assert forall j :: 0 <= j < table.Length ==> table[..][j].token != token;
      return true;
    }

    static function Increment(t: Token): Token {
      (t + 1) % 256
    }

    /** The token reached after `k` increments. */
    static function Ahead(t: Token, k: nat): Token {
      (t + k) % 256
    }

    /** The first token after the last one, counting around, that is not taken. */
    static ghost predicate NextUnused(table: seq<Entry>, last: Token, t: Token) {
      exists k: nat :: 0 < k <= 256 && t == Ahead(last, k) && forall j :: 0 < j < k ==> Taken(table, Ahead(last, j))
    }

    static lemma NextFound(table: seq<Entry>, last: Token, first: Token, k: nat)
      requires k < 256 && first == Increment(last)
      requires forall j :: 0 <= j < k ==> Taken(table, Ahead(first, j))
      ensures NextUnused(table, last, Ahead(first, k))
    {
      forall j | 0 < j < k + 1
        ensures Taken(table, Ahead(last, j))
      {
        assert Ahead(last, j) == Ahead(first, j - 1);
      }
      hide Taken;
      assert Ahead(first, k) == Ahead(last, k + 1);
    }

    /** allocate_token: the wrapping search fails only when every token is in use. */
    method AllocateToken() returns (token: Token)
      modifies this`currentToken
      ensures token == INVALID <==> AllInUse(table[..])
      ensures token != INVALID ==> !InUse(table[..], token) && token == currentToken
      ensures token != INVALID ==> NextUnused(table[..], old(currentToken), token)
    {
      currentToken := Increment(currentToken);
      var first := currentToken;
      ghost var k := 0;
      var ok := TokenCanBeUsed(currentToken);
      while !ok
        invariant 0 <= k < 256 && currentToken == Ahead(first, k)
        invariant forall j :: 0 <= j < k ==> Taken(table[..], Ahead(first, j))
        invariant ok == !Taken(table[..], currentToken)
        decreases 256 - k
      {
        currentToken := Increment(currentToken);
        k := k + 1;
        Turn(first, k);
        if currentToken == first {
          AllTaken(table[..], first);
          return INVALID;
        }
        hide Taken;
        ok := TokenCanBeUsed(currentToken);
      }
      NextFound(table[..], old(currentToken), first, k);
      return currentToken;
    }

    /** One more increment; the search is back where it began only after all 256. */
    static lemma Turn(first: Token, k: nat)
      requires 0 < k <= 256
      ensures Increment(Ahead(first, k - 1)) == Ahead(first, k)
      ensures Ahead(first, k) == first <==> k == 256
    {
    }

    static predicate Taken(table: seq<Entry>, t: Token) {
      t == INVALID || InUse(table, t)
    }

    static lemma AllTaken(table: seq<Entry>, first: Token)
      requires forall j :: 0 <= j < 256 ==> Taken(table, Ahead(first, j))
      ensures AllInUse(table)
    {
      forall t: Token | t != INVALID
        ensures InUse(table, t)
      {
        var j := (t - first) % 256;
        assert Ahead(first, j) == t;
      }
    }

    /** defer_exec_advanced: takes the first free slot, under a token nobody holds. */
    method Defer(now: nat, delay: U32, callback: nat, arg: nat) returns (token: Token)
      requires Valid()
      modifies this, table
      ensures Valid()
      ensures calls == old(calls) && lastExecution == old(lastExecution)
      ensures token != INVALID
        <==> delay != 0 && callback != 0 && FirstFree(old(table[..])) < table.Length && !AllInUse(old(table[..]))
      ensures token == INVALID
        ==> table[..] == old(table[..]) && first == old(first) && since == old(since)
      ensures token != INVALID ==>
        var i := FirstFree(old(table[..]));
        && !InUse(old(table[..]), token)
        && table[..] == old(table[..])[i := Entry(token, (now + delay) % WORD, callback, arg)]
        && Deadline(table[i], first[i], calls, since[i]) == now + delay
        && first == old(first)[i := now + delay] && since == old(since)[i := |calls|]
    {
      if table.Length == 0 || delay == 0 || callback == 0 {
        return INVALID;
      }
      for i := 0 to table.Length
        invariant table[..] == old(table[..]) && calls == old(calls) && lastExecution == old(lastExecution)
        invariant first == old(first) && since == old(since)
        invariant forall j :: 0 <= j < i ==> table[j].token != INVALID
      {
        if table[i].token == INVALID {
          FirstFreeIs(table[..], i);
          var claimed := AllocateToken();
          if claimed == INVALID {
            return INVALID;
          }
          WrapSum(now, delay);
          table[i] := Entry(currentToken, (now % WORD + delay) % WORD, callback, arg);
          first, since := first[i := now + delay], since[i := |calls|];
          Claimed(old(table[..]), i, table[i]);
          assert table[..] == old(table[..])[i := table[i]];
          return currentToken;
        }
      }
      FirstFreeIs(table[..], table.Length);
      return INVALID;
    }

    /** extend_deferred_exec_advanced: the slot of a live token gets a new first
        deadline. */
    method Extend(now: nat, token: Token, delay: U32) returns (found: bool)
      requires Valid()
      modifies this, table
      ensures Valid()
      ensures calls == old(calls) && lastExecution == old(lastExecution)
      ensures found <==> delay != 0 && token != INVALID && InUse(old(table[..]), token)
      ensures !found ==> table[..] == old(table[..]) && first == old(first) && since == old(since)
      ensures found ==>
        var i := Find(old(table[..]), token);
        && table[..] == old(table[..])[i := old(table[..])[i].(triggerTime := (now + delay) % WORD)]
        && Deadline(table[i], first[i], calls, since[i]) == now + delay
        && first == old(first)[i := now + delay] && since == old(since)[i := |calls|]
    {
      if table.Length == 0 || delay == 0 || token == INVALID {
        return false;
      }
      for i := 0 to table.Length
        invariant table[..] == old(table[..]) && calls == old(calls) && lastExecution == old(lastExecution)
        invariant first == old(first) && since == old(since)
        invariant forall j :: 0 <= j < i ==> table[j].token != token
      {
        if table[i].token == token {
          FindIs(table[..], token, i);
          WrapSum(now, delay);
          table[i] := table[i].(triggerTime := (now % WORD + delay) % WORD);
          first, since := first[i := now + delay], since[i := |calls|];
          assert table[..] == old(table[..])[i := table[i]];
          return true;
        }
      }
      return false;
    }

    /** cancel_deferred_exec_advanced: the slot of a live token is cleared. */
    method Cancel(token: Token) returns (found: bool)
      requires Valid()
      modifies table
      ensures Valid()
      ensures found <==> token != INVALID && InUse(old(table[..]), token)
      ensures table[..] == if found then old(table[..])[Find(old(table[..]), token) := FREE] else old(table[..])
      ensures found ==> !InUse(table[..], token)
    {
      if table.Length == 0 || token == INVALID {
        return false;
      }
      for i := 0 to table.Length
        invariant table[..] == old(table[..])
        invariant forall j :: 0 <= j < i ==> table[j].token != token
      {
        if table[i].token == token {
          FindIs(table[..], token, i);
          table[i] := FREE;
          assert table[..] == old(table[..])[i := FREE];
          return true;
        }
      }
      return false;
    }

    /** deferred_exec_advanced_task */
    method Task(now: nat, cb: Callbacks)
      requires Valid()
      modifies this, table
      ensures Valid()
      ensures currentToken == old(currentToken) && first == old(first) && since == old(since)
      ensures var past := old(lastExecution);
        if Signed(Sub32(now % WORD, past)) > 0 then
          && lastExecution == now % WORD
          && calls == old(calls) + PassCalls(old(table[..]), old(calls), now % WORD, cb, table.Length)
          && forall i :: 0 <= i < table.Length
               ==> table[i] == PassEntry(old(table[..]), old(calls), now % WORD, cb, i)
        else
          && lastExecution == past && calls == old(calls) && table[..] == old(table[..])
    {
      if Signed(Sub32(now % WORD, lastExecution)) <= 0 {
        return;
      }
      lastExecution := now % WORD;
      ghost var t0, c0 := table[..], calls;
      RunEntries(now % WORD, cb);
      PassKeepsDistinct(t0, c0, now % WORD, cb, table[..]);
      hide PassCalls, PassEntry, SlotValid, Distinct;
      forall i | 0 <= i < table.Length
        ensures SlotValid(table[i], first[i], calls, since[i])
      {
        PassKeepsSlot(t0, c0, now % WORD, cb, i, first[i], since[i]);
      }
    }

    /** The loop of deferred_exec_advanced_task. */
    method RunEntries(now: U32, cb: Callbacks)
      modifies this`calls, table
      ensures calls == old(calls) + PassCalls(old(table[..]), old(calls), now, cb, table.Length)
      ensures forall i :: 0 <= i < table.Length ==> table[i] == PassEntry(old(table[..]), old(calls), now, cb, i)
    {
      hide Sub32, Signed;
      ghost var t0, c0 := table[..], calls;
      for i := 0 to table.Length
        invariant calls == c0 + PassCalls(t0, c0, now, cb, i)
        invariant forall j :: 0 <= j < i ==> table[j] == PassEntry(t0, c0, now, cb, j)
        invariant forall j :: i <= j < table.Length ==> table[j] == t0[j]
      {
        var e := table[i];
        if e.token != INVALID && Signed(Sub32(e.triggerTime, now)) <= 0 {
          var delay := cb(calls, e);
          calls := calls + [Call(e.token, e.triggerTime, delay)];
          if delay > 0 {
            table[i] := e.(triggerTime := (e.triggerTime + delay) % WORD);
          } else {
            table[i] := FREE;
          }
        }
      }
    }
  }
}
