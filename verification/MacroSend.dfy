/** Sending a stored macro (dynamic_keymap_macro_send).  The macro buffer holds
    zero-terminated strings; the id-th one is cut into tokens in a scratch buffer
    of eight bytes, and each token is sent as a string of its own. */
module MacroSend {
  import opened ByteData
  import opened Eeprom
  import opened KeymapLayout

  const PREFIX: Byte := 1
  const TAP_CODE: Byte := 1
  const DOWN_CODE: Byte := 2
  const UP_CODE: Byte := 3
  const DELAY_CODE: Byte := 4
  const BAR: Byte := 0x7C

  type Scratch = d: seq<Byte> | |d| == 8 witness [0, 0, 0, 0, 0, 0, 0, 0]

  /** How sending ends.  `Overrun` stands for a read past the end of the buffer. */
  datatype Outcome = NoSuchId | Incomplete | NoMacro | Ended | Aborted | Overrun

  datatype Sent = Sent(strings: seq<seq<Byte>>, outcome: Outcome)

  // ----- The loop over the tokens, as a function -----

  datatype Step = Stop(outcome: Outcome) | Send(next: nat, data: Scratch)

  function Next(b: seq<Byte>, p: nat, data: Scratch): (s: Step)
    requires p <= |b|
    ensures s.Send? ==> p < s.next <= |b|
  {
    if p == |b| then Stop(Overrun)
    else
      var d := data[0 := b[p]][1 := 0];
      if b[p] == 0 then Stop(Ended)
      else if b[p] != PREFIX then Send(p + 1, d)
      else NextCode(b, p + 1, d)
  }

  /** What follows the prefix. */
  function NextCode(b: seq<Byte>, p: nat, data: Scratch): (s: Step)
    requires p <= |b|
    ensures s.Send? ==> p < s.next <= |b|
  {
    if p == |b| then Stop(Overrun)
    else
      var code, d := b[p], data[1 := b[p]];
      if code == 0 then Stop(Aborted)
      else if code == TAP_CODE || code == DOWN_CODE || code == UP_CODE then
        if p + 1 == |b| then Stop(Overrun)
        else if b[p + 1] == 0 then Stop(Aborted)
        else Send(p + 2, d[2 := b[p + 1]][3 := 0])
      else if code == DELAY_CODE then NextDelay(b, p + 1, 2, d)
      else Send(p + 1, d)
  }

  /** The digits of a delay, up to the bar that ends it. */
  function NextDelay(b: seq<Byte>, p: nat, i: nat, data: Scratch): (s: Step)
    requires p <= |b| && 2 <= i <= 6
    ensures s.Send? ==> p < s.next <= |b|
    decreases 6 - i
  {
    if p == |b| then Stop(Overrun)
    else
      var d := data[i := b[p]];
      if b[p] == 0 then Stop(Aborted)
      else if b[p] == BAR then Send(p + 1, d[i + 1 := 0])
      else if i == 6 then Stop(Aborted)
      else NextDelay(b, p + 1, i + 1, d)
  }

  /** The bytes from `i` up to the first zero, if there is one. */
  function CString(data: seq<Byte>, i: nat): (s: seq<Byte>)
    requires i <= |data|
    decreases |data| - i
  {
    if i == |data| || data[i] == 0 then [] else [data[i]] + CString(data, i + 1)
  }

  function Play(b: seq<Byte>, p: nat, data: Scratch): Sent
    requires p <= |b|
    decreases |b| - p
  {
    match Next(b, p, data)
    case Stop(o) => Sent([], o)
    case Send(q, d) =>
      var rest := Play(b, q, d);
      Sent([CString(d, 0)] + rest.strings, rest.outcome)
  }

  /** The position behind `id` zero bytes, if there are that many. */
  datatype Found = Missing | At(p: nat)

  function Skip(b: seq<Byte>, p: nat, id: nat): (f: Found)
    requires p <= |b|
    ensures f.At? ==> p <= f.p <= |b|
    decreases |b| - p
  {
    if id == 0 then At(p)
    else if p == |b| then Missing
    else Skip(b, p + 1, if b[p] == 0 then id - 1 else id)
  }

  const EMPTY: Scratch := [0, 0, 0, 0, 0, 0, 0, 0]

  function SendMacro(b: seq<Byte>, id: nat): Sent
    requires b != []
  {
    if b[|b| - 1] != 0 then Sent([], Incomplete)
    else
      match Skip(b, 0, id)
      case Missing => Sent([], NoMacro)
      case At(p) => Play(b, p, EMPTY)
  }

  // ----- Which string is sent, and when reads stay inside -----

  function ZeroCount(b: seq<Byte>): nat {
    if b == [] then 0 else (if b[0] == 0 then 1 else 0) + ZeroCount(b[1..])
  }

  /** Skipping succeeds exactly when there are enough zero bytes; what is skipped
      then holds `id` of them and, if any, ends with one. */
  lemma {:induction false} SkipFinds(b: seq<Byte>, p: nat, id: nat)
    requires p <= |b|
    ensures Skip(b, p, id).At? <==> id <= ZeroCount(b[p..])
    ensures Skip(b, p, id).At? ==>
      var q := Skip(b, p, id).p;
      && ZeroCount(b[p..q]) == id && ZeroCount(b[q..]) == ZeroCount(b[p..]) - id
      && (id > 0 ==> p < q && b[q - 1] == 0)
    decreases |b| - p
  {
    if id > 0 && p < |b| {
      var id' := if b[p] == 0 then id - 1 else id;
      SkipFinds(b, p + 1, id');
      assert b[p..][1..] == b[p + 1..];
      if Skip(b, p, id).At? {
        var q := Skip(b, p, id).p;
        assert b[p..q][1..] == b[p + 1..q];
      }
    }
  }

  lemma {:induction false} ZeroCounts(b: seq<Byte>, i: nat)
    requires i < |b| && b[i] == 0
    ensures ZeroCount(b) > 0
  {
    if i > 0 {
      ZeroCounts(b[1..], i - 1);
    }
  }

  lemma {:induction false} ZeroExists(b: seq<Byte>) returns (i: nat)
    requires ZeroCount(b) > 0
    ensures i < |b| && b[i] == 0 && forall j :: 0 <= j < i ==> b[j] != 0
  {
    if b[0] == 0 {
      i := 0;
    } else {
      i := ZeroExists(b[1..]);
      assert b[i + 1] == b[1..][i];
      assert forall j :: 1 <= j < i + 1 ==> b[j] == b[1..][j - 1];
      i := i + 1;
    }
  }

  /** A token never extends past a zero byte. */
  lemma {:induction false} DelayStopsAtZero(b: seq<Byte>, p: nat, i: nat, data: Scratch, z: nat)
    requires 2 <= i <= 6 && p <= z < |b| && b[z] == 0
    ensures var s := NextDelay(b, p, i, data);
      s != Stop(Overrun) && (s.Send? ==> s.next <= z)
    decreases 6 - i
  {
    if p < z && b[p] != 0 && b[p] != BAR && i < 6 {
      DelayStopsAtZero(b, p + 1, i + 1, data[i := b[p]], z);
    }
  }

  /** So nothing behind the terminator is read or sent. */
  lemma {:induction false} PlayStopsAtZero(b: seq<Byte>, p: nat, data: Scratch, z: nat)
    requires p <= z < |b| && b[z] == 0
    ensures Play(b, p, data).outcome != Overrun
    ensures Play(b, p, data) == Play(b[..z + 1], p, data)
    decreases z - p
  {
    var b' := b[..z + 1];
    if p < z && b[p] == PREFIX && p + 1 < z && b[p + 1] == DELAY_CODE {
      DelayStopsAtZero(b, p + 2, 2, data[0 := b[p]][1 := 0][1 := b[p + 1]], z);
      DelayPrefix(b, p + 2, 2, data[0 := b[p]][1 := 0][1 := b[p + 1]], z);
    }
    assert Next(b, p, data) == Next(b', p, data);
    if Next(b, p, data).Send? {
      PlayStopsAtZero(b, Next(b, p, data).next, Next(b, p, data).data, z);
    }
  }

  lemma {:induction false} DelayPrefix(b: seq<Byte>, p: nat, i: nat, data: Scratch, z: nat)
    requires 2 <= i <= 6 && p <= z < |b| && b[z] == 0
    ensures NextDelay(b, p, i, data) == NextDelay(b[..z + 1], p, i, data)
    decreases 6 - i
  {
    if p < z && b[p] != 0 && b[p] != BAR && i < 6 {
      DelayPrefix(b, p + 1, i + 1, data[i := b[p]], z);
    }
  }

  /** Sending reads past the end of the buffer exactly when the buffer is complete
      and holds precisely `id` zero bytes: the skip then ends behind the last one,
      where no string is left. */
  lemma OverrunIff(b: seq<Byte>, id: nat)
    requires b != []
    ensures SendMacro(b, id).outcome == Overrun <==> b[|b| - 1] == 0 && ZeroCount(b) == id
  {
    if b[|b| - 1] == 0 {
      SkipFinds(b, 0, id);
      assert b[0..] == b;
      if Skip(b, 0, id).At? {
        var p := Skip(b, 0, id).p;
        if ZeroCount(b) > id {
          var z := ZeroExists(b[p..]);
          assert b[p + z] == b[p..][z];
          PlayStopsAtZero(b, p, EMPTY, p + z);
        } else if p < |b| {
          ZeroCounts(b[p..], |b| - 1 - p);
        }
      }
    }
  }

  // ----- The language of macros -----

  /** Plain characters, tap/down/up of a keycode, delays of at most four digits,
      and codes that the sender does not know. */
  datatype Token = Plain(c: Byte) | KeyCode(code: Byte, keycode: Byte) | Delay(digits: seq<Byte>) | Other(code: Byte)

  predicate ValidToken(t: Token) {
    match t
    case Plain(c) => c != 0 && c != PREFIX
    case KeyCode(code, k) => code in {TAP_CODE, DOWN_CODE, UP_CODE} && k != 0
    case Delay(ds) => |ds| <= 4 && 0 !in ds && BAR !in ds
    case Other(code) => code !in {0, TAP_CODE, DOWN_CODE, UP_CODE, DELAY_CODE}
  }

  function Encode(t: Token): seq<Byte> {
    match t
    case Plain(c) => [c]
    case KeyCode(code, k) => [PREFIX, code, k]
    case Delay(ds) => [PREFIX, DELAY_CODE] + ds + [BAR]
    case Other(code) => [PREFIX, code]
  }

  function EncodeAll(ts: seq<Token>): seq<Byte> {
    if ts == [] then [] else Encode(ts[0]) + EncodeAll(ts[1..])
  }

  /** What a token leaves in the scratch buffer behind its two leading bytes. */
  function TailAfter(t: Token, tail: seq<Byte>): seq<Byte> {
    match t
    case KeyCode(_, k) => [k]
    case Delay(ds) => ds + [BAR]
    case _ => tail
  }

  /** What is sent for a token: the token, except that an unknown code drags along
      what the latest keycode or delay left behind. */
  function SentFor(t: Token, tail: seq<Byte>): seq<Byte> {
    if t.Other? then Encode(t) + tail else Encode(t)
  }

  function SentForAll(ts: seq<Token>, tail: seq<Byte>): seq<seq<Byte>> {
    if ts == [] then [] else [SentFor(ts[0], tail)] + SentForAll(ts[1..], TailAfter(ts[0], tail))
  }

  predicate ValidTokens(ts: seq<Token>) {
    forall i :: 0 <= i < |ts| ==> ValidToken(ts[i])
  }

  /** The buffer holds `s` at `p`. */
  predicate HoldsAt(b: seq<Byte>, p: nat, s: seq<Byte>) {
    p + |s| <= |b| && b[p..p + |s|] == s
  }

  lemma Regroup(a: seq<Byte>, b: seq<Byte>, c: seq<Byte>)
    ensures a + b + c == a + (b + c)
  {
  }

  lemma HoldsSplit(b: seq<Byte>, p: nat, s: seq<Byte>, t: seq<Byte>)
    ensures HoldsAt(b, p, s + t) <==> HoldsAt(b, p, s) && HoldsAt(b, p + |s|, t)
  {
    if p + |s| + |t| <= |b| {
      assert b[p..p + |s + t|] == b[p..p + |s|] + b[p + |s|..p + |s| + |t|];
      assert (s + t)[..|s|] == s && (s + t)[|s|..] == t;
    }
  }

  lemma HoldsByte(b: seq<Byte>, p: nat, s: seq<Byte>, j: nat)
    requires HoldsAt(b, p, s) && j < |s|
    ensures b[p + j] == s[j]
  {
    assert b[p..p + |s|][j] == s[j];
  }

  /** Reading a delay: the digits and the bar go to the scratch buffer from `i` on. */
  lemma {:induction false} DelayReads(b: seq<Byte>, p: nat, i: nat, data: Scratch, ds: seq<Byte>)
    requires 2 <= i && i + |ds| <= 6 && 0 !in ds && BAR !in ds
    requires HoldsAt(b, p, ds + [BAR])
    ensures var s := NextDelay(b, p, i, data);
      && s.Send? && s.next == p + |ds| + 1
      && s.data[..i] == data[..i] && CString(s.data, i) == ds + [BAR]
    decreases |ds|
  {
    var d := data[i := b[p]];
    assert b[p] == b[p..p + |ds| + 1][0] == (ds + [BAR])[0];
    if ds == [] {
      assert CString(d[i + 1 := 0], i + 1) == [];
    } else {
      assert ds + [BAR] == [ds[0]] + (ds[1..] + [BAR]);
      HoldsSplit(b, p, [ds[0]], ds[1..] + [BAR]);
      assert ds[0] in ds;
      DelayReads(b, p + 1, i + 1, d, ds[1..]);
      var s := NextDelay(b, p + 1, i + 1, d);
      assert s.data[i] == s.data[..i + 1][i] == ds[0];
      assert s.data[..i] == s.data[..i + 1][..i] == data[..i];
    }
  }

  /** One token is read and sent. */
  lemma TokenReads(b: seq<Byte>, p: nat, data: Scratch, t: Token, tail: seq<Byte>)
    requires ValidToken(t) && HoldsAt(b, p, Encode(t))
    requires CString(data, 2) == tail
    ensures var s := Next(b, p, data);
      && s.Send? && s.next == p + |Encode(t)|
      && CString(s.data, 0) == SentFor(t, tail) && CString(s.data, 2) == TailAfter(t, tail)
  {
    var e := Encode(t);
    HoldsByte(b, p, e, 0);
    if |e| > 1 {
      HoldsByte(b, p, e, 1);
    }
    if |e| > 2 {
      HoldsByte(b, p, e, 2);
    }
    match t {
      case Plain(c) => PlainReads(b, p, data, c);
      case KeyCode(code, k) => KeyReads(b, p, data, code, k);
      case Delay(ds) =>
        Regroup([PREFIX, DELAY_CODE], ds, [BAR]);
        HoldsSplit(b, p, [PREFIX, DELAY_CODE], ds + [BAR]);
        var d := data[0 := PREFIX][1 := 0][1 := DELAY_CODE];
        DelayReads(b, p + 2, 2, d, ds);
        PrefixedString(NextDelay(b, p + 2, 2, d).data, DELAY_CODE);
      case Other(code) =>
        var d := data[0 := PREFIX][1 := 0][1 := code];
        SameTail(data, d, 2);
        PrefixedString(d, code);
    }
  }

  lemma {:induction false} SameTail(a: Scratch, b: Scratch, i: nat)
    requires i <= 8 && forall j :: i <= j < 8 ==> a[j] == b[j]
    ensures CString(a, i) == CString(b, i)
    decreases 8 - i
  {
    if i < 8 {
      SameTail(a, b, i + 1);
    }
  }

  lemma PrefixedString(d: Scratch, code: Byte)
    requires d[..2] == [PREFIX, code] && code != 0
    ensures CString(d, 0) == [PREFIX, code] + CString(d, 2)
  {
    assert d[0] == d[..2][0] && d[1] == d[..2][1];
    assert CString(d, 1) == [code] + CString(d, 2);
  }

  lemma PlainReads(b: seq<Byte>, p: nat, data: Scratch, c: Byte)
    requires c != 0 && c != PREFIX && p < |b| && b[p] == c
    ensures var s := Next(b, p, data);
      s.Send? && s.next == p + 1 && CString(s.data, 0) == [c] && CString(s.data, 2) == CString(data, 2)
  {
    var d := data[0 := c][1 := 0];
    SameTail(data, d, 2);
    assert CString(d, 1) == [];
  }

  lemma KeyReads(b: seq<Byte>, p: nat, data: Scratch, code: Byte, k: Byte)
    requires code in {TAP_CODE, DOWN_CODE, UP_CODE} && k != 0
    requires p + 3 <= |b| && b[p] == PREFIX && b[p + 1] == code && b[p + 2] == k
    ensures var s := Next(b, p, data);
      s.Send? && s.next == p + 3 && CString(s.data, 0) == [PREFIX, code, k] && CString(s.data, 2) == [k]
  {
    var d: Scratch := data[0 := PREFIX][1 := 0][1 := code][2 := k][3 := 0];
    assert CString(d, 3) == [];
    assert CString(d, 2) == [k];
    PrefixedString(d, code);
  }

  /** Every macro text made of tokens is sent token by token, to its end. */
  lemma {:induction false} PlayTokens(b: seq<Byte>, p: nat, data: Scratch, ts: seq<Token>, tail: seq<Byte>)
    requires ValidTokens(ts) && HoldsAt(b, p, EncodeAll(ts) + [0])
    requires CString(data, 2) == tail
    ensures Play(b, p, data) == Sent(SentForAll(ts, tail), Ended)
    decreases |ts|
  {
    if ts == [] {
      HoldsByte(b, p, EncodeAll(ts) + [0], 0);
    } else {
      PlayFirst(b, p, data, ts, tail);
      var s := Next(b, p, data);
      hide Encode, ValidToken, HoldsAt, Next, CString, EncodeAll;
      PlayTokens(b, s.next, s.data, ts[1..], TailAfter(ts[0], tail));
    }
  }

  lemma PlayFirst(b: seq<Byte>, p: nat, data: Scratch, ts: seq<Token>, tail: seq<Byte>)
    requires ts != [] && ValidTokens(ts) && HoldsAt(b, p, EncodeAll(ts) + [0])
    requires CString(data, 2) == tail
    ensures var s := Next(b, p, data);
      && s.Send? && HoldsAt(b, s.next, EncodeAll(ts[1..]) + [0])
      && CString(s.data, 0) == SentFor(ts[0], tail) && CString(s.data, 2) == TailAfter(ts[0], tail)
  {
    hide *;
    var first, rest := Encode(ts[0]), EncodeAll(ts[1..]) + [0];
    FirstToken(ts);
    Regroup(first, EncodeAll(ts[1..]), [0]);
    HoldsSplit(b, p, first, rest);
    TokenReads(b, p, data, ts[0], tail);
  }

  lemma FirstToken(ts: seq<Token>)
    requires ts != [] && ValidTokens(ts)
    ensures ValidToken(ts[0]) && EncodeAll(ts) == Encode(ts[0]) + EncodeAll(ts[1..])
  {
    hide ValidToken, Encode;
  }

  // ----- The other direction -----

  lemma {:induction false} DelayOf(b: seq<Byte>, p: nat, i: nat, data: Scratch) returns (ds: seq<Byte>)
    requires p <= |b| && 2 <= i <= 6 && NextDelay(b, p, i, data).Send?
    ensures i + |ds| <= 6 && 0 !in ds && BAR !in ds
    ensures NextDelay(b, p, i, data).next == p + |ds| + 1 && HoldsAt(b, p, ds + [BAR])
    decreases 6 - i
  {
    if b[p] == BAR {
      ds := [];
    } else {
      var rest := DelayOf(b, p + 1, i + 1, data[i := b[p]]);
      ds := [b[p]] + rest;
      assert ds + [BAR] == [b[p]] + (rest + [BAR]);
      HoldsSplit(b, p, [b[p]], rest + [BAR]);
    }
  }

  lemma DelayTokenOf(b: seq<Byte>, p: nat, data: Scratch) returns (t: Token)
    requires p + 2 <= |b| && b[p] == PREFIX && b[p + 1] == DELAY_CODE
    requires NextDelay(b, p + 2, 2, data).Send?
    ensures ValidToken(t) && HoldsAt(b, p, Encode(t)) && NextDelay(b, p + 2, 2, data).next == p + |Encode(t)|
  {
    var ds := DelayOf(b, p + 2, 2, data);
    t := Delay(ds);
    Regroup([PREFIX, DELAY_CODE], ds, [BAR]);
    assert b[p..p + 2] == [PREFIX, DELAY_CODE];
    HoldsSplit(b, p, [PREFIX, DELAY_CODE], ds + [BAR]);
  }

  lemma TokenOf(b: seq<Byte>, p: nat, data: Scratch) returns (t: Token)
    requires p <= |b| && Next(b, p, data).Send?
    ensures ValidToken(t) && HoldsAt(b, p, Encode(t)) && Next(b, p, data).next == p + |Encode(t)|
  {
    hide NextDelay;
    if b[p] != PREFIX {
      t := Plain(b[p]);
    } else if b[p + 1] == DELAY_CODE {
      t := DelayTokenOf(b, p, data[0 := b[p]][1 := 0][1 := b[p + 1]]);
    } else if b[p + 1] in {TAP_CODE, DOWN_CODE, UP_CODE} {
      t := KeyCode(b[p + 1], b[p + 2]);
      assert b[p..p + 3] == Encode(t);
    } else {
      t := Other(b[p + 1]);
      assert b[p..p + 2] == Encode(t);
    }
  }

  /** And only texts made of tokens are sent to their end. */
  lemma {:induction false} TokensPlayed(b: seq<Byte>, p: nat, data: Scratch) returns (ts: seq<Token>)
    requires p <= |b| && Play(b, p, data).outcome == Ended
    ensures ValidTokens(ts) && HoldsAt(b, p, EncodeAll(ts) + [0])
    decreases |b| - p
  {
    if Next(b, p, data).Stop? {
      ts := [];
    } else {
      hide Encode, ValidToken, HoldsAt, Next;
      var t := TokenOf(b, p, data);
      var s := Next(b, p, data);
      var rest := TokensPlayed(b, s.next, s.data);
      ts := [t] + rest;
      assert ts[1..] == rest;
      Regroup(Encode(t), EncodeAll(rest), [0]);
      HoldsSplit(b, p, Encode(t), EncodeAll(rest) + [0]);
    }
  }

  /** The text at `p` does not begin with a token. */
  ghost predicate NoToken(b: seq<Byte>, p: nat) {
    forall t :: ValidToken(t) ==> !HoldsAt(b, p, Encode(t))
  }

  /** Sending stops where no token begins, and there only. */
  lemma StopsIff(b: seq<Byte>, p: nat, data: Scratch)
    requires p <= |b|
    ensures Next(b, p, data).Stop? <==> NoToken(b, p)
    ensures Next(b, p, data).Stop? ==> (Next(b, p, data).outcome == Ended <==> p < |b| && b[p] == 0)
  {
    if Next(b, p, data).Send? {
      var t := TokenOf(b, p, data);
      assert ValidToken(t) && HoldsAt(b, p, Encode(t));
    } else {
      EndedAtZero(b, p, data);
      hide Next, Encode, ValidToken, HoldsAt;
      forall t | ValidToken(t)
        ensures !HoldsAt(b, p, Encode(t))
      {
        if HoldsAt(b, p, Encode(t)) {
          TokenReads(b, p, data, t, CString(data, 2));
        }
      }
    }
  }

  lemma {:induction false} DelayAborts(b: seq<Byte>, p: nat, i: nat, data: Scratch)
    requires p <= |b| && 2 <= i <= 6
    ensures NextDelay(b, p, i, data) != Stop(Ended)
    decreases 6 - i
  {
    if p < |b| && b[p] != 0 && b[p] != BAR && i < 6 {
      DelayAborts(b, p + 1, i + 1, data[i := b[p]]);
    }
  }

  lemma EndedAtZero(b: seq<Byte>, p: nat, data: Scratch)
    requires p <= |b|
    ensures Next(b, p, data) == Stop(Ended) <==> p < |b| && b[p] == 0
  {
    if p + 1 < |b| && b[p] == PREFIX && b[p + 1] == DELAY_CODE {
      DelayAborts(b, p + 2, 2, data[0 := b[p]][1 := 0][1 := b[p + 1]]);
    }
  }

  /** `ts` are the tokens of the text at `p`, as far as there are any, and what was sent. */
  ghost predicate PlayedAsFar(b: seq<Byte>, p: nat, tail: seq<Byte>, ts: seq<Token>, sent: Sent) {
    var q := p + |EncodeAll(ts)|;
    && ValidTokens(ts) && HoldsAt(b, p, EncodeAll(ts)) && NoToken(b, q)
    && sent.strings == SentForAll(ts, tail)
    && (sent.outcome == Ended <==> q < |b| && b[q] == 0)
  }

  lemma PlayedNext(b: seq<Byte>, p: nat, tail: seq<Byte>, t: Token, ts: seq<Token>, sent: Sent)
    requires ValidToken(t) && HoldsAt(b, p, Encode(t))
    requires PlayedAsFar(b, p + |Encode(t)|, TailAfter(t, tail), ts, sent)
    ensures PlayedAsFar(b, p, tail, [t] + ts, Sent([SentFor(t, tail)] + sent.strings, sent.outcome))
  {
    hide Encode, ValidToken, HoldsAt, NoToken, SentFor, TailAfter;
    var all := [t] + ts;
    assert all[0] == t && all[1..] == ts;
    HoldsSplit(b, p, Encode(t), EncodeAll(ts));
  }

  lemma PlayStops(b: seq<Byte>, p: nat, data: Scratch, tail: seq<Byte>)
    requires p <= |b| && Next(b, p, data).Stop?
    ensures PlayedAsFar(b, p, tail, [], Play(b, p, data))
  {
    StopsIff(b, p, data);
    hide Next, NoToken;
  }

  /** Whatever the buffer holds: the tokens that begin the text are sent, one by one, as far
      as there are any, and nothing else is; it ends well exactly at a zero. */
  lemma {:induction false} PlaysAsFar(b: seq<Byte>, p: nat, data: Scratch, tail: seq<Byte>) returns (ts: seq<Token>)
    requires p <= |b| && CString(data, 2) == tail
    ensures PlayedAsFar(b, p, tail, ts, Play(b, p, data))
    decreases |b| - p
  {
    hide Encode, ValidToken, HoldsAt, Next, NoToken, SentFor, TailAfter, CString, PlayedAsFar;
    var s := Next(b, p, data);
    if s.Stop? {
      ts := [];
      PlayStops(b, p, data, tail);
    } else {
      var t := TokenOf(b, p, data);
      TokenReads(b, p, data, t, tail);
      ts := PlaysAsFar(b, s.next, s.data, TailAfter(t, tail));
      PlayedNext(b, p, tail, t, ts, Play(b, s.next, s.data));
      ts := [t] + ts;
    }
  }

  /** Sending macro `id`: nothing unless the last byte of the buffer is zero and there are
      that many zeros; otherwise the tokens behind the `id`-th zero. */
  lemma SendsBehindZeros(b: seq<Byte>, id: nat) returns (p: nat, ts: seq<Token>)
    requires b != []
    ensures b[|b| - 1] != 0 || ZeroCount(b) < id ==> SendMacro(b, id).strings == []
    ensures b[|b| - 1] == 0 && id <= ZeroCount(b) ==>
              && p <= |b| && ZeroCount(b[..p]) == id && (if id == 0 then p == 0 else p > 0 && b[p - 1] == 0)
              && PlayedAsFar(b, p, [], ts, SendMacro(b, id))
  {
    SkipFinds(b, 0, id);
    assert b[0..] == b;
    p, ts := 0, [];
    if b[|b| - 1] == 0 && id <= ZeroCount(b) {
      p := Skip(b, 0, id).p;
      assert b[0..p] == b[..p];
      NoTail();
      hide ZeroCount, CString, Next, PlayedAsFar, Play;
      ts := PlaysAsFar(b, p, EMPTY, []);
    }
  }

  lemma NoTail()
    ensures CString(EMPTY, 2) == []
  {
  }

  // ----- When the sends add up to the text -----

  function Concat(ss: seq<seq<Byte>>): seq<Byte> {
    if ss == [] then [] else ss[0] + Concat(ss[1..])
  }

  /** An unknown code meets left-over bytes. */
  predicate Drags(ts: seq<Token>, tail: seq<Byte>) {
    ts != [] && ((ts[0].Other? && tail != []) || Drags(ts[1..], TailAfter(ts[0], tail)))
  }

  lemma {:induction false} SendsAddUp(ts: seq<Token>, tail: seq<Byte>)
    ensures var sent := Concat(SentForAll(ts, tail));
      && |sent| >= |EncodeAll(ts)|
      && (Drags(ts, tail) ==> |sent| > |EncodeAll(ts)|)
      && (!Drags(ts, tail) ==> sent == EncodeAll(ts))
  {
    if ts != [] {
      SendsAddUp(ts[1..], TailAfter(ts[0], tail));
    }
  }

  /** An unknown code behind a keycode or a delay. */
  ghost predicate UnknownAfterPayload(ts: seq<Token>) {
    exists i, j :: 0 <= i < j < |ts| && (ts[i].KeyCode? || ts[i].Delay?) && ts[j].Other?
  }

  lemma {:induction false} DragsIff(ts: seq<Token>, tail: seq<Byte>)
    ensures Drags(ts, tail) <==> UnknownAfterPayload(ts) || (tail != [] && exists j :: 0 <= j < |ts| && ts[j].Other?)
  {
    if ts != [] {
      var rest := ts[1..];
      DragsIff(rest, TailAfter(ts[0], tail));
      if UnknownAfterPayload(rest) {
        var i, j :| 0 <= i < j < |rest| && (rest[i].KeyCode? || rest[i].Delay?) && rest[j].Other?;
        assert (ts[i + 1].KeyCode? || ts[i + 1].Delay?) && ts[j + 1].Other?;
      }
      if j :| 0 <= j < |rest| && rest[j].Other? {
        assert ts[j + 1].Other?;
      }
      if UnknownAfterPayload(ts) {
        var i, j :| 0 <= i < j < |ts| && (ts[i].KeyCode? || ts[i].Delay?) && ts[j].Other?;
        assert rest[j - 1].Other?;
        assert i > 0 ==> rest[i - 1] == ts[i];
      }
      if j :| 0 < j < |ts| && ts[j].Other? {
        assert rest[j - 1].Other?;
      }
    }
  }

  // ----- The id-th string -----

  /** Strings as the buffer holds them: each followed by a zero. */
  function Stored(ss: seq<seq<Byte>>): seq<Byte> {
    if ss == [] then [] else ss[0] + [0] + Stored(ss[1..])
  }

  lemma {:induction false} SkipString(b: seq<Byte>, p: nat, s: seq<Byte>, id: nat)
    requires HoldsAt(b, p, s + [0]) && 0 !in s && id > 0
    ensures Skip(b, p, id) == Skip(b, p + |s| + 1, id - 1)
    decreases |s|
  {
    HoldsByte(b, p, s + [0], 0);
    if s != [] {
      assert s[0] in s;
      assert s + [0] == [s[0]] + (s[1..] + [0]);
      HoldsSplit(b, p, [s[0]], s[1..] + [0]);
      SkipString(b, p + 1, s[1..], id);
    }
  }

  lemma {:induction false} SkipStrings(b: seq<Byte>, p: nat, ss: seq<seq<Byte>>, id: nat)
    requires HoldsAt(b, p, Stored(ss)) && id < |ss|
    requires forall i :: 0 <= i < |ss| ==> 0 !in ss[i]
    ensures Skip(b, p, id).At? && HoldsAt(b, Skip(b, p, id).p, ss[id] + [0])
    decreases id
  {
    HoldsSplit(b, p, ss[0] + [0], Stored(ss[1..]));
    if id > 0 {
      SkipString(b, p, ss[0], id);
      SkipStrings(b, p + |ss[0]| + 1, ss[1..], id - 1);
    }
  }

  /** A complete buffer sends for each id its own string, token by token; and the
      sends add up to that string if and only if it has no unknown code behind a
      keycode or a delay. */
  lemma SendsOwnString(b: seq<Byte>, ss: seq<seq<Byte>>, id: nat, ts: seq<Token>)
    requires b != [] && b[|b| - 1] == 0 && HoldsAt(b, 0, Stored(ss))
    requires id < |ss| && forall i :: 0 <= i < |ss| ==> 0 !in ss[i]
    requires ValidTokens(ts) && ss[id] == EncodeAll(ts)
    ensures var r := SendMacro(b, id);
      && r == Sent(SentForAll(ts, []), Ended)
      && (Concat(r.strings) == ss[id] <==> !UnknownAfterPayload(ts))
  {
    SkipStrings(b, 0, ss, id);
    assert CString(EMPTY, 2) == [];
    PlayTokens(b, Skip(b, 0, id).p, EMPTY, ts, []);
    SendsAddUp(ts, []);
    DragsIff(ts, []);
  }

  /** A keycode followed by an unknown code: the keycode is sent once more. */
  lemma KeycodeSentTwice()
    ensures SendMacro([1, 1, 4, 1, 9, 0], 0) == Sent([[1, 1, 4], [1, 9, 4]], Ended)
  {
    var b: seq<Byte> := [1, 1, 4, 1, 9, 0];
    var ts := [KeyCode(1, 4), Other(9)];
    assert EncodeAll(ts[1..]) == [1, 9];
    assert EncodeAll(ts) == [1, 1, 4, 1, 9];
    assert Stored([[1, 1, 4, 1, 9]]) == b;
    SendsOwnString(b, [[1, 1, 4, 1, 9]], 0, ts);
    assert SentFor(Other(9), [4]) == [1, 9, 4];
    assert SentForAll([Other(9)], [4]) == [[1, 9, 4]] + SentForAll([], [4]);
    assert ts[1..] == [Other(9)];
    assert SentForAll(ts, []) == [[1, 1, 4], [1, 9, 4]];
  }

  // ----- The code -----

  /** The macro buffer in the EEPROM. */
  function Buffer(l: Layout, mem: seq<Byte>): (b: seq<Byte>)
    requires l.Valid(|mem|)
    ensures |b| == l.MacroSize()
  {
    mem[l.MacroAddr()..l.maxAddr + 1]
  }

  /** The string that send_string_with_delay sees. */
  method ReadCString(data: array<Byte>) returns (s: seq<Byte>)
    ensures s == CString(data[..], 0)
  {
    s := [];
    var i := 0;
    while i < data.Length && data[i] != 0
      invariant 0 <= i <= data.Length
      invariant s + CString(data[..], i) == CString(data[..], 0)
    {
      s := s + [data[i]];
      i := i + 1;
    }
    assert s + [] == s;
  }

  /** Reads the digits of a delay into data[2..], at most four and the bar. */
  method ReadDelay(eeprom: Device, l: Layout, start: nat, data: array<Byte>)
    returns (p: nat, stop: bool, outcome: Outcome)
    requires l.Valid(eeprom.mem.Length) && eeprom.Valid() && data.Length == 8 && data != eeprom.mem
    requires l.MacroAddr() <= start <= l.maxAddr + 1
    modifies data
    ensures l.MacroAddr() <= p <= l.maxAddr + 1
    ensures var s := NextDelay(Buffer(l, eeprom.mem[..]), start - l.MacroAddr(), 2, old(data[..]));
      if stop then s == Stop(outcome) else s == Send(p - l.MacroAddr(), data[..])
  {
    p, stop, outcome := start, false, Ended;
    ghost var b := Buffer(l, eeprom.mem[..]);
    ghost var result := NextDelay(b, start - l.MacroAddr(), 2, data[..]);
    var i := 2;
    while true
      invariant 2 <= i <= 6 && l.MacroAddr() <= p <= l.maxAddr + 1
      invariant NextDelay(b, p - l.MacroAddr(), i, data[..]) == result
      invariant Buffer(l, eeprom.mem[..]) == b
      decreases 6 - i
    {
      if p == l.maxAddr + 1 {
        return p, true, Overrun;
      }
      var byte := eeprom.ReadByte(p);
      data[i] := byte;
      p := p + 1;
      if data[i] == 0 {
        return p, true, Aborted;
      }
      if data[i] == BAR {
        data[i + 1] := 0;
        return p, false, Ended;
      }
      if i == 6 {
        return p, true, Aborted;
      }
      i := i + 1;
    }
  }

  /** Reads one token into the scratch buffer. */
  method ReadToken(eeprom: Device, l: Layout, start: nat, data: array<Byte>)
    returns (p: nat, stop: bool, outcome: Outcome)
    requires l.Valid(eeprom.mem.Length) && eeprom.Valid() && data.Length == 8 && data != eeprom.mem
    requires l.MacroAddr() <= start <= l.maxAddr + 1
    modifies data
    ensures l.MacroAddr() <= p <= l.maxAddr + 1
    ensures var s := Next(Buffer(l, eeprom.mem[..]), start - l.MacroAddr(), old(data[..]));
      if stop then s == Stop(outcome) else s == Send(p - l.MacroAddr(), data[..])
  {
    p, stop, outcome := start, false, Ended;
    if p == l.maxAddr + 1 {
      return p, true, Overrun;
    }
    var byte := eeprom.ReadByte(p);
    data[0] := byte;
    p := p + 1;
    data[1] := 0;
    if data[0] == 0 {
      return p, true, Ended;
    }
    if data[0] == PREFIX {
      p, stop, outcome := ReadCode(eeprom, l, p, data);
    }
  }

  /** The rest of a token that starts with the prefix. */
  method ReadCode(eeprom: Device, l: Layout, start: nat, data: array<Byte>)
    returns (p: nat, stop: bool, outcome: Outcome)
    requires l.Valid(eeprom.mem.Length) && eeprom.Valid() && data.Length == 8 && data != eeprom.mem
    requires l.MacroAddr() <= start <= l.maxAddr + 1
    modifies data
    ensures l.MacroAddr() <= p <= l.maxAddr + 1
    ensures var s := NextCode(Buffer(l, eeprom.mem[..]), start - l.MacroAddr(), old(data[..]));
      if stop then s == Stop(outcome) else s == Send(p - l.MacroAddr(), data[..])
  {
    hide NextDelay, Device.Valid;
    ghost var b, was := Buffer(l, eeprom.mem[..]), data[..];
    p, stop, outcome := start, false, Ended;
    if p == l.maxAddr + 1 {
      return p, true, Overrun;
    }
    var byte := eeprom.ReadByte(p);
    assert byte == b[p - l.MacroAddr()];
    data[1] := byte;
    assert data[..] == was[1 := byte];
    p := p + 1;
    if data[1] == 0 {
      return p, true, Aborted;
    }
    if data[1] == TAP_CODE || data[1] == DOWN_CODE || data[1] == UP_CODE {
      if p == l.maxAddr + 1 {
        return p, true, Overrun;
      }
      byte := eeprom.ReadByte(p);
      assert byte == b[p - l.MacroAddr()];
      data[2] := byte;
      p := p + 1;
      if data[2] == 0 {
        return p, true, Aborted;
      }
      data[3] := 0;
      assert data[..] == was[1 := data[1]][2 := byte][3 := 0];
    } else if data[1] == DELAY_CODE {
      p, stop, outcome := ReadDelay(eeprom, l, p, data);
    }
  }

  lemma MoreSent(a: seq<seq<Byte>>, b: seq<seq<Byte>>, c: seq<seq<Byte>>)
    ensures a + b + c == a + (b + c)
  {
  }

  /** dynamic_keymap_macro_send.  Where the code would read on past the end of the
      buffer, the method stops and reports it. */
  method SendById(eeprom: Device, l: Layout, id: nat) returns (sent: seq<seq<Byte>>, outcome: Outcome)
    requires l.Valid(eeprom.mem.Length) && eeprom.Valid()
    ensures Sent(sent, outcome)
      == if id >= l.macroCount then Sent([], NoSuchId) else SendMacro(Buffer(l, eeprom.mem[..]), id)
  {
    sent := [];
    if id >= l.macroCount {
      return [], NoSuchId;
    }
    ghost var b := Buffer(l, eeprom.mem[..]);
    var p := l.MacroAddr() + l.MacroSize() - 1;
    var last := eeprom.ReadByte(p);
    if last != 0 {
      return [], Incomplete;
    }
    var found;
    found, p := SkipToId(eeprom, l, id);
    if !found {
      return [], NoMacro;
    }
    var data := new Byte[8](_ => 0);
    assert data[..] == EMPTY;
    sent, outcome := SendFrom(eeprom, l, p, data);
  }

  /** Skips `id` zero bytes. */
  method SkipToId(eeprom: Device, l: Layout, id: nat) returns (found: bool, p: nat)
    requires l.Valid(eeprom.mem.Length) && eeprom.Valid()
    ensures l.MacroAddr() <= p <= l.maxAddr + 1
    ensures Skip(Buffer(l, eeprom.mem[..]), 0, id) == if found then At(p - l.MacroAddr()) else Missing
  {
    ghost var b := Buffer(l, eeprom.mem[..]);
    p := l.MacroAddr();
    var end := l.MacroAddr() + l.MacroSize();
    var n := id;
    while n > 0
      invariant l.MacroAddr() <= p <= end
      invariant Skip(b, p - l.MacroAddr(), n) == Skip(b, 0, id)
      decreases end - p
    {
      if p == end {
        return false, p;
      }
      var byte := eeprom.ReadByte(p);
      if byte == 0 {
        n := n - 1;
      }
      p := p + 1;
    }
    found := true;
  }

  /** Sends token after token. */
  method SendFrom(eeprom: Device, l: Layout, start: nat, data: array<Byte>)
    returns (sent: seq<seq<Byte>>, outcome: Outcome)
    requires l.Valid(eeprom.mem.Length) && eeprom.Valid() && data.Length == 8 && data != eeprom.mem
    requires l.MacroAddr() <= start <= l.maxAddr + 1
    modifies data
    ensures Sent(sent, outcome) == Play(Buffer(l, eeprom.mem[..]), start - l.MacroAddr(), old(data[..]))
  {
    ghost var b := Buffer(l, eeprom.mem[..]);
    ghost var result := Play(b, start - l.MacroAddr(), data[..]);
    ghost var low, end := l.MacroAddr(), l.maxAddr + 1;
    sent := [];
    var p := start;
    while true
      invariant low <= p <= end
      invariant Buffer(l, eeprom.mem[..]) == b
      invariant var rest := Play(b, p - low, data[..]);
        Sent(sent + rest.strings, rest.outcome) == result
      decreases end - p
    {
      hide Next, CString, Buffer, l.Valid, l.MacroAddr;
      var stop;
      p, stop, outcome := ReadToken(eeprom, l, p, data);
      if stop {
        return sent, outcome;
      }
      var s := ReadCString(data);
      ghost var rest := Play(b, p - low, data[..]);
      MoreSent(sent, [s], rest.strings);
      sent := sent + [s];
    }
  }
}
