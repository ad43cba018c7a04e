/** The two-ended macro recorder (dynamic_macro.h).  Two macros share one buffer
    and grow towards each other, the second one backwards. */
module DynamicMacro {
  import opened TapModel

  datatype MacroKey = RecordStart1 | RecordStart2 | Play1 | Play2 | RecordStop | OrdinaryKey

  // ----- What the recorder is for -----

  /** The recorder without its buffer: the saved macros, or, while one of them is
      being recorded, what was taken so far and the other macro. */
  datatype Mode = Idle(macro1: seq<Record>, macro2: seq<Record>)
                | Recording(slot: nat, taken: seq<Record>, other: seq<Record>)

  /** Keys still held when the recording stops are not part of the macro. */
  function TrimTrailingPresses(s: seq<Record>): (t: seq<Record>)
    ensures t <= s
    ensures t != [] ==> !t[|t| - 1].event.pressed
    ensures forall i :: |t| <= i < |s| ==> s[i].event.pressed
  {
    if s != [] && s[|s| - 1].event.pressed then TrimTrailingPresses(s[..|s| - 1]) else s
  }

  lemma TrimLast(s: seq<Record>, i: nat)
    requires i <= |s|
    ensures i > 0 && s[i - 1].event.pressed ==> TrimTrailingPresses(s[..i]) == TrimTrailingPresses(s[..i - 1])
    ensures i == 0 || !s[i - 1].event.pressed ==> TrimTrailingPresses(s[..i]) == s[..i]
  {
    if i > 0 {
      assert s[..i][i - 1] == s[i - 1] && s[..i][..i - 1] == s[..i - 1];
    }
  }

  /** Releases of keys pressed before the recording are not part of it either. */
  function DropLeadingReleases(s: seq<Record>): (t: seq<Record>)
    ensures t != [] ==> t[0].event.pressed
    ensures |t| <= |s| && s[|s| - |t|..] == t
    ensures forall i :: 0 <= i < |s| - |t| ==> !s[i].event.pressed
  {
    if s == [] || s[0].event.pressed then s
    else
      var t := DropLeadingReleases(s[1..]);
      assert s[|s| - |t|..] == s[1..][|s| - 1 - |t|..];
      assert forall i :: 0 < i < |s| - |t| ==> s[i] == s[1..][i - 1];
      t
  }

  function Take(s: seq<Record>, n: nat): seq<Record> {
    if n < |s| then s[..n] else s
  }

  function Saved(m: Mode): Mode
    requires m.Recording?
  {
    var t := TrimTrailingPresses(m.taken);
    if m.slot == 1 then Idle(t, m.other) else Idle(m.other, t)
  }

  /** One key event: the new mode, what is played back, and whether the event is
      processed further. */
  datatype Reaction = Reaction(mode: Mode, played: seq<Record>, proceed: bool)

  function React(size: nat, m: Mode, key: MacroKey, r: Record): Reaction {
    match m
    case Idle(m1, m2) =>
      if r.event.pressed then Reaction(m, [], true)
      else (
        match key
        case RecordStart1 => Reaction(Recording(1, [], m2), [], false)
        case RecordStart2 => Reaction(Recording(2, [], m1), [], false)
        case Play1 => Reaction(m, m1, false)
        case Play2 => Reaction(m, m2, false)
        case _ => Reaction(m, [], true))
    case Recording(slot, taken, other) =>
      match key
      case RecordStop => Reaction(if r.event.pressed then Saved(m) else m, [], false)
      case Play1 => Reaction(m, [], false)
      case Play2 => Reaction(m, [], false)
      case _ =>
        if (!r.event.pressed && taken == []) || |taken| + |other| >= size then Reaction(m, [], true)
        else Reaction(m.(taken := taken + [r]), [], true)
  }

  datatype KeyPress = KeyPress(key: MacroKey, rec: Record)

  /** Everything that happens between the start and the stop of a recording. */
  function During(size: nat, m: Mode, evs: seq<KeyPress>): Mode {
    if evs == [] then m
    else
      var n := |evs| - 1;
      React(size, During(size, m, evs[..n]), evs[n].key, evs[n].rec).mode
  }

  predicate NoStop(evs: seq<KeyPress>) {
    forall i :: 0 <= i < |evs| ==> !(evs[i].key.RecordStop? && evs[i].rec.event.pressed)
  }

  /** The events that are recorded: all but the playback and stop keys. */
  function Recorded(evs: seq<KeyPress>): seq<Record> {
    if evs == [] then []
    else
      var n := |evs| - 1;
      Recorded(evs[..n])
      + if evs[n].key.RecordStop? || evs[n].key.Play1? || evs[n].key.Play2? then [] else [evs[n].rec]
  }

  lemma {:induction false} DropAppend(s: seq<Record>, r: Record)
    ensures DropLeadingReleases(s + [r])
      == if DropLeadingReleases(s) == [] && !r.event.pressed then [] else DropLeadingReleases(s) + [r]
  {
    if s == [] {
      assert [] + [r] == [r] && [r][1..] == [];
    } else if !s[0].event.pressed {
      assert (s + [r])[1..] == s[1..] + [r];
      DropAppend(s[1..], r);
    }
  }

  /** While recording, what was taken is the beginning, as far as there is room, of
      the recorded events without their leading releases; the other macro stays. */
  lemma {:induction false} TakenSoFar(size: nat, slot: nat, other: seq<Record>, evs: seq<KeyPress>)
    requires NoStop(evs) && |other| <= size
    ensures During(size, Recording(slot, [], other), evs)
         == Recording(slot, Take(DropLeadingReleases(Recorded(evs)), size - |other|), other)
  {
    if evs != [] {
      var n := |evs| - 1;
      TakenSoFar(size, slot, other, evs[..n]);
      var d := DropLeadingReleases(Recorded(evs[..n]));
      hide DropLeadingReleases, Take, TrimTrailingPresses;
      if evs[n].key.RecordStop? || evs[n].key.Play1? || evs[n].key.Play2? {
        assert Recorded(evs) == Recorded(evs[..n]);
      } else {
        DropAppend(Recorded(evs[..n]), evs[n].rec);
        TakeOne(size, slot, other, d, evs[n].key, evs[n].rec);
      }
    }
  }

  function Extended(d: seq<Record>, r: Record): seq<Record> {
    if d == [] && !r.event.pressed then [] else d + [r]
  }

  lemma TakeOne(size: nat, slot: nat, other: seq<Record>, d: seq<Record>, key: MacroKey, r: Record)
    requires |other| <= size && !key.RecordStop? && !key.Play1? && !key.Play2?
    ensures React(size, Recording(slot, Take(d, size - |other|), other), key, r).mode
         == Recording(slot, Take(Extended(d, r), size - |other|), other)
  {
    var cap := size - |other|;
    if |d| < cap {
      assert Take(d + [r], cap) == d + [r];
    } else {
      assert Take(d + [r], cap) == Take(d, cap);
    }
  }

  /** A whole session of recording: start, record, stop. */
  lemma Session(size: nat, m1: seq<Record>, m2: seq<Record>, first: bool, start: Record, evs: seq<KeyPress>,
      stop: Record)
    requires |m1| + |m2| <= size && NoStop(evs)
    requires !start.event.pressed && stop.event.pressed
    ensures var begun := React(size, Idle(m1, m2), if first then RecordStart1 else RecordStart2, start).mode;
      var done := React(size, During(size, begun, evs), RecordStop, stop).mode;
      var other := if first then m2 else m1;
      var saved := TrimTrailingPresses(Take(DropLeadingReleases(Recorded(evs)), size - |other|));
      done == if first then Idle(saved, m2) else Idle(m1, saved)
  {
    hide Recorded, DropLeadingReleases, During, Take, TrimTrailingPresses, NoStop;
    if first {
      TakenSoFar(size, 1, m2, evs);
      assert React(size, Idle(m1, m2), RecordStart1, start).mode == Recording(1, [], m2);
    } else {
      TakenSoFar(size, 2, m1, evs);
      assert React(size, Idle(m1, m2), RecordStart2, start).mode == Recording(2, [], m1);
    }
  }

  /** What a session recorded is what its playback key emits, and playing changes
      nothing; the other key still plays the other macro. */
  lemma RecordThenPlay(size: nat, m1: seq<Record>, m2: seq<Record>, first: bool, start: Record, evs: seq<KeyPress>,
                       stop: Record, play: Record)
    requires |m1| + |m2| <= size && NoStop(evs)
    requires !start.event.pressed && stop.event.pressed && !play.event.pressed
    ensures var begun := React(size, Idle(m1, m2), if first then RecordStart1 else RecordStart2, start).mode;
      var done := React(size, During(size, begun, evs), RecordStop, stop).mode;
      var other := if first then m2 else m1;
      var saved := TrimTrailingPresses(Take(DropLeadingReleases(Recorded(evs)), size - |other|));
      && React(size, done, if first then Play1 else Play2, play) == Reaction(done, saved, false)
      && React(size, done, if first then Play2 else Play1, play) == Reaction(done, other, false)
  {
    hide Recorded, DropLeadingReleases, During, Take, TrimTrailingPresses, NoStop;
    Session(size, m1, m2, first, start, evs, stop);
  }

  // ----- What is passed on, played and switched -----

  predicate PlaysKey(key: MacroKey) {
    key.Play1? || key.Play2?
  }

  predicate StartsKey(key: MacroKey) {
    key.RecordStart1? || key.RecordStart2?
  }

  /** The recorder keeps an event to itself: a stop or playback key while it records, the
      release of a start or playback key while it does not. */
  predicate KeptBack(recording: bool, e: KeyPress) {
    if recording then e.key.RecordStop? || PlaysKey(e.key)
    else !e.rec.event.pressed && (StartsKey(e.key) || PlaysKey(e.key))
  }

  /** The macro that a playback key stands for. */
  function MacroOf(m: Mode, key: MacroKey): seq<Record>
    requires m.Idle?
  {
    if key.Play1? then m.macro1 else if key.Play2? then m.macro2 else []
  }

  /** Everything about one event: an event goes on exactly when it is not kept back;
      a macro is played exactly on the release of its key while nothing is recorded; and a
      recording begins and ends only with the release of a start key and the press of stop. */
  lemma ReactionIs(size: nat, m: Mode, e: KeyPress)
    ensures var r := React(size, m, e.key, e.rec);
      && (r.proceed <==> !KeptBack(m.Recording?, e))
      && (r.played != [] <==> m.Idle? && !e.rec.event.pressed && PlaysKey(e.key) && MacroOf(m, e.key) != [])
      && (r.played != [] ==> r.played == MacroOf(m, e.key))
      && (m.Idle? ==> (r.mode.Recording? <==> !e.rec.event.pressed && StartsKey(e.key)))
      && (m.Idle? && r.mode.Idle? ==> r.mode == m)
      && (m.Idle? && r.mode.Recording? ==>
            && r.mode.taken == [] && r.mode.slot == (if e.key.RecordStart1? then 1 else 2)
            && r.mode.other == if e.key.RecordStart1? then m.macro2 else m.macro1)
      && (m.Recording? ==> (r.mode.Idle? <==> e.rec.event.pressed && e.key.RecordStop?))
      && (m.Recording? && (e.key.RecordStop? || PlaysKey(e.key)) ==> r.mode == m || r.mode.Idle?)
  {
  }

  /** Is a macro being recorded after these events?  Told from the events alone. */
  predicate RecordingAfter(evs: seq<KeyPress>) {
    && evs != []
    && var e := evs[|evs| - 1];
       if RecordingAfter(evs[..|evs| - 1]) then !(e.key.RecordStop? && e.rec.event.pressed)
       else StartsKey(e.key) && !e.rec.event.pressed
  }

  /** The events that are processed further, the records that are played back, and the
      mode, over a run of the recorder. */
  datatype History = History(mode: Mode, passed: seq<KeyPress>, played: seq<Record>)

  function Over(size: nat, m: Mode, evs: seq<KeyPress>): History {
    if evs == [] then History(m, [], [])
    else
      var n := |evs| - 1;
      var h := Over(size, m, evs[..n]);
      var r := React(size, h.mode, evs[n].key, evs[n].rec);
      History(r.mode, if r.proceed then h.passed + [evs[n]] else h.passed, h.played + r.played)
  }

  /** The events without those that the recorder keeps to itself. */
  function WithoutKept(evs: seq<KeyPress>): seq<KeyPress> {
    if evs == [] then []
    else
      var n := |evs| - 1;
      WithoutKept(evs[..n]) + if KeptBack(RecordingAfter(evs[..n]), evs[n]) then [] else [evs[n]]
  }

  /** What the releases of playback keys outside recordings call for. */
  function CalledFor(size: nat, m: Mode, evs: seq<KeyPress>): seq<Record> {
    if evs == [] then []
    else
      var n := |evs| - 1;
      var e, before := evs[n], Over(size, m, evs[..n]).mode;
      CalledFor(size, m, evs[..n])
      + if !RecordingAfter(evs[..n]) && !e.rec.event.pressed && before.Idle? then MacroOf(before, e.key) else []
  }

  /** Over any run of an idle recorder the events passed on are exactly the offered ones
      without those it keeps to itself, and the records played are those called for. */
  lemma {:induction false} RunPasses(size: nat, m: Mode, evs: seq<KeyPress>)
    requires m.Idle?
    ensures var h := Over(size, m, evs);
      && (h.mode.Recording? <==> RecordingAfter(evs))
      && h.passed == WithoutKept(evs) && h.played == CalledFor(size, m, evs)
  {
    if evs != [] {
      var n := |evs| - 1;
      RunPasses(size, m, evs[..n]);
      ReactionIs(size, Over(size, m, evs[..n]).mode, evs[n]);
      hide React;
    }
  }

  // ----- The buffer -----

  /** `n` elements from `begin` on, upwards or downwards. */
  function Strip(s: seq<Record>, begin: int, direction: int, n: nat): (t: seq<Record>)
    requires direction == 1 || direction == -1
    requires n > 0 ==> 0 <= begin < |s| && 0 <= begin + direction * (n - 1) < |s|
    ensures |t| == n
    ensures forall i :: 0 <= i < n ==> t[i] == s[begin + direction * i]
  {
    seq(n, i requires 0 <= i < n => s[begin + direction * i])
  }

  /** A trimmed strip is a shorter one. */
  lemma Trimmed(s: seq<Record>, begin: int, direction: int, n: nat)
    requires direction == 1 || direction == -1
    requires n > 0 ==> 0 <= begin < |s| && 0 <= begin + direction * (n - 1) < |s|
    ensures var t := TrimTrailingPresses(Strip(s, begin, direction, n));
      && |t| <= n && (|t| > 0 ==> 0 <= begin + direction * (|t| - 1) < |s|)
      && Strip(s, begin, direction, |t|) == t
  {
  }

  /** The two macros and the recorder's state in static variables; pointers into
      the buffer are positions. */
  class Recorder {
    const buffer: array<Record>
    var macroEnd: int
    var rMacroEnd: int
    var macroPointer: int
    var macroId: nat
    var played: seq<Record>

    /** The macros do not overlap, and a recording stays clear of the other macro. */
    predicate Valid()
      reads this
    {
      && buffer.Length > 0
      && 0 <= macroEnd && rMacroEnd < buffer.Length && macroEnd <= rMacroEnd + 1
      && macroId <= 2
      && (macroId == 1 ==> 0 <= macroPointer <= rMacroEnd + 1)
      && (macroId == 2 ==> macroEnd - 1 <= macroPointer < buffer.Length)
    }

    ghost function Macro1(): seq<Record>
      requires Valid()
      reads this, buffer
    {
      Strip(buffer[..], 0, 1, macroEnd)
    }

    ghost function Macro2(): seq<Record>
      requires Valid()
      reads this, buffer
    {
      Strip(buffer[..], buffer.Length - 1, -1, buffer.Length - 1 - rMacroEnd)
    }

    ghost function Abstract(): (m: Mode)
      requires Valid()
      reads this, buffer
    {
      if macroId == 1 then Recording(1, Strip(buffer[..], 0, 1, macroPointer), Macro2())
      else if macroId == 2 then
        Recording(2, Strip(buffer[..], buffer.Length - 1, -1, buffer.Length - 1 - macroPointer), Macro1())
      else Idle(Macro1(), Macro2())
    }

    constructor (size: nat)
      requires size > 0
      ensures Valid() && fresh(buffer) && buffer.Length == size
      ensures Abstract() == Idle([], []) && played == []
    {
      buffer := new Record[size](_ => NO_RECORD);
      macroEnd, rMacroEnd := 0, size - 1;
      macroPointer, macroId := 0, 0;
      played := [];
    }

    /** dynamic_macro_play */
    method Play(macroBuffer: int, macroEnd: int, direction: int, ghost n: nat)
      requires direction == 1 || direction == -1
      requires macroEnd == macroBuffer + direction * n
      requires n > 0 ==> 0 <= macroBuffer < buffer.Length && 0 <= macroBuffer + direction * (n - 1) < buffer.Length
      modifies this`played
      ensures played == old(played) + Strip(buffer[..], macroBuffer, direction, n)
    {
      var p := macroBuffer;
      ghost var i := 0;
      ghost var all := Strip(buffer[..], macroBuffer, direction, n);
      while p != macroEnd
        invariant 0 <= i <= n && p == macroBuffer + direction * i
        invariant played == old(played) + all[..i]
        decreases n - i
      {
        assert all[..i + 1] == all[..i] + [buffer[p]];
        played := played + [buffer[p]];
        p := p + direction;
        i := i + 1;
      }
      assert all[..i] == all;
    }

    /** dynamic_macro_record_key */
    method RecordKey(macroBuffer: int, pointer: int, macro2End: int, direction: int, r: Record) returns (pointer': int)
      requires direction == 1 || direction == -1
      requires pointer - direction != macro2End ==> 0 <= pointer < buffer.Length
      modifies buffer
      ensures var full := pointer - direction == macro2End;
        if (!r.event.pressed && pointer == macroBuffer) || full then
          pointer' == pointer && buffer[..] == old(buffer[..])
        else
          pointer' == pointer + direction && buffer[..] == old(buffer[..])[pointer := r]
    {
      if !r.event.pressed && pointer == macroBuffer {
        return pointer;
      }
      if pointer - direction != macro2End {
        buffer[pointer] := r;
        return pointer + direction;
      }
      return pointer;
    }

    /** dynamic_macro_record_end */
    method RecordEnd(macroBuffer: int, pointer: int, direction: int, ghost n: nat) returns (end: int)
      requires direction == 1 || direction == -1
      requires pointer == macroBuffer + direction * n
      requires n > 0 ==> 0 <= macroBuffer < buffer.Length && 0 <= macroBuffer + direction * (n - 1) < buffer.Length
      ensures var saved := TrimTrailingPresses(Strip(buffer[..], macroBuffer, direction, n));
        end == macroBuffer + direction * |saved|
    {
      hide TrimTrailingPresses, Strip;
      end := pointer;
      ghost var taken := Strip(buffer[..], macroBuffer, direction, n);
      ghost var i := n;
      assert taken[..n] == taken;
      while end != macroBuffer && buffer[end - direction].event.pressed
        invariant 0 <= i <= n && end == macroBuffer + direction * i
        invariant TrimTrailingPresses(taken[..i]) == TrimTrailingPresses(taken)
        decreases i
      {
        TrimLast(taken, i);
        end := end - direction;
        i := i - 1;
      }
      TrimLast(taken, i);
    }

    /** process_record_dynamic_macro */
    method ProcessRecord(key: MacroKey, r: Record) returns (proceed: bool)
      requires Valid()
      modifies this, buffer
      ensures Valid()
      ensures var reaction := React(buffer.Length, old(Abstract()), key, r);
        && Abstract() == reaction.mode
        && played == old(played) + reaction.played
        && proceed == reaction.proceed
    {
      var rMacroBuffer := buffer.Length - 1;
      if macroId == 0 {
        if !r.event.pressed {
          match key {
            case RecordStart1 =>
              macroPointer := 0;
              macroId := 1;
              return false;
            case RecordStart2 =>
              macroPointer := rMacroBuffer;
              macroId := 2;
              return false;
            case Play1 =>
              Play(0, macroEnd, 1, macroEnd);
              return false;
            case Play2 =>
              Play(rMacroBuffer, rMacroEnd, -1, rMacroBuffer - rMacroEnd);
              return false;
            case _ =>
          }
        }
      } else {
        match key {
          case RecordStop =>
            if r.event.pressed {
              Stop();
            }
            return false;
          case Play1 =>
            return false;
          case Play2 =>
            return false;
          case _ =>
            RecordRecord(r);
            return true;
        }
      }
      return true;
    }

    /** The stop key saves the recorded macro. */
    method Stop()
      requires Valid() && macroId != 0
      modifies this`macroEnd, this`rMacroEnd, this`macroId
      ensures Valid() && Abstract() == Saved(old(Abstract()))
    {
      hide TrimTrailingPresses, Strip;
      var rMacroBuffer := buffer.Length - 1;
      if macroId == 1 {
        macroEnd := RecordEnd(0, macroPointer, 1, macroPointer);
        Trimmed(buffer[..], 0, 1, macroPointer);
      } else {
        rMacroEnd := RecordEnd(rMacroBuffer, macroPointer, -1, rMacroBuffer - macroPointer);
        Trimmed(buffer[..], rMacroBuffer, -1, rMacroBuffer - macroPointer);
      }
      macroId := 0;
    }

    /** Any other key is recorded. */
    method RecordRecord(r: Record)
      requires Valid() && macroId != 0
      modifies this`macroPointer, buffer
      ensures Valid() && Abstract() == React(buffer.Length, old(Abstract()), OrdinaryKey, r).mode
    {
      var rMacroBuffer := buffer.Length - 1;
      if macroId == 1 {
        macroPointer := RecordKey(0, macroPointer, rMacroEnd, 1, r);
      } else {
        macroPointer := RecordKey(rMacroBuffer, macroPointer, macroEnd, -1, r);
      }
    }
  }
}
