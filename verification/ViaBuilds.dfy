/** One keyboard under several firmware builds (via.c).  The magic number is the build date
    in digits, so the data of one build is trusted by another exactly if both were built on
    the same day of the same year of a century. */
module ViaBuilds {
  import opened ByteData
  import opened Eeprom
  import opened KeymapLayout
  import opened Keymap
  import opened ViaReset

  /** What a digit stands for. */
  function DigitValue(c: char): (v: nat)
    requires Digit(c)
    ensures v < 10
  {
    match c
    case '0' => 0
    case '1' => 1
    case '2' => 2
    case '3' => 3
    case '4' => 4
    case '5' => 5
    case '6' => 6
    case '7' => 7
    case '8' => 8
    case _ => 9
  }

  /** The last two digits of the year, the month and the day of "2019-11-05-11:29:54". */
  function DayDigits(date: string): (d: seq<char>)
    requires BuildDate(date)
    ensures forall c <- d :: Digit(c)
  {
    [date[2], date[3], date[5], date[6], date[8], date[9]]
  }

  predicate SameDay(a: string, b: string)
    requires BuildDate(a) && BuildDate(b)
  {
    DayDigits(a) == DayDigits(b)
  }

  /** The magic number is year, month and day, tens in the high half of each byte. */
  lemma MagicSpellsDay(date: string)
    requires BuildDate(date)
    ensures var d := DayDigits(date);
      && |Magic(date)| == 3
      && forall i :: 0 <= i < 3 ==> Magic(date)[i] == 16 * DigitValue(d[2 * i]) + DigitValue(d[2 * i + 1])
  {
    var d := DayDigits(date);
    PairValue(d[0], d[1]);
    PairValue(d[2], d[3]);
    PairValue(d[4], d[5]);
  }

  lemma PairValue(a: char, b: char)
    requires Digit(a) && Digit(b)
    ensures Packed(a, b) == 16 * DigitValue(a) + DigitValue(b)
  {
    assert '0' as int == 48 && '9' as int == 57;
  }

  /** Two builds have the same magic number if and only if the digits of the day agree. */
  lemma MagicTellsDays(a: string, b: string)
    requires BuildDate(a) && BuildDate(b)
    ensures Magic(a) == Magic(b) <==> SameDay(a, b)
  {
    PairTells(a[2], a[3], b[2], b[3]);
    PairTells(a[5], a[6], b[5], b[6]);
    PairTells(a[8], a[9], b[8], b[9]);
    hide Packed, DigitValue, Digit;
    var m, n := Magic(a), Magic(b);
    assert m == n <==> m[0] == n[0] && m[1] == n[1] && m[2] == n[2];
    var d, e := DayDigits(a), DayDigits(b);
    assert d == e <==> d[0] == e[0] && d[1] == e[1] && d[2] == e[2] && d[3] == e[3] && d[4] == e[4] && d[5] == e[5];
  }

  lemma PairTells(a: char, b: char, c: char, d: char)
    requires Digit(a) && Digit(b) && Digit(c) && Digit(d)
    ensures Packed(a, b) == Packed(c, d) <==> a == c && b == d
  {
    PairValue(a, b);
    PairValue(c, d);
    ValueOf(a); ValueOf(b); ValueOf(c); ValueOf(d);
    hide Packed, DigitValue;
  }

  lemma ValueOf(c: char)
    requires Digit(c)
    ensures c as int == '0' as int + DigitValue(c)
  {
  }

  /** A start on data that another build has completed. */
  lemma StartOverAnother(a: Build, b: Build, m: seq<Byte>)
    requires a.Valid(|m|) && b.Valid(|m|) && a.layout.magicAddr == b.layout.magicAddr
    requires MagicValid(a.layout, a.date, m)
    ensures var m' := StepBytes(b, m, Boot(Completed));
      && MagicValid(b.layout, b.date, m')
      && (m' == m <==> SameDay(a.date, b.date))
      && (!SameDay(a.date, b.date) ==> ContentOf(b.layout, m') == ResetContent(b.layout, b.flash, b.defaults))
  {
    hide StepBytes, ContentOf, ResetContent, Magic, SameDay;
    StartLeavesMagic(b, m);
    MagicTellsDays(a.date, b.date);
    OtherMagicResets(b, m);
  }

  /** A start of the second build after a completed start of the first, whatever happened
      before under the first build.  Data of another day is reset for the second build; data
      of the same day is trusted, whichever build wrote it, and not a byte is written. */
  lemma StartOfAnotherBuild(a: Build, b: Build, mem: seq<Byte>, ops: seq<Op>)
    requires a.Valid(|mem|) && b.Valid(|mem|) && a.layout.magicAddr == b.layout.magicAddr
    ensures var m := RunBytes(a, mem, ops + [Boot(Completed)]);
      var m' := StepBytes(b, m, Boot(Completed));
      && MagicValid(b.layout, b.date, m')
      && (m' == m <==> SameDay(a.date, b.date))
      && (!SameDay(a.date, b.date) ==> ContentOf(b.layout, m') == ResetContent(b.layout, b.flash, b.defaults))
  {
    LastStart(a, mem, ops);
    hide StepBytes, ContentOf, ResetContent, Magic, SameDay, RunBytes;
    StartOverAnother(a, b, RunBytes(a, mem, ops + [Boot(Completed)]));
  }

  lemma LastStart(b: Build, mem: seq<Byte>, ops: seq<Op>)
    requires b.Valid(|mem|)
    ensures MagicValid(b.layout, b.date, RunBytes(b, mem, ops + [Boot(Completed)]))
  {
    assert (ops + [Boot(Completed)])[..|ops|] == ops;
    StartLeavesMagic(b, RunBytes(b, mem, ops));
    hide StepBytes, ContentOf, Magic;
  }

  lemma StartLeavesMagic(b: Build, mem: seq<Byte>)
    requires b.Valid(|mem|)
    ensures MagicValid(b.layout, b.date, StepBytes(b, mem, Boot(Completed)))
  {
    hide ContentOf, ResetContent, Replay, InitWrites, Magic;
    CutRefines(b, mem, Completed);
  }

  lemma OtherMagicResets(b: Build, mem: seq<Byte>)
    requires b.Valid(|mem|)
    ensures var m := StepBytes(b, mem, Boot(Completed));
      if MagicValid(b.layout, b.date, mem) then m == mem
      else ContentOf(b.layout, m) == ResetContent(b.layout, b.flash, b.defaults)
  {
    hide ContentOf, ResetContent, Replay, InitWrites, Magic;
    CutRefines(b, mem, Completed);
  }
}
