/** Intel HEX files as lists of records: what the records of a file say about memory, and
    that the converter from its lines to an image says the same.  Record types 00, 01, 02
    and 04 of the Intel Hexadecimal Object File Format Specification. */
module HexFiles {
  import opened ByteData
  import opened Uf2Block
  import opened Uf2
  import opened IntelHex

  type Word = n: nat | n < 0x1_0000

  /** One line of a file.  A linear or segment record says where the offsets of the data
      records behind it count from; `Other` is a record of any other type; a remark is a
      line that is no record. */
  datatype Entry =
    | Data(offset: Word, bytes: seq<Byte>)
    | Linear(upper: Word)
    | Segment(base: Word)
    | End
    | Other(kind: Byte, content: seq<Byte>)
    | Remark(text: string)
  {
    predicate Valid() {
      && (Data? ==> |bytes| < 256)
      && (Other? ==> kind !in {0, 1, 2, 4} && |content| < 256)
      && (Remark? ==> text != [] && text[0] != ':')
    }
  }

  // ----- What a file says -----

  /** The address from which the offset of the `i`-th record counts: what the last linear
      or segment record before it says, or 0. */
  function Origin(file: seq<Entry>, i: nat): nat
    requires i <= |file|
  {
    if i == 0 then 0
    else if file[i - 1].Linear? then 65536 * file[i - 1].upper
    else if file[i - 1].Segment? then 16 * file[i - 1].base
    else Origin(file, i - 1)
  }

  /** No end record stands before the `i`-th record. */
  predicate Counts(file: seq<Entry>, i: nat)
    requires i <= |file|
  {
    forall j :: 0 <= j < i ==> !file[j].End?
  }

  /** The `k`-th byte of the `i`-th record is data for address `x`. */
  predicate DataFor(file: seq<Entry>, i: int, k: int, x: int) {
    && 0 <= i < |file| && file[i].Data? && Counts(file, i) && 0 <= k < |file[i].bytes|
    && x == Origin(file, i) + file[i].offset + k
  }

  /** What the file says about an address: the byte of the last record with data for it, or
      zero when there is none. */
  ghost predicate Says(file: seq<Entry>, x: int, b: Byte) {
    if exists i, k :: DataFor(file, i, k, x) then
      exists i, k :: DataFor(file, i, k, x) && file[i].bytes[k] == b
        && forall j, m :: i < j ==> !DataFor(file, j, m, x)
    else b == 0
  }

  /** Where the first data record puts its first byte. */
  predicate StartsAt(file: seq<Entry>, start: Option<int>) {
    match start
    case None => forall i :: 0 <= i < |file| && Counts(file, i) ==> !file[i].Data?
    case Some(x) =>
      exists i :: 0 <= i < |file| && Counts(file, i) && file[i].Data?
        && x == Origin(file, i) + file[i].offset && forall j :: 0 <= j < i ==> !file[j].Data?
  }

  // ----- Lines -----

  /** The bytes of a record, with any check byte at the end. */
  function RecordOf(e: Entry, check: Byte): (rec: seq<Byte>)
    requires e.Valid() && !e.Remark?
  {
    match e
    case Data(offset, bytes) => [|bytes|, offset / 256, offset % 256, 0] + bytes + [check]
    case Linear(upper) => [2, 0, 0, 4, upper / 256, upper % 256, check]
    case Segment(base) => [2, 0, 0, 2, base / 256, base % 256, check]
    case End => [0, 0, 0, 1, check]
    case Other(kind, content) => [|content|, 0, 0, kind] + content + [check]
  }

  /** A record is printed with either line end. */
  predicate LineOf(line: string, e: Entry, check: Byte) {
    && e.Valid()
    && if e.Remark? then line == e.text
       else line == Printed(RecordOf(e, check)) || line == Printed(RecordOf(e, check)) + "\r"
  }

  /** The lines of a file, with a check byte for each; behind an end record there may be
      any lines. */
  predicate LinesOf(lines: seq<string>, file: seq<Entry>, checks: seq<Byte>) {
    && |file| == |checks| <= |lines|
    && (forall i :: 0 <= i < |file| ==> LineOf(lines[i], file[i], checks[i]))
    && (|file| < |lines| ==> !Counts(file, |file|))
  }

  // ----- One line -----

  lemma WordBack(w: Word)
    ensures BigEndian([w / 256, w % 256]) == w
  {
    var s := [w / 256, w % 256];
    assert s[..1] == [w / 256] && s[..1][..0] == [];
    assert BigEndian(s[..1]) == w / 256;
  }

  lemma LineReads(h: Hex, line: string, e: Entry, check: Byte)
    requires LineOf(line, e, check) && !h.ended
    ensures LineStep(h, line) == if e.Remark? then Ok(h) else RecordStep(h, RecordOf(e, check))
  {
    if !e.Remark? {
      var rec := RecordOf(e, check);
      ParsePrinted(rec, "");
      ParsePrinted(rec, "\r");
      assert Printed(rec) + "" == Printed(rec);
      PrintedColon(rec);
      hide RecordOf, RecordStep, Printed, Pairs, PairsEnd;
      assert line != [] && line[0] == ':';
    }
  }

  lemma {:induction false} PrintedColon(rec: seq<Byte>)
    ensures Printed(rec) != [] && Printed(rec)[0] == ':'
  {
    if rec != [] {
      PrintedColon(rec[..|rec| - 1]);
    }
  }

  /** Bytes at consecutive addresses. */
  function BytesAt(addr: nat, bytes: seq<Byte>): (ws: seq<Write>)
    ensures |ws| == |bytes| && forall k :: 0 <= k < |bytes| ==> ws[k] == Write(addr + k, bytes[k])
  {
    seq(|bytes|, k requires 0 <= k < |bytes| => Write(addr + k, bytes[k]))
  }

  lemma {:induction false} DataOfRecord(rec: seq<Byte>, addr: nat, bytes: seq<Byte>, n: nat)
    requires n <= |bytes| && |rec| == |bytes| + 5 && rec[4..4 + |bytes|] == bytes
    ensures DataWrites(rec, addr, 4 + n) == BytesAt(addr, bytes[..n])
  {
    if n > 0 {
      DataOfRecord(rec, addr, bytes, n - 1);
      assert rec[3 + n] == rec[4..4 + |bytes|][n - 1] == bytes[n - 1];
      assert bytes[..n][..n - 1] == bytes[..n - 1];
      assert BytesAt(addr, bytes[..n]) == BytesAt(addr, bytes[..n - 1]) + [Write(addr + n - 1, bytes[n - 1])];
    }
  }

  /** What each record does. */
  lemma RecordReads(h: Hex, e: Entry, check: Byte)
    requires e.Valid() && !e.Remark?
    ensures RecordStep(h, RecordOf(e, check))
         == match e
            case Data(offset, bytes) =>
              var addr := h.upper + offset;
              var start := if h.start == None then Some(addr) else h.start;
              Ok(Hex(h.upper, h.writes + BytesAt(addr, bytes), start, h.ended))
            case Linear(upper) => Ok(h.(upper := 65536 * upper))
            case Segment(base) => Ok(h.(upper := 16 * base))
            case End => Ok(h.(ended := true))
            case Other(_, _) => Ok(h)
  {
    hide BigEndian, DataWrites, BytesAt;
    match e {
      case Data(offset, bytes) =>
        WordBack(offset);
        var rec := RecordOf(e, check);
        assert rec[4..4 + |bytes|] == bytes && bytes[..|bytes|] == bytes;
        DataOfRecord(rec, h.upper + offset, bytes, |bytes|);
      case Linear(upper) => WordBack(upper);
      case Segment(base) => WordBack(base);
      case _ =>
    }
  }

  // ----- The whole file -----

  /** The bytes that the first `n` records set, in order. */
  function Described(file: seq<Entry>, n: nat): seq<Write>
    requires n <= |file|
  {
    if n == 0 then []
    else
      var e := file[n - 1];
      Described(file, n - 1) + if e.Data? then BytesAt(Origin(file, n - 1) + e.offset, e.bytes) else []
  }

  function Start(file: seq<Entry>, n: nat): Option<int>
    requires n <= |file|
  {
    if n == 0 then None
    else if Start(file, n - 1) != None then Start(file, n - 1)
    else if file[n - 1].Data? then Some(Origin(file, n - 1) + file[n - 1].offset)
    else None
  }

  /** The variables of the converter after `n` lines. */
  function HexAt(file: seq<Entry>, n: nat): Hex
    requires n <= |file|
  {
    Hex(Origin(file, n), Described(file, n), Start(file, n), false)
  }

  lemma HexNext(file: seq<Entry>, n: nat)
    requires n < |file|
    ensures var h := HexAt(file, n);
      HexAt(file, n + 1)
      == match file[n]
         case Data(offset, bytes) =>
           var addr := h.upper + offset;
           Hex(h.upper, h.writes + BytesAt(addr, bytes), if h.start == None then Some(addr) else h.start, false)
         case Linear(upper) => h.(upper := 65536 * upper)
         case Segment(base) => h.(upper := 16 * base)
         case _ => h
  {
    hide BytesAt;
    assert Described(file, n) + [] == Described(file, n);
  }

  lemma StillReading(file: seq<Entry>, n: nat, line: string, check: Byte)
    requires n < |file| && LineOf(line, file[n], check)
    ensures !HexAt(file, n).ended && file[n].Valid()
  {
    hide RecordOf, Printed, Origin, Described, Start;
  }

  lemma NextReads(file: seq<Entry>, n: nat, line: string, check: Byte)
    requires n < |file| && LineOf(line, file[n], check) && !file[n].End?
    ensures LineStep(HexAt(file, n), line) == Ok(HexAt(file, n + 1))
  {
    hide *;
    StillReading(file, n, line, check);
    HexNext(file, n);
    LineReads(HexAt(file, n), line, file[n], check);
    if !file[n].Remark? {
      RecordReads(HexAt(file, n), file[n], check);
    }
  }

  lemma LineAt(lines: seq<string>, file: seq<Entry>, checks: seq<Byte>, n: nat)
    requires LinesOf(lines, file, checks) && 0 < n <= |file| && Counts(file, n)
    ensures n <= |lines| && |checks| == |file| && LineOf(lines[n - 1], file[n - 1], checks[n - 1])
    ensures !file[n - 1].End? && Counts(file, n - 1)
  {
    hide LineOf;
  }

  lemma {:induction false} ReadsBefore(lines: seq<string>, file: seq<Entry>, checks: seq<Byte>, n: nat)
    requires LinesOf(lines, file, checks) && n <= |file| && Counts(file, n)
    ensures |file| <= |lines| && ReadLines(lines, n) == Ok(HexAt(file, n))
  {
    if n > 0 {
      LineAt(lines, file, checks, n);
      hide HexAt, LineStep, LineOf, Counts, LinesOf;
      ReadsBefore(lines, file, checks, n - 1);
      NextReads(file, n - 1, lines[n - 1], checks[n - 1]);
    }
  }

  /** Where the file ends: at its first end record, or behind its last line. */
  function EndOf(file: seq<Entry>): (n: nat)
    ensures n <= |file| && Counts(file, n) && (n < |file| ==> file[n].End?)
  {
    EndFrom(file, 0)
  }

  function EndFrom(file: seq<Entry>, i: nat): (n: nat)
    requires i <= |file| && Counts(file, i)
    ensures i <= n <= |file| && Counts(file, n) && (n < |file| ==> file[n].End?)
    decreases |file| - i
  {
    if i == |file| || file[i].End? then i else EndFrom(file, i + 1)
  }

  /** The lines of a file are read without an error. */
  lemma ReadsFile(lines: seq<string>, file: seq<Entry>, checks: seq<Byte>)
    requires LinesOf(lines, file, checks)
    ensures var r, n := ReadLines(lines, |lines|), EndOf(file);
      r.Ok? && r.value.writes == Described(file, n) && r.value.start == Start(file, n)
  {
    hide ReadLines, Described, Start, Origin, LineOf, EndOf;
    var n := EndOf(file);
    ReadsBefore(lines, file, checks, n);
    if n < |file| {
      EndReads(lines, file, checks, n);
      RestSkipped(lines, n + 1);
    }
  }

  lemma RestSkipped(lines: seq<string>, n: nat)
    requires n <= |lines| && ReadLines(lines, n).Ok? && ReadLines(lines, n).value.ended
    ensures ReadLines(lines, |lines|) == ReadLines(lines, n)
  {
    hide *;
    ReadRest(lines, n, |lines|);
  }

  lemma EndReads(lines: seq<string>, file: seq<Entry>, checks: seq<Byte>, n: nat)
    requires LinesOf(lines, file, checks) && n < |file| && file[n].End?
    requires ReadLines(lines, n) == Ok(HexAt(file, n))
    ensures var r := ReadLines(lines, n + 1);
      r.Ok? && r.value.ended && r.value.writes == Described(file, n) && r.value.start == Start(file, n)
  {
    var h := HexAt(file, n);
    assert LineOf(lines[n], file[n], checks[n]);
    LineReads(h, lines[n], file[n], checks[n]);
    RecordReads(h, file[n], checks[n]);
    hide LineStep, RecordStep, RecordOf, LineOf, Described, Start, Origin;
  }

  // ----- What is read is what the file says -----

  lemma {:induction false} MemoryBehind(ws: seq<Write>, addr: nat, bytes: seq<Byte>, x: int)
    ensures Memory(ws + BytesAt(addr, bytes), x)
         == if addr <= x < addr + |bytes| then bytes[x - addr] else Memory(ws, x)
  {
    if bytes == [] {
      assert ws + BytesAt(addr, bytes) == ws;
    } else {
      var n := |bytes| - 1;
      var w := Write(addr + n, bytes[n]);
      assert ws + BytesAt(addr, bytes) == (ws + BytesAt(addr, bytes[..n])) + [w];
      MemoryBehind(ws, addr, bytes[..n], x);
      hide Memory, BytesAt;
      MemoryAfter(ws + BytesAt(addr, bytes[..n]), w, x);
    }
  }

  /** The same for the first `n` records. */
  ghost predicate SaysBefore(file: seq<Entry>, n: nat, x: int, b: Byte) {
    if exists i, k :: i < n && DataFor(file, i, k, x) then
      exists i, k :: i < n && DataFor(file, i, k, x) && file[i].bytes[k] == b
        && forall j, m :: i < j < n ==> !DataFor(file, j, m, x)
    else b == 0
  }

  lemma {:induction false} DescribedSays(file: seq<Entry>, n: nat, x: int)
    requires n <= |file| && Counts(file, n)
    ensures SaysBefore(file, n, x, Memory(Described(file, n), x))
  {
    hide Memory, SaysBefore, Described, Origin, DataFor;
    if n == 0 {
      NothingSaid(file, x);
    } else {
      DescribedSays(file, n - 1, x);
      NextSays(file, n - 1, x);
    }
  }

  lemma NothingSaid(file: seq<Entry>, x: int)
    ensures SaysBefore(file, 0, x, Memory(Described(file, 0), x))
  {
    hide Origin;
  }

  /** Does the record have data for an address? */
  predicate Covers(file: seq<Entry>, n: nat, x: int)
    requires n < |file|
  {
    file[n].Data? && 0 <= x - Origin(file, n) - file[n].offset < |file[n].bytes|
  }

  lemma CoversIf(file: seq<Entry>, n: nat, x: int)
    requires n < |file| && Counts(file, n)
    ensures Covers(file, n, x) ==> DataFor(file, n, x - Origin(file, n) - file[n].offset, x)
    ensures !Covers(file, n, x) ==> forall k :: !DataFor(file, n, k, x)
  {
    hide Origin;
  }

  lemma DescribedNext(file: seq<Entry>, n: nat, x: int)
    requires n < |file|
    ensures Memory(Described(file, n + 1), x)
         == if Covers(file, n, x) then file[n].bytes[x - Origin(file, n) - file[n].offset]
            else Memory(Described(file, n), x)
  {
    var e, ws := file[n], Described(file, n);
    assert ws + [] == ws;
    hide Memory, BytesAt, Origin;
    if e.Data? {
      MemoryBehind(ws, Origin(file, n) + e.offset, e.bytes, x);
    }
  }

  lemma NextSays(file: seq<Entry>, n: nat, x: int)
    requires n < |file| && Counts(file, n) && SaysBefore(file, n, x, Memory(Described(file, n), x))
    ensures SaysBefore(file, n + 1, x, Memory(Described(file, n + 1), x))
  {
    hide Memory, SaysBefore, Described, Origin, Counts, DataFor;
    DescribedNext(file, n, x);
    CoversIf(file, n, x);
    if Covers(file, n, x) {
      SaysNow(file, n, x - Origin(file, n) - file[n].offset, x);
    } else {
      SaysSame(file, n, x, Memory(Described(file, n), x));
    }
  }

  lemma SaysNow(file: seq<Entry>, n: nat, k: nat, x: int)
    requires DataFor(file, n, k, x)
    ensures SaysBefore(file, n + 1, x, file[n].bytes[k])
  {
    hide Origin;
  }

  lemma SaysSame(file: seq<Entry>, n: nat, x: int, b: Byte)
    requires n < |file| && SaysBefore(file, n, x, b)
    requires forall k :: !DataFor(file, n, k, x)
    ensures SaysBefore(file, n + 1, x, b)
  {
    hide DataFor;
    assert forall i, k :: DataFor(file, i, k, x) ==> i != n;
  }

  lemma SaysAll(file: seq<Entry>, x: int, b: Byte)
    requires SaysBefore(file, EndOf(file), x, b)
    ensures Says(file, x, b)
  {
    forall i, k | DataFor(file, i, k, x)
      ensures i < EndOf(file)
    {
      DataBeforeEnd(file, i);
    }
    hide DataFor, EndOf;
  }

  lemma DataBeforeEnd(file: seq<Entry>, i: nat)
    requires i < |file| && Counts(file, i) && file[i].Data?
    ensures i < EndOf(file)
  {
    var n := EndOf(file);
    assert n < |file| ==> file[n].End?;
  }

  lemma {:induction false} StartOfFile(file: seq<Entry>, n: nat)
    requires n <= |file| && Counts(file, n)
    ensures match Start(file, n)
      case None => forall i :: 0 <= i < n ==> !file[i].Data?
      case Some(x) =>
        exists i :: 0 <= i < n && file[i].Data? && x == Origin(file, i) + file[i].offset
          && forall j :: 0 <= j < i ==> !file[j].Data?
  {
    if n > 0 {
      StartOfFile(file, n - 1);
    }
  }

  lemma StartSaid(file: seq<Entry>)
    ensures StartsAt(file, Start(file, EndOf(file)))
  {
    var n := EndOf(file);
    StartOfFile(file, n);
    hide Start, Origin, EndOf;
    forall i | 0 <= i < |file| && Counts(file, i) && file[i].Data?
      ensures i < n
    {
      DataBeforeEnd(file, i);
    }
    forall i | 0 <= i < n
      ensures Counts(file, i)
    {
    }
  }

  /** What the converter reads from the lines of a file is what the records say: the memory,
      address by address, and the address of the first data. */
  lemma FileToMemory(lines: seq<string>, file: seq<Entry>, checks: seq<Byte>)
    requires LinesOf(lines, file, checks)
    ensures var r := ReadLines(lines, |lines|);
      && r.Ok? && StartsAt(file, r.value.start)
      && forall x :: Says(file, x, Memory(r.value.writes, x))
  {
    hide *;
    var n := EndOf(file);
    ReadsFile(lines, file, checks);
    StartSaid(file);
    var ws := Described(file, n);
    forall x
      ensures Says(file, x, Memory(ws, x))
    {
      DescribedSays(file, n, x);
      SaysAll(file, x, Memory(ws, x));
    }
  }

  /** From the lines of a file to the image that its blocks read back to, for blocks that fit
      a header: the way back succeeds exactly when the pages never go back nor leave too large
      a gap; then the image holds, from the first page to the last, what the file says, and
      all data of the file lies in it. */
  lemma FileToImage(lines: seq<string>, file: seq<Entry>, checks: seq<Byte>, t: Tags, start: int, familyId: int)
    requires LinesOf(lines, file, checks) && Setting(file) != []
    requires AllFit(Paged(Setting(file)), t, |Paged(Setting(file))|)
    ensures ReadLines(lines, |lines|).Ok? && ReadLines(lines, |lines|).value.writes == Setting(file)
    ensures var pages := Paged(Setting(file));
      var r := ScanBlocks(Encoded(pages, t, |pages|), start, familyId, |pages|);
      && (r.Ok? <==> Orderly(Setting(file)))
      && (r.Ok? && TagsWanted(t, familyId) ==> Images(file, r.value.start, r.value.outp))
  {
    hide *;
    ReadsFile(lines, file, checks);
    SettingIs(file);
    var pages := Paged(Setting(file));
    HexToBinary(Setting(file), t, start, familyId);
    var r := ScanBlocks(Encoded(pages, t, |pages|), start, familyId, |pages|);
    if r.Ok? && TagsWanted(t, familyId) {
      ImageSays(file, pages, r.value.outp);
    }
  }

  /** The bytes that a file sets, in order. */
  function Setting(file: seq<Entry>): seq<Write> {
    Described(file, EndOf(file))
  }

  lemma SettingIs(file: seq<Entry>)
    ensures Setting(file) == Described(file, EndOf(file))
  {
  }

  /** An image from some address on that holds what the file says, and all of its data. */
  ghost predicate Images(file: seq<Entry>, start: int, image: seq<Byte>) {
    && (forall i :: 0 <= i < |image| ==> Says(file, start + i, image[i]))
    && (forall i, k, x :: DataFor(file, i, k, x) ==> start <= x < start + |image|)
  }

  lemma ImageSays(file: seq<Entry>, pages: seq<Page>, image: seq<Byte>)
    requires ShowsMemory(Setting(file), pages, image)
    ensures |pages| > 0 && Images(file, pages[0].addr, image)
  {
    hide Setting, Memory, Says, DataFor;
    forall i | 0 <= i < |image|
      ensures Says(file, pages[0].addr + i, image[i])
    {
      SettingSays(file, pages[0].addr + i);
    }
    forall i, k, x | DataFor(file, i, k, x)
      ensures pages[0].addr <= x < pages[0].addr + |image|
    {
      var w := DataSet(file, i, k, x);
    }
  }

  lemma SettingSays(file: seq<Entry>, x: int)
    ensures Says(file, x, Memory(Setting(file), x))
  {
    hide Described, Memory, Says, SaysBefore, EndOf;
    DescribedSays(file, EndOf(file), x);
    SaysAll(file, x, Memory(Setting(file), x));
  }

  lemma DataSet(file: seq<Entry>, i: int, k: int, x: int) returns (w: Write)
    requires DataFor(file, i, k, x)
    ensures w in Setting(file) && w.addr == x
  {
    hide Described, EndOf, Origin;
    DataBeforeEnd(file, i);
    w := DataDescribed(file, EndOf(file), i, k, x);
  }

  lemma {:induction false} DataDescribed(file: seq<Entry>, n: nat, i: nat, k: nat, x: int) returns (w: Write)
    requires i < n <= |file| && DataFor(file, i, k, x)
    ensures w in Described(file, n) && w.addr == x
  {
    if i < n - 1 {
      w := DataDescribed(file, n - 1, i, k, x);
    } else {
      var ws := BytesAt(Origin(file, i) + file[i].offset, file[i].bytes);
      w := ws[k];
      assert w in ws;
    }
  }

  // ----- Files that are not accepted -----

  /** A line that cannot be read: an empty one, or one that begins like a record and holds
      something else than bytes, or too few of them. */
  predicate Unreadable(line: string) {
    || line == []
    || (line[0] == ':' && Pairs(line, PairsEnd(line)).Err?)
    || (line[0] == ':' && |BytesOf(line)| < 4)
    || (line[0] == ':' && BytesOf(line)[3] in {2, 4} && |BytesOf(line)| < 6)
  }

  function BytesOf(line: string): seq<Byte> {
    if line != [] && Pairs(line, PairsEnd(line)).Ok? then Pairs(line, PairsEnd(line)).value else []
  }

  predicate EndLine(line: string) {
    line != [] && line[0] == ':' && |BytesOf(line)| >= 4 && BytesOf(line)[3] == 1
  }

  /** The lines in front of a line are no end records. */
  predicate Reached(lines: seq<string>, i: nat)
    requires i <= |lines|
  {
    forall j :: 0 <= j < i ==> !EndLine(lines[j])
  }

  lemma LineEffect(h: Hex, line: string)
    requires !h.ended
    ensures LineStep(h, line).Err? <==> Unreadable(line)
    ensures LineStep(h, line).Ok? ==> (LineStep(h, line).value.ended <==> EndLine(line))
  {
    hide Pairs, BigEndian, DataWrites;
  }

  /** A file is rejected if and only if a line that cannot be read stands before its end. */
  lemma {:induction false} RejectedIff(lines: seq<string>, n: nat)
    requires n <= |lines|
    ensures ReadLines(lines, n).Err? <==> exists i :: 0 <= i < n && Unreadable(lines[i]) && Reached(lines, i)
    ensures ReadLines(lines, n).Ok? ==> (ReadLines(lines, n).value.ended <==> !Reached(lines, n))
  {
    hide LineStep, Unreadable, EndLine;
    if n > 0 {
      RejectedIff(lines, n - 1);
      var h := ReadLines(lines, n - 1);
      if h.Ok? && !h.value.ended {
        LineEffect(h.value, lines[n - 1]);
      }
      assert Reached(lines, n) <==> Reached(lines, n - 1) && !EndLine(lines[n - 1]);
      if h.Ok? && h.value.ended {
        EndedStays(h, lines[n - 1]);
      }
    }
  }

  lemma EndedStays(h: Result<Hex>, line: string)
    requires h.Ok? && h.value.ended
    ensures LineStep(h.value, line) == h
  {
  }
}
