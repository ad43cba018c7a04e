/** Intel HEX files to UF2 (uf2conv.py), and what reading the result back as a binary
    image says about the memory that the file describes.  Record types 00, 01, 02 and 04
    of the Intel Hexadecimal Object File Format Specification. */
module IntelHex {
  import opened ByteData
  import opened Uf2Block
  import opened Uf2

  // ----- Lines -----

  function Digit(c: char): Option<nat> {
    if '0' <= c <= '9' then Some(c as nat - '0' as nat)
    else if 'a' <= c <= 'f' then Some(c as nat - 'a' as nat + 10)
    else if 'A' <= c <= 'F' then Some(c as nat - 'A' as nat + 10)
    else None
  }

  /** The number that two characters of a line stand for; a carriage return beside a
      digit counts as white space. */
  function Pair(a: char, b: char): (v: Option<Byte>)
  {
    var x, y := Digit(a), Digit(b);
    if x.Some? && y.Some? && x.value < 16 && y.value < 16 then Some(16 * x.value + y.value)
    else if x.Some? && x.value < 16 && b == '\r' then Some(x.value)
    else if y.Some? && y.value < 16 && a == '\r' then Some(y.value)
    else None
  }

  /** The bytes of a record line before position `i`. */
  function Pairs(line: string, i: nat): Result<seq<Byte>>
    requires i <= |line|
  {
    if i < 3 then Ok([])
    else
      var before := Pairs(line, i - 2);
      var v := Pair(line[i - 2], line[i - 1]);
      if before.Err? then before
      else if v == None then Err(BadLine)
      else Ok(before.value + [v.value])
  }

  /** The end of the last whole pair of a line. */
  function PairsEnd(line: string): (i: nat)
    ensures line != [] ==> 1 <= i <= |line| && (i + 1 == |line| || i == |line|) && i % 2 == 1
  {
    if |line| == 0 then 0 else if |line| % 2 == 1 then |line| else |line| - 1
  }

  lemma {:induction false} PairsErrorStays(line: string, i: nat, n: nat)
    requires i <= n <= |line| && i % 2 == n % 2 && Pairs(line, i).Err?
    ensures Pairs(line, n) == Pairs(line, i)
    decreases n
  {
    if i < n {
      PairsErrorStays(line, i, n - 2);
    } else {
      assert i == n;
    }
  }

  method ParseLine(line: string) returns (rec: Result<seq<Byte>>)
    requires line != []
    ensures rec == Pairs(line, PairsEnd(line))
  {
    var i := 1;
    var bytes: seq<Byte> := [];
    while i < |line| - 1
      invariant 1 <= i <= PairsEnd(line) && i % 2 == 1
      invariant Pairs(line, i) == Ok(bytes)
    {
      var v := Pair(line[i], line[i + 1]);
      if v == None {
        PairsErrorStays(line, i + 2, PairsEnd(line));
        return Err(BadLine);
      }
      bytes := bytes + [v.value];
      i := i + 2;
    }
    return Ok(bytes);
  }

  const DIGITS := "0123456789ABCDEF"

  function Printed(rec: seq<Byte>): string {
    if rec == [] then ":"
    else
      var n := |rec| - 1;
      Printed(rec[..n]) + HexDigits(rec[n])
  }

  function HexDigits(b: Byte): (s: string)
    ensures |s| == 2
  {
    [DIGITS[b / 16], DIGITS[b % 16]]
  }

  /** A printed record reads back, with either kind of line end. */
  lemma {:induction false} ParsePrinted(rec: seq<Byte>, tail: string)
    requires tail == "" || tail == "\r"
    ensures var line := Printed(rec) + tail;
      line != [] && PairsEnd(line) == |Printed(rec)| && Pairs(line, PairsEnd(line)) == Ok(rec)
  {
    PrintedLength(rec);
    PairsOfPrinted(rec, tail);
    hide Pairs, Printed;
    assert |Printed(rec) + tail| == 1 + 2 * |rec| + |tail|;
  }

  lemma {:induction false} PrintedLength(rec: seq<Byte>)
    ensures |Printed(rec)| == 1 + 2 * |rec|
  {
    if rec != [] {
      PrintedLength(rec[..|rec| - 1]);
    }
  }

  lemma {:induction false} PairsOfPrinted(rec: seq<Byte>, more: string)
    ensures Pairs(Printed(rec) + more, |Printed(rec)|) == Ok(rec)
  {
    PrintedLength(rec);
    if rec != [] {
      var n := |rec| - 1;
      var last := HexDigits(rec[n]);
      PrintedLength(rec[..n]);
      PairsOfPrinted(rec[..n], last + more);
      PairOfDigits(rec[n]);
      hide Printed, HexDigits, Pair;
      PrintedTail(rec, more);
      assert rec[..n] + [rec[n]] == rec;
    }
  }

  lemma PrintedTail(rec: seq<Byte>, more: string)
    requires rec != []
    ensures var n := |rec| - 1;
      var line, before, last := Printed(rec) + more, Printed(rec[..n]), HexDigits(rec[n]);
      && line == before + (last + more)
      && |Printed(rec)| == |before| + 2
      && line[|before|] == last[0] && line[|before| + 1] == last[1]
  {
  }

  lemma PairOfDigits(b: Byte)
    ensures Pair(HexDigits(b)[0], HexDigits(b)[1]) == Some(b)
  {
    DigitOf(b / 16);
    DigitOf(b % 16);
  }

  lemma DigitOf(v: nat)
    requires v < 16
    ensures Digit(DIGITS[v]) == Some(v)
  {
  }

  // ----- Records -----

  /** The variables of convert_from_hex_to_uf2, with the bytes set so far in place of
      the blocks. */
  datatype Hex = Hex(upper: nat, writes: seq<Write>, start: Option<int>, ended: bool)

  const NOTHING := Hex(0, [], None, false)

  /** The bytes that the first `n` bytes of a data record set. */
  function DataWrites(rec: seq<Byte>, addr: nat, n: nat): seq<Write>
    requires n < |rec|
  {
    if n <= 4 then [] else DataWrites(rec, addr, n - 1) + [Write(addr + (n - 1 - 4), rec[n - 1])]
  }

  function RecordStep(h: Hex, rec: seq<Byte>): Result<Hex> {
    if |rec| < 4 then Err(BadRecord)
    else if rec[3] == 4 || rec[3] == 2 then
      if |rec| < 6 then Err(BadRecord)
      else
        Ok(h.(upper := BigEndian([rec[4], rec[5]]) * (if rec[3] == 4 then 0x1_0000 else 16)))
    else if rec[3] == 1 then Ok(h.(ended := true))
    else if rec[3] == 0 then
      var addr := h.upper + BigEndian([rec[1], rec[2]]);
      Ok(h.(writes := h.writes + DataWrites(rec, addr, |rec| - 1),
            start := if h.start == None then Some(addr) else h.start))
    else Ok(h)
  }

  /** A line that is no record is passed over; an end record hides what follows. */
  function LineStep(h: Hex, line: string): Result<Hex> {
    if h.ended then Ok(h)
    else if line == [] then Err(BadLine)
    else if line[0] != ':' then Ok(h)
    else
      var rec := Pairs(line, PairsEnd(line));
      if rec.Err? then Err(rec.error) else RecordStep(h, rec.value)
  }

  function ReadLines(lines: seq<string>, n: nat): Result<Hex>
    requires n <= |lines|
  {
    if n == 0 then Ok(NOTHING)
    else
      var h := ReadLines(lines, n - 1);
      if h.Err? then h else LineStep(h.value, lines[n - 1])
  }

  // ----- Blocks -----

  function PageAddr(addr: nat): nat {
    addr - addr % CHUNK
  }

  predicate IsPage(p: Page) {
    |p.bytes| == CHUNK && p.addr >= 0 && p.addr % CHUNK == 0
  }

  function FreshPage(w: Write): (p: Page)
    ensures IsPage(p)
  {
    Page(PageAddr(w.addr), Zeros(CHUNK)[w.addr % CHUNK := w.value])
  }

  function Overwritten(p: Page, w: Write): (q: Page)
    requires IsPage(p)
    ensures IsPage(q)
  {
    p.(bytes := p.bytes[w.addr % CHUNK := w.value])
  }

  /** A byte goes to the current block if it lies in it, and else to a new block. */
  function Put(pages: seq<Page>, w: Write): (p: seq<Page>)
    requires forall q <- pages :: IsPage(q)
    ensures forall q <- p :: IsPage(q)
    ensures |p| > 0 && p[|p| - 1].addr == PageAddr(w.addr)
  {
    var n := |pages|;
    if n == 0 || pages[n - 1].addr != PageAddr(w.addr) then pages + [FreshPage(w)]
    else pages[..n - 1] + [Overwritten(pages[n - 1], w)]
  }

  function Paged(ws: seq<Write>): (p: seq<Page>)
    ensures forall q <- p :: IsPage(q)
    ensures ws != [] ==> |p| > 0 && p[|p| - 1].addr == PageAddr(ws[|ws| - 1].addr)
    ensures ws == [] ==> p == []
  {
    if ws == [] then [] else Put(Paged(ws[..|ws| - 1]), ws[|ws| - 1])
  }

  // ----- The memory that the writes describe -----

  /** The byte last written to an address, or zero. */
  function Memory(ws: seq<Write>, x: int): Byte {
    if ws == [] then 0
    else if ws[|ws| - 1].addr == x then ws[|ws| - 1].value
    else Memory(ws[..|ws| - 1], x)
  }

  /** From one byte to the next the page never goes back, nor too far ahead. */
  predicate Orderly(ws: seq<Write>) {
    forall i :: 0 <= i < |ws| - 1 ==>
      0 <= PageAddr(ws[i + 1].addr) - PageAddr(ws[i].addr) <= CHUNK + MAX_PADDING
  }

  lemma {:induction false} ClimbsIffOrderly(ws: seq<Write>)
    ensures Climbs(Paged(ws), |Paged(ws)|) <==> Orderly(ws)
  {
    if ws != [] {
      var n := |ws| - 1;
      ClimbsIffOrderly(ws[..n]);
      ClimbsPut(Paged(ws[..n]), ws[n]);
      OrderlyLast(ws);
    }
  }

  lemma OrderlyLast(ws: seq<Write>)
    requires ws != []
    ensures var n := |ws| - 1;
      Orderly(ws) <==>
        && Orderly(ws[..n])
        && (n == 0 || 0 <= PageAddr(ws[n].addr) - PageAddr(ws[n - 1].addr) <= CHUNK + MAX_PADDING)
  {
    var n := |ws| - 1;
    var f := ws[..n];
    assert forall i :: 0 <= i < n ==> f[i] == ws[i];
  }

  lemma ClimbsSame(p: seq<Page>, q: seq<Page>)
    requires |p| == |q| && forall i :: 0 <= i < |p| ==> p[i].addr == q[i].addr
    ensures Climbs(p, |p|) <==> Climbs(q, |q|)
  {
    assert forall i :: 0 <= i < |p| ==> Gap(p, i) == Gap(q, i);
  }

  lemma ClimbsAppend(pages: seq<Page>, q: Page)
    ensures var n, p := |pages|, pages + [q];
      Climbs(p, n + 1) <==> Climbs(pages, n) && 0 <= Gap(p, n) <= MAX_PADDING && Gap(p, n) % 4 == 0
  {
    var n, p := |pages|, pages + [q];
    assert forall i :: 0 <= i < n ==> Gap(p, i) == Gap(pages, i);
  }

  lemma PagesApart(a: int, b: int)
    requires a % CHUNK == 0 && b % CHUNK == 0 && a != b
    ensures (b - (a + CHUNK)) % 4 == 0
    ensures 0 <= b - (a + CHUNK) <==> 0 <= b - a
  {
    var i, j := a / CHUNK, b / CHUNK;
    assert b - (a + CHUNK) == 4 * (64 * (j - i - 1));
  }

  /** A byte keeps the pages climbing exactly when it does not lead back or too far. */
  lemma ClimbsPut(pages: seq<Page>, w: Write)
    requires forall q <- pages :: IsPage(q)
    ensures var n, p := |pages|, Put(pages, w);
      Climbs(p, |p|) <==>
        && Climbs(pages, n)
        && (n == 0 || 0 <= PageAddr(w.addr) - pages[n - 1].addr <= CHUNK + MAX_PADDING)
  {
    hide Climbs, Overwritten, FreshPage;
    var n, p := |pages|, Put(pages, w);
    if n > 0 && pages[n - 1].addr == PageAddr(w.addr) {
      ClimbsSame(p, pages);
    } else {
      assert p == pages + [FreshPage(w)];
      assert p[n].addr == PageAddr(w.addr);
      ClimbsAppend(pages, FreshPage(w));
      if n > 0 {
        assert IsPage(pages[n - 1]);
        PagesApart(pages[n - 1].addr, PageAddr(w.addr));
      }
    }
  }

  // ----- The image -----

  ghost predicate ShowsMemory(ws: seq<Write>, pages: seq<Page>, image: seq<Byte>) {
    && |pages| > 0
    && |image| == pages[|pages| - 1].addr + CHUNK - pages[0].addr
    && (forall w <- ws :: pages[0].addr <= w.addr < pages[0].addr + |image|)
    && (forall i :: 0 <= i < |image| ==> image[i] == Memory(ws, pages[0].addr + i))
  }

  lemma {:induction false} NeverWritten(ws: seq<Write>, x: int)
    requires forall w <- ws :: w.addr != x
    ensures Memory(ws, x) == 0
  {
    if ws != [] {
      assert ws[|ws| - 1] in ws;
      NeverWritten(ws[..|ws| - 1], x);
    }
  }

  /** The pages of orderly writes, laid out with zeros between them, are the memory from
      the first page to the last. */
  lemma {:induction false} FlatShowsMemory(ws: seq<Write>)
    requires ws != [] && Orderly(ws) && Climbs(Paged(ws), |Paged(ws)|)
    ensures ShowsMemory(ws, Paged(ws), Flat(Paged(ws), |Paged(ws)|, true))
  {
    var n := |ws| - 1;
    var f, w := ws[..n], ws[n];
    OrderlyLast(ws);
    ClimbsIffOrderly(f);
    assert ws == f + [w];
    hide Flat, Memory, Climbs, ShowsMemory, FreshPage, Overwritten, Orderly, Paged;
    if n == 0 {
      FirstByte(w);
    } else {
      FlatShowsMemory(f);
      var pages := Paged(f);
      PagedLast(f, w);
      if pages[|pages| - 1].addr == PageAddr(w.addr) {
        SamePage(f, pages, w);
      } else {
        NewPage(f, pages, w);
      }
    }
  }

  lemma PagedLast(ws: seq<Write>, w: Write)
    ensures Paged(ws + [w]) == Put(Paged(ws), w)
  {
    hide Put;
    assert (ws + [w])[..|ws|] == ws;
  }

  lemma FirstByte(w: Write)
    ensures var p := [FreshPage(w)];
      Paged([w]) == p && Climbs(p, 1) && ShowsMemory([w], p, Flat(p, 1, true))
  {
  }

  /** The image of the first pages does not depend on the later ones. */
  lemma {:induction false} FlatPrefix(p: seq<Page>, q: seq<Page>, n: nat)
    requires n <= |p| && n <= |q| && Climbs(p, n) && Climbs(q, n)
    requires forall i :: 0 <= i < n ==> p[i] == q[i]
    ensures Flat(p, n, true) == Flat(q, n, true)
  {
    if n > 0 {
      FlatPrefix(p, q, n - 1);
      assert Gap(p, n - 1) == Gap(q, n - 1);
    }
  }

  lemma MemoryAfter(ws: seq<Write>, w: Write, x: int)
    ensures Memory(ws + [w], x) == if x == w.addr then w.value else Memory(ws, x)
  {
    assert (ws + [w])[..|ws|] == ws;
  }

  /** One more byte within the image. */
  lemma ImageUpdated(ws: seq<Write>, pages: seq<Page>, image: seq<Byte>, w: Write, pages': seq<Page>, image': seq<Byte>)
    requires ShowsMemory(ws, pages, image) && |pages'| == |pages| && |image'| == |image|
    requires pages'[0].addr == pages[0].addr && pages'[|pages| - 1].addr == pages[|pages| - 1].addr
    requires 0 <= w.addr - pages[0].addr < |image|
    requires forall i :: 0 <= i < |image| ==> image'[i] == if i == w.addr - pages[0].addr then w.value else image[i]
    ensures ShowsMemory(ws + [w], pages', image')
  {
    hide Memory;
    forall i | 0 <= i < |image'|
      ensures image'[i] == Memory(ws + [w], pages'[0].addr + i)
    {
      MemoryAfter(ws, w, pages[0].addr + i);
    }
    forall v <- ws + [w]
      ensures pages'[0].addr <= v.addr < pages'[0].addr + |image'|
    {
      assert v in ws || v == w;
    }
  }

  /** More memory, not written before. */
  lemma ImageGrown(ws: seq<Write>, pages: seq<Page>, image: seq<Byte>, w: Write, pages': seq<Page>, more: seq<Byte>)
    requires ShowsMemory(ws, pages, image) && |pages'| > 0 && pages'[0].addr == pages[0].addr
    requires |image + more| == pages'[|pages'| - 1].addr + CHUNK - pages'[0].addr
    requires |image| <= w.addr - pages[0].addr < |image + more|
    requires forall i :: 0 <= i < |more| ==> more[i] == if |image| + i == w.addr - pages[0].addr then w.value else 0
    ensures ShowsMemory(ws + [w], pages', image + more)
  {
    hide Memory;
    var image' := image + more;
    forall i | 0 <= i < |image'|
      ensures image'[i] == Memory(ws + [w], pages'[0].addr + i)
    {
      MemoryAfter(ws, w, pages[0].addr + i);
      if i >= |image| {
        NeverWritten(ws, pages[0].addr + i);
        assert image'[i] == more[i - |image|];
      }
    }
    forall v <- ws + [w]
      ensures pages'[0].addr <= v.addr < pages'[0].addr + |image'|
    {
      assert v in ws || v == w;
    }
  }

  lemma FlatLast(pages: seq<Page>, n: nat)
    requires 0 < n <= |pages| && Climbs(pages, n)
    ensures Climbs(pages, n - 1)
    ensures Flat(pages, n, true)
      == (Flat(pages, n - 1, true) + Zeros(Gap(pages, n - 1))) + pages[n - 1].bytes
  {
  }

  /** Replacing the last page replaces the end of the image. */
  lemma FlatOverwritten(pages: seq<Page>, q: Page) returns (before: seq<Byte>)
    requires |pages| > 0 && q.addr == pages[|pages| - 1].addr && Climbs(pages, |pages|)
    ensures var n := |pages|;
      var p := pages[..n - 1] + [q];
      && Climbs(p, n)
      && Flat(pages, n, true) == before + pages[n - 1].bytes
      && Flat(p, n, true) == before + q.bytes
  {
    var n := |pages|;
    var p := pages[..n - 1] + [q];
    ClimbsSame(p, pages);
    FlatLast(pages, n);
    FlatLast(p, n);
    FlatPrefix(p, pages, n - 1);
    hide Flat, Climbs;
    assert Gap(p, n - 1) == Gap(pages, n - 1);
    before := Flat(pages, n - 1, true) + Zeros(Gap(pages, n - 1));
  }

  /** A new page comes behind the image, after a gap of zeros. */
  lemma FlatAppended(pages: seq<Page>, q: Page)
    requires |pages| > 0 && Climbs(pages, |pages|) && Climbs(pages + [q], |pages| + 1)
    ensures var n := |pages|;
      var gap := q.addr - (pages[n - 1].addr + CHUNK);
      gap >= 0 && Flat(pages + [q], n + 1, true) == Flat(pages, n, true) + (Zeros(gap) + q.bytes)
  {
    var n, p := |pages|, pages + [q];
    assert 0 <= Gap(p, n);
    FlatLast(p, n + 1);
    FlatPrefix(p, pages, n);
    hide Flat, Climbs;
    Regroup(Flat(pages, n, true), Zeros(Gap(p, n)), q.bytes);
  }

  lemma Regroup(a: seq<Byte>, b: seq<Byte>, c: seq<Byte>)
    ensures (a + b) + c == a + (b + c)
  {
  }

  lemma TailUpdated(before: seq<Byte>, tail: seq<Byte>, k: nat, b: Byte)
    requires k < |tail|
    ensures |before + tail[k := b]| == |before + tail|
    ensures forall i :: 0 <= i < |before + tail| ==>
              (before + tail[k := b])[i] == if i == |before| + k then b else (before + tail)[i]
  {
  }

  lemma SamePage(ws: seq<Write>, pages: seq<Page>, w: Write)
    requires |pages| > 0 && Climbs(pages, |pages|) && ShowsMemory(ws, pages, Flat(pages, |pages|, true))
    requires IsPage(pages[|pages| - 1]) && pages[|pages| - 1].addr == PageAddr(w.addr)
    ensures var p := pages[..|pages| - 1] + [Overwritten(pages[|pages| - 1], w)];
      Climbs(p, |p|) && ShowsMemory(ws + [w], p, Flat(p, |p|, true))
  {
    var n := |pages|;
    var last, k := pages[n - 1], w.addr % CHUNK;
    var p := pages[..n - 1] + [Overwritten(last, w)];
    assert Overwritten(last, w) == Page(last.addr, last.bytes[k := w.value]);
    hide Flat, Memory, Climbs, Overwritten;
    var before := FlatOverwritten(pages, Overwritten(last, w));
    TailUpdated(before, last.bytes, k, w.value);
    var image, image' := Flat(pages, n, true), Flat(p, n, true);
    assert |before| + k == w.addr - pages[0].addr;
    ImageUpdated(ws, pages, image, w, p, image');
  }

  lemma NewPage(ws: seq<Write>, pages: seq<Page>, w: Write)
    requires |pages| > 0 && Climbs(pages, |pages|) && ShowsMemory(ws, pages, Flat(pages, |pages|, true))
    requires Climbs(pages + [FreshPage(w)], |pages| + 1)
    ensures var p := pages + [FreshPage(w)];
      ShowsMemory(ws + [w], p, Flat(p, |p|, true))
  {
    var n, p := |pages|, pages + [FreshPage(w)];
    var gap := PageAddr(w.addr) - (pages[n - 1].addr + CHUNK);
    assert FreshPage(w) == Page(PageAddr(w.addr), Zeros(CHUNK)[w.addr % CHUNK := w.value]);
    hide Flat, Memory, Climbs, FreshPage;
    FlatAppended(pages, FreshPage(w));
    ImageGrown(ws, pages, Flat(pages, n, true), w, p, Zeros(gap) + FreshPage(w).bytes);
  }

  /** The whole way: a file of these writes whose blocks could be packed is accepted when
      it is read back exactly if the pages never go back and never leave too large a gap;
      the result is the memory from the first page to the last, and starts at the first
      page. */
  lemma HexToBinary(ws: seq<Write>, t: Tags, start: int, familyId: int)
    requires ws != [] && AllFit(Paged(ws), t, |Paged(ws)|)
    ensures var pages := Paged(ws);
      var r := ScanBlocks(Encoded(pages, t, |pages|), start, familyId, |pages|);
      && (r.Ok? <==> Orderly(ws))
      && (r.Ok? && TagsWanted(t, familyId) ==>
            ShowsMemory(ws, pages, r.value.outp) && r.value.start == pages[0].addr)
  {
    var pages := Paged(ws);
    assert Fits(pages[0], 0, |pages|, t);
    ScanEncoded(pages, t, start, familyId, |pages|);
    ClimbsIffOrderly(ws);
    hide ScanBlocks, Encoded, Paged, Flat, ShowsMemory, Fits, BlockOf;
    if Orderly(ws) {
      FlatShowsMemory(ws);
    }
  }

  /** A byte in one page and then one in the page before it: two blocks are packed, and
      they are not read back. */
  lemma GoesBack(first: Byte, second: Byte, t: Tags, start: int, familyId: int)
    requires t.InRange()
    ensures var pages := Paged([Write(CHUNK, first), Write(0, second)]);
      && AllFit(pages, t, |pages|)
      && ScanBlocks(Encoded(pages, t, |pages|), start, familyId, |pages|).Err?
  {
    var ws := [Write(CHUNK, first), Write(0, second)];
    TwoPages(ws[0], ws[1]);
    assert PageAddr(ws[1].addr) < PageAddr(ws[0].addr);
    hide Paged, Put, ScanBlocks, Encoded, AllFit;
    HexToBinary(ws, t, start, familyId);
  }

  lemma TwoPages(a: Write, b: Write)
    requires PageAddr(a.addr) != PageAddr(b.addr)
    ensures Paged([a, b]) == [FreshPage(a), FreshPage(b)]
  {
    FirstByte(a);
    PagedLast([a], b);
    assert [a] + [b] == [a, b];
  }

  // ----- The converter -----

  lemma {:induction false} ReadErrorStays(lines: seq<string>, m: nat, n: nat)
    requires m <= n <= |lines| && ReadLines(lines, m).Err?
    ensures ReadLines(lines, n) == ReadLines(lines, m)
  {
    if m < n {
      ReadErrorStays(lines, m, n - 1);
    }
  }

  lemma {:induction false} ReadRest(lines: seq<string>, m: nat, n: nat)
    requires m <= n <= |lines| && ReadLines(lines, m).Ok? && (m < n ==> ReadLines(lines, m).value.ended)
    ensures ReadLines(lines, n) == ReadLines(lines, m)
  {
    if m < n {
      ReadRest(lines, m, n - 1);
    }
  }

  /** The data bytes of a record go to the blocks one by one. */
  method SetBytes(rec: seq<Byte>, addr: nat, blocks: seq<Page>, ghost ws: seq<Write>) returns (blocks': seq<Page>)
    requires |rec| >= 4 && blocks == Paged(ws)
    ensures blocks' == Paged(ws + DataWrites(rec, addr, |rec| - 1))
  {
    hide Put;
    blocks' := blocks;
    var i, at := 4, addr;
    assert ws + [] == ws;
    while i < |rec| - 1
      invariant 4 <= i && (i <= |rec| - 1 || (i == 4 && DataWrites(rec, addr, |rec| - 1) == []))
      invariant at == addr + (i - 4)
      invariant i <= |rec| - 1 ==> blocks' == Paged(ws + DataWrites(rec, addr, i))
      invariant i > |rec| - 1 ==> blocks' == blocks
    {
      ghost var before := DataWrites(rec, addr, i);
      PagedNext(ws, before, Write(at, rec[i]));
      blocks' := Put(blocks', Write(at, rec[i]));
      at := at + 1;
      i := i + 1;
    }
  }

  lemma PagedNext(ws: seq<Write>, before: seq<Write>, w: Write)
    ensures Paged(ws + (before + [w])) == Put(Paged(ws + before), w)
  {
    hide Put, Paged;
    assert ws + (before + [w]) == (ws + before) + [w];
    PagedLast(ws + before, w);
  }

  /** The body of the loop of convert_from_hex_to_uf2. */
  method HandleLine(line: string, upper: nat, blocks: seq<Page>, start: Option<int>, ghost h: Hex)
    returns (error: Option<Error>, upper': nat, blocks': seq<Page>, start': Option<int>, ended: bool, ghost h': Hex)
    requires h == Hex(upper, h.writes, start, false) && blocks == Paged(h.writes)
    ensures LineStep(h, line) == if error == None then Ok(h') else Err(error.value)
    ensures error == None ==> h' == Hex(upper', h'.writes, start', ended) && blocks' == Paged(h'.writes)
  {
    hide Paged, Pairs;
    error, upper', blocks', start', ended, h' := None, upper, blocks, start, false, h;
    if line == [] {
      error := Some(BadLine);
      return;
    }
    if line[0] != ':' {
      return;
    }
    var parsed := ParseLine(line);
    if parsed.Err? {
      error := Some(parsed.error);
      return;
    }
    var rec := parsed.value;
    if |rec| < 4 || ((rec[3] == 4 || rec[3] == 2) && |rec| < 6) {
      error := Some(BadRecord);
      return;
    }
    if rec[3] == 4 {
      upper' := BigEndian([rec[4], rec[5]]) * 0x1_0000;
    } else if rec[3] == 2 {
      upper' := BigEndian([rec[4], rec[5]]) * 16;
    } else if rec[3] == 1 {
      ended := true;
    } else if rec[3] == 0 {
      var addr := upper + BigEndian([rec[1], rec[2]]);
      if start == None {
        start' := Some(addr);
      }
      blocks' := SetBytes(rec, addr, blocks, h.writes);
      h' := h.(writes := h.writes + DataWrites(rec, addr, |rec| - 1));
    }
    h' := Hex(upper', h'.writes, start', ended);
  }

  method EncodeAll(blocks: seq<Page>, t: Tags) returns (r: Result<seq<Byte>>)
    requires forall q <- blocks :: IsPage(q)
    ensures r == if AllFit(blocks, t, |blocks|) then Ok(Encoded(blocks, t, |blocks|)) else Err(OutOfRange)
  {
    hide BlockOf, Block.Serialize;
    var outp: seq<Byte> := [];
    for i := 0 to |blocks|
      invariant AllFit(blocks, t, i) && outp == Encoded(blocks, t, i)
    {
      assert IsPage(blocks[i]);
      if !Fits(blocks[i], i, |blocks|, t) {
        return Err(OutOfRange);
      }
      outp := outp + BlockOf(blocks[i], i, |blocks|, t).Serialize();
    }
    return Ok(outp);
  }

  /** convert_from_hex_to_uf2, for the lines of a file. */
  method ConvertFromHexToUf2(lines: seq<string>, t: Tags) returns (r: Result<seq<Byte>>, start: Option<int>)
    ensures var h := ReadLines(lines, |lines|);
      if h.Err? then r == Err(h.error)
      else
        var pages := Paged(h.value.writes);
        start == h.value.start
        && r == if AllFit(pages, t, |pages|) then Ok(Encoded(pages, t, |pages|)) else Err(OutOfRange)
  {
    start := None;
    var upper, blocks: seq<Page>, ended := 0, [], false;
    ghost var h := NOTHING;
    var n := 0;
    while n < |lines| && !ended
      invariant n <= |lines| && ReadLines(lines, n) == Ok(h)
      invariant h.upper == upper && h.start == start && h.ended == ended && blocks == Paged(h.writes)
    {
      hide Paged, Put, LineStep;
      var error: Option<Error>;
      error, upper, blocks, start, ended, h := HandleLine(lines[n], upper, blocks, start, h);
      n := n + 1;
      if error != None {
        ReadErrorStays(lines, n, |lines|);
        return Err(error.value), start;
      }
    }
    ReadRest(lines, n, |lines|);
    r := EncodeAll(blocks, t);
  }
}
