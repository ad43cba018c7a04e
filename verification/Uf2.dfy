/** The two directions of the UF2 converter (uf2conv.py): a binary image to blocks, and
    blocks to a binary image. */
module Uf2 {
  import opened ByteData
  import opened Uf2Block

  datatype Error = BadLine | BadRecord | OutOfRange | BadMagic | BadSize | OutOfOrder | TooMuchPadding | OddPadding

  datatype Result<T> = Ok(value: T) | Err(error: Error)

  const MAX_PADDING := 10 * 1024 * 1024

  // ----- Reading blocks -----

  /** The variables of convert_from_uf2; `start` is the global start address. */
  datatype Scan = Scan(curr: Option<int>, currFamily: Option<nat>, families: set<nat>, outp: seq<Byte>, start: int)

  /** Whether the data of a block belongs to the image that is asked for. */
  predicate Wanted(b: Block, familyId: int) {
    familyId == 0 || (HasFlag(b.flags, FAMILY_PRESENT) && familyId == b.family)
  }

  /** One block that is to be flashed. */
  function Take(s: Scan, b: Block, familyId: int): Result<Scan>
    requires |b.data| == DATA
  {
    var tagged := HasFlag(b.flags, FAMILY_PRESENT);
    var family := if tagged && s.currFamily == None then Some(b.family) else s.currFamily;
    var restart := s.curr == None || (tagged && Some(b.family) != family);
    var curr := if restart then b.addr else s.curr.value;
    var start := if restart && (familyId == 0 || familyId == b.family) then b.addr else s.start;
    var padding := b.addr - curr;
    if b.size > DATA then Err(BadSize)
    else if padding < 0 then Err(OutOfOrder)
    else if padding > MAX_PADDING then Err(TooMuchPadding)
    else if padding % 4 != 0 then Err(OddPadding)
    else
      Ok(Scan(Some(b.addr + b.size), if restart then Some(b.family) else family,
              if tagged then s.families + {b.family} else s.families,
              s.outp + Zeros(padding) + (if Wanted(b, familyId) then b.data[..b.size] else []),
              start))
  }

  /** After the last block, an image of several families is given up unless one of them
      was asked for. */
  function Finish(s: Scan, familyId: int): Scan {
    if |s.families| > 1 && familyId == 0 then s.(outp := [], start := 0) else s
  }

  function Step(s: Scan, block: Option<Block>, familyId: int, last: bool): Result<Scan>
    requires block.Some? ==> |block.value.data| == DATA
  {
    match block
    case None => Err(BadMagic)
    case Some(b) =>
      if HasFlag(b.flags, NOT_MAIN_FLASH) then Ok(s)
      else
        var r := Take(s, b, familyId);
        if r.Ok? && last then Ok(Finish(r.value, familyId)) else r
  }

  function BlockAt(buf: seq<Byte>, n: nat): Option<Block>
    requires BLOCK * n + BLOCK <= |buf|
    ensures BlockAt(buf, n).Some? ==> |BlockAt(buf, n).value.data| == DATA
  {
    Parse(buf[BLOCK * n..BLOCK * n + BLOCK])
  }

  /** The state after the first `n` blocks. */
  function ScanBlocks(buf: seq<Byte>, start: int, familyId: int, n: nat): Result<Scan>
    requires BLOCK * n <= |buf|
  {
    if n == 0 then Ok(Scan(None, None, {}, [], start))
    else
      var before := ScanBlocks(buf, start, familyId, n - 1);
      if before.Err? then before
      else Step(before.value, BlockAt(buf, n - 1), familyId, n == |buf| / BLOCK)
  }

  lemma {:induction false} ErrorStays(buf: seq<Byte>, start: int, familyId: int, m: nat, n: nat)
    requires m <= n && BLOCK * n <= |buf| && ScanBlocks(buf, start, familyId, m).Err?
    ensures ScanBlocks(buf, start, familyId, n) == ScanBlocks(buf, start, familyId, m)
  {
    hide Step, BlockAt;
    if m < n {
      ErrorStays(buf, start, familyId, m, n - 1);
    }
  }

  lemma ScanNone(buf: seq<Byte>, start: int, familyId: int)
    ensures ScanBlocks(buf, start, familyId, 0) == Ok(Scan(None, None, {}, [], start))
  {
  }

  lemma ScanNext(buf: seq<Byte>, start: int, familyId: int, n: nat)
    requires BLOCK * (n + 1) <= |buf| && ScanBlocks(buf, start, familyId, n).Ok?
    ensures ScanBlocks(buf, start, familyId, n + 1)
      == Step(ScanBlocks(buf, start, familyId, n).value, BlockAt(buf, n), familyId, n + 1 == |buf| / BLOCK)
  {
  }

  // ----- Writing blocks -----

  /** Data for 256 bytes of memory. */
  datatype Page = Page(addr: int, bytes: seq<Byte>)

  /** What goes into every block of a file. */
  datatype Tags = Tags(familyId: int, deviceType: int) {
    predicate InRange() {
      0 <= familyId < WORD && 0 <= deviceType < WORD
    }

    function Flags(): nat {
      (if familyId != 0 then FAMILY_PRESENT else 0) + (if deviceType != 0 then EXTENSIONS_PRESENT else 0)
    }

    function Extension(): (e: seq<Byte>)
      requires InRange()
      ensures |e| <= 8
    {
      if deviceType != 0 then [0x08, 0x29, 0xA7, 0xC8] + Pack(deviceType) else []
    }
  }

  predicate Fits(p: Page, number: nat, count: nat, t: Tags) {
    t.InRange() && 0 <= p.addr < WORD && number < WORD && count < WORD
  }

  function BlockOf(p: Page, number: nat, count: nat, t: Tags): (b: Block)
    requires |p.bytes| == CHUNK && Fits(p, number, count, t)
    ensures b.Valid() && b.data[..CHUNK] == p.bytes
  {
    var e := t.Extension();
    Block(t.Flags(), p.addr, CHUNK, number, count, t.familyId, p.bytes + e + Zeros(DATA - CHUNK - |e|))
  }

  /** Behind the page a block carries the device type, as an extension tag of eight bytes, or
      nothing but zeros; the flags say which, and whether there is a family. */
  lemma TagsHeld(p: Page, number: nat, count: nat, t: Tags)
    requires |p.bytes| == CHUNK && Fits(p, number, count, t)
    ensures var b := BlockOf(p, number, count, t);
      var d := b.data;
      && (HasFlag(b.flags, FAMILY_PRESENT) <==> t.familyId != 0) && b.family == t.familyId
      && (HasFlag(b.flags, EXTENSIONS_PRESENT) <==> t.deviceType != 0) && !HasFlag(b.flags, NOT_MAIN_FLASH)
      && (t.deviceType != 0 ==> d[CHUNK..CHUNK + 4] == [8, 0x29, 0xA7, 0xC8]
                                && Unpack(d[CHUNK + 4..CHUNK + 8]) == t.deviceType)
      && forall i :: (if t.deviceType != 0 then CHUNK + 8 else CHUNK) <= i < DATA ==> d[i] == 0
  {
    var b, e := BlockOf(p, number, count, t), t.Extension();
    assert b.data[CHUNK..CHUNK + |e|] == e;
    if t.deviceType != 0 {
      UnpackPack(t.deviceType);
      assert e[..4] == [0x08, 0x29, 0xA7, 0xC8] && e[4..8] == Pack(t.deviceType);
      assert b.data[CHUNK..CHUNK + 4] == e[..4] && b.data[CHUNK + 4..CHUNK + 8] == e[4..8];
    }
  }

  predicate AllFit(pages: seq<Page>, t: Tags, n: nat)
    requires n <= |pages|
  {
    forall i :: 0 <= i < n ==> |pages[i].bytes| == CHUNK && Fits(pages[i], i, |pages|, t)
  }

  /** The first `n` blocks of a file. */
  function Encoded(pages: seq<Page>, t: Tags, n: nat): (s: seq<Byte>)
    requires n <= |pages| && AllFit(pages, t, n)
    ensures |s| == BLOCK * n
  {
    if n == 0 then []
    else Encoded(pages, t, n - 1) + BlockOf(pages[n - 1], n - 1, |pages|, t).Serialize()
  }

  lemma {:induction false} EncodedPrefix(pages: seq<Page>, t: Tags, k: nat, n: nat)
    requires k < n <= |pages| && AllFit(pages, t, n)
    ensures Encoded(pages, t, n)[BLOCK * k..BLOCK * k + BLOCK]
      == BlockOf(pages[k], k, |pages|, t).Serialize()
  {
    hide Block.Serialize, BlockOf;
    if k < n - 1 {
      EncodedPrefix(pages, t, k, n - 1);
      var before, last := Encoded(pages, t, n - 1), BlockOf(pages[n - 1], n - 1, |pages|, t).Serialize();
      assert (before + last)[BLOCK * k..BLOCK * k + BLOCK] == before[BLOCK * k..BLOCK * k + BLOCK];
    }
  }

  /** A block reads back as it was written. */
  lemma BlockReadsBack(pages: seq<Page>, t: Tags, k: nat)
    requires k < |pages| && AllFit(pages, t, |pages|)
    ensures BlockAt(Encoded(pages, t, |pages|), k) == Some(BlockOf(pages[k], k, |pages|, t))
  {
    hide Block.Serialize, BlockOf, Encoded, Parse;
    EncodedPrefix(pages, t, k, |pages|);
    ParseSerialize(BlockOf(pages[k], k, |pages|, t));
  }

  // ----- From pages to an image -----

  /** The room between a page and the one before it. */
  function Gap(pages: seq<Page>, i: nat): int
    requires i < |pages|
  {
    if i == 0 then 0 else pages[i].addr - (pages[i - 1].addr + CHUNK)
  }

  predicate Climbs(pages: seq<Page>, n: nat)
    requires n <= |pages|
  {
    forall i :: 0 <= i < n ==> 0 <= Gap(pages, i) <= MAX_PADDING && Gap(pages, i) % 4 == 0
  }

  /** The pages laid out in order, the gaps filled with zeros. */
  function Flat(pages: seq<Page>, n: nat, wanted: bool): seq<Byte>
    requires n <= |pages| && Climbs(pages, n)
  {
    if n == 0 then []
    else
      Flat(pages, n - 1, wanted) + Zeros(Gap(pages, n - 1)) + (if wanted then pages[n - 1].bytes else [])
  }

  predicate TagsWanted(t: Tags, familyId: int) {
    familyId == 0 || (t.familyId != 0 && familyId == t.familyId)
  }

  lemma FlagsHeld(t: Tags)
    ensures !HasFlag(t.Flags(), NOT_MAIN_FLASH)
    ensures HasFlag(t.Flags(), FAMILY_PRESENT) <==> t.familyId != 0
  {
  }

  /** The state of the reader after some blocks of a file of this converter. */
  function ScanOf(pages: seq<Page>, t: Tags, start: int, familyId: int, n: nat): Scan
    requires n <= |pages| && Climbs(pages, n) && t.InRange()
  {
    if n == 0 then Scan(None, None, {}, [], start)
    else
      Scan(Some(pages[n - 1].addr + CHUNK), Some(t.familyId), if t.familyId != 0 then {t.familyId as nat} else {},
           Flat(pages, n, TagsWanted(t, familyId)),
           if familyId == 0 || familyId == t.familyId then pages[0].addr else start)
  }

  lemma TakeOne(pages: seq<Page>, t: Tags, start: int, familyId: int, n: nat)
    requires n < |pages| && AllFit(pages, t, |pages|) && Climbs(pages, n) && t.InRange()
    ensures var r := Take(ScanOf(pages, t, start, familyId, n), BlockOf(pages[n], n, |pages|, t), familyId);
      if Climbs(pages, n + 1) then r == Ok(ScanOf(pages, t, start, familyId, n + 1)) else r.Err?
  {
    FlagsHeld(t);
    hide Tags.Flags, Tags.Extension, HasFlag;
    var b := BlockOf(pages[n], n, |pages|, t);
    assert b.flags == t.Flags() && b.size == CHUNK && b.addr == pages[n].addr && b.family == t.familyId;
    assert b.data[..CHUNK] == pages[n].bytes;
    hide BlockOf;
    var s, s' := ScanOf(pages, t, start, familyId, n), Take(ScanOf(pages, t, start, familyId, n), b, familyId);
    var wanted := TagsWanted(t, familyId);
    assert Wanted(b, familyId) == wanted;
    var gap := if n == 0 then 0 else b.addr - s.curr.value;
    assert gap == Gap(pages, n);
    assert Climbs(pages, n + 1) <==> 0 <= gap <= MAX_PADDING && gap % 4 == 0;
    if Climbs(pages, n + 1) {
      assert s'.Ok? && s'.value.outp == s.outp + Zeros(gap) + (if wanted then pages[n].bytes else []);
      assert s'.value.outp == Flat(pages, n + 1, wanted);
      assert s'.value.families == if t.familyId != 0 then {t.familyId as nat} else {};
    }
  }

  lemma StepOne(pages: seq<Page>, t: Tags, start: int, familyId: int, n: nat, last: bool)
    requires n < |pages| && AllFit(pages, t, |pages|) && Climbs(pages, n) && t.InRange()
    ensures var r := Step(ScanOf(pages, t, start, familyId, n), Some(BlockOf(pages[n], n, |pages|, t)), familyId, last);
      if Climbs(pages, n + 1) then r == Ok(ScanOf(pages, t, start, familyId, n + 1)) else r.Err?
  {
    TakeOne(pages, t, start, familyId, n);
    FlagsHeld(t);
    hide Take, Flat, Tags.Flags, Tags.Extension, HasFlag;
    assert BlockOf(pages[n], n, |pages|, t).flags == t.Flags();
    hide BlockOf;
  }

  /** Reading back the blocks of this converter succeeds exactly when their addresses
      climb without too large a gap, and then yields the pages laid out in order. */
  lemma {:induction false} ScanEncoded(pages: seq<Page>, t: Tags, start: int, familyId: int, n: nat)
    requires n <= |pages| && AllFit(pages, t, |pages|) && t.InRange()
    ensures var r := ScanBlocks(Encoded(pages, t, |pages|), start, familyId, n);
      if Climbs(pages, n) then r == Ok(ScanOf(pages, t, start, familyId, n)) else r.Err?
  {
    hide Encoded, BlockAt, Step, ScanOf, BlockOf;
    var buf := Encoded(pages, t, |pages|);
    if n == 0 {
      ScanNone(buf, start, familyId);
      assert ScanOf(pages, t, start, familyId, 0) == Scan(None, None, {}, [], start) by {
        StartOf(pages, t, start, familyId);
      }
    } else {
      ScanEncoded(pages, t, start, familyId, n - 1);
      if Climbs(pages, n - 1) {
        ScanNext(buf, start, familyId, n - 1);
        BlockReadsBack(pages, t, n - 1);
        StepOne(pages, t, start, familyId, n - 1, n == |buf| / BLOCK);
      } else {
        assert !Climbs(pages, n);
        ErrorStays(buf, start, familyId, n - 1, n);
      }
    }
  }

  lemma StartOf(pages: seq<Page>, t: Tags, start: int, familyId: int)
    requires t.InRange()
    ensures ScanOf(pages, t, start, familyId, 0) == Scan(None, None, {}, [], start)
  {
  }

  // ----- Bad blocks -----

  /** A block without the magic numbers ends the conversion, wherever it is, with an
      error of its own unless an earlier block already ended it. */
  lemma BadMagicEnds(buf: seq<Byte>, start: int, familyId: int, n: nat)
    requires n < |buf| / BLOCK && BlockAt(buf, n) == None
    ensures var before, r := ScanBlocks(buf, start, familyId, n), ScanBlocks(buf, start, familyId, |buf| / BLOCK);
      r == if before.Ok? then Err(BadMagic) else before
  {
    hide BlockAt;
    if ScanBlocks(buf, start, familyId, n).Ok? {
      ScanNext(buf, start, familyId, n);
      ErrorStays(buf, start, familyId, n + 1, |buf| / BLOCK);
    } else {
      ErrorStays(buf, start, familyId, n, |buf| / BLOCK);
    }
  }

  /** A good file behind one block of zeros: the file alone is converted, the two
      together are not. */
  lemma ZerosBeforeFile(file: seq<Byte>, base: int, t: Tags, start: int, familyId: int)
    requires AllFit(PagesOf(file, base), t, |PagesOf(file, base)|)
    ensures var pages := PagesOf(file, base);
      var good := Encoded(pages, t, |pages|);
      && ScanBlocks(good, start, familyId, |pages|).Ok?
      && ScanBlocks(Zeros(BLOCK) + good, start, familyId, |pages| + 1) == Err(BadMagic)
  {
    hide Encoded, BlockAt, ScanBlocks;
    RoundTrip(file, base, t, start, familyId);
    var pages := PagesOf(file, base);
    var buf := Zeros(BLOCK) + Encoded(pages, t, |pages|);
    NoBlock(buf);
    ScanNone(buf, start, familyId);
    BadMagicEnds(buf, start, familyId, 0);
  }

  lemma NoBlock(buf: seq<Byte>)
    requires |buf| >= BLOCK && buf[..BLOCK] == Zeros(BLOCK)
    ensures BlockAt(buf, 0) == None
  {
    assert buf[0..BLOCK] == Zeros(BLOCK);
    assert Zeros(BLOCK)[0..4] == Zeros(4);
  }

  // ----- Binary images -----

  function Padding(n: nat): nat {
    (CHUNK - n % CHUNK) % CHUNK
  }

  /** A file filled up with zeros to whole chunks. */
  function Padded(file: seq<Byte>): (p: seq<Byte>)
    ensures |p| % CHUNK == 0 && |p| / CHUNK == (|file| + CHUNK - 1) / CHUNK
  {
    file + Zeros(Padding(|file|))
  }

  function PagesOf(file: seq<Byte>, base: int): (pages: seq<Page>)
    ensures |pages| == |Padded(file)| / CHUNK
    ensures forall i :: 0 <= i < |pages| ==> |pages[i].bytes| == CHUNK && pages[i].addr == base + CHUNK * i
  {
    var p := Padded(file);
    seq(|p| / CHUNK, i requires 0 <= i < |p| / CHUNK => Page(base + CHUNK * i, p[CHUNK * i..CHUNK * i + CHUNK]))
  }

  lemma ClimbsBefore(pages: seq<Page>, n: nat)
    requires 0 < n <= |pages| && Climbs(pages, n)
    ensures Climbs(pages, n - 1)
  {
  }

  lemma PagesTouch(file: seq<Byte>, base: int)
    ensures var pages := PagesOf(file, base);
      && Climbs(pages, |pages|)
      && forall i :: 0 <= i < |pages| ==> Gap(pages, i) == 0
  {
  }

  lemma PageOfFile(file: seq<Byte>, base: int, i: nat)
    requires i < |PagesOf(file, base)|
    ensures CHUNK * i + CHUNK <= |Padded(file)|
    ensures PagesOf(file, base)[i].bytes == Padded(file)[CHUNK * i..CHUNK * i + CHUNK]
  {
  }

  lemma NextChunk(p: seq<Byte>, from: nat, to: nat)
    requires from <= to <= |p|
    ensures (p[..from] + Zeros(0)) + p[from..to] == p[..to]
    ensures [] + Zeros(0) + [] == []
  {
  }

  lemma {:induction false} FlatPages(file: seq<Byte>, base: int, n: nat, wanted: bool)
    requires n <= |PagesOf(file, base)| && CHUNK * n <= |Padded(file)| && Climbs(PagesOf(file, base), n)
    ensures Flat(PagesOf(file, base), n, wanted) == if wanted then Padded(file)[..CHUNK * n] else []
  {
    hide PagesOf, Padded, Climbs, Gap;
    if n > 0 {
      PagesTouch(file, base);
      ClimbsBefore(PagesOf(file, base), n);
      FlatPages(file, base, n - 1, wanted);
      PageOfFile(file, base, n - 1);
      NextChunk(Padded(file), CHUNK * (n - 1), CHUNK * n);
    }
  }

  /** What a file converted with one base and family reads back as, when any family is
      asked for: the file, filled up to whole blocks, if that family or none was asked
      for, and nothing otherwise. */
  lemma RoundTrip(file: seq<Byte>, base: int, t: Tags, start: int, familyId: int)
    requires AllFit(PagesOf(file, base), t, |PagesOf(file, base)|)
    ensures var pages := PagesOf(file, base);
      var r := ScanBlocks(Encoded(pages, t, |pages|), start, familyId, |pages|);
      && r.Ok?
      && r.value.outp == (if TagsWanted(t, familyId) then Padded(file) else [])
      && r.value.start == if file != [] && (familyId == 0 || familyId == t.familyId) then base else start
  {
    var pages := PagesOf(file, base);
    PagesTouch(file, base);
    FlatPages(file, base, |pages|, TagsWanted(t, familyId));
    assert Padded(file)[..CHUNK * |pages|] == Padded(file);
    hide ScanBlocks, Encoded;
    if pages == [] {
      ScanNone(Encoded(pages, t, 0), start, familyId);
    } else {
      assert Fits(pages[0], 0, |pages|, t);
      ScanEncoded(pages, t, start, familyId, |pages|);
    }
  }

  // ----- The converter -----

  class Converter {
    var appStartAddr: int
    var familyId: int

    constructor ()
      ensures appStartAddr == 0x2000 && familyId == 0
    {
      appStartAddr, familyId := 0x2000, 0;
    }

    /** convert_from_uf2 */
    method ConvertFromUf2(buf: seq<Byte>) returns (r: Result<seq<Byte>>)
      modifies this`appStartAddr
      ensures var s := ScanBlocks(buf, old(appStartAddr), familyId, |buf| / BLOCK);
        if s.Ok? then r == Ok(s.value.outp) && appStartAddr == s.value.start
        else r == Err(s.error)
    {
      hide Step, BlockAt, ScanBlocks;
      var numBlocks := |buf| / BLOCK;
      ScanNone(buf, appStartAddr, familyId);
      var curr: Option<int>, currFamily: Option<nat> := None, None;
      var families: set<nat>, outp: seq<Byte> := {}, [];
      for blockNo := 0 to numBlocks
        invariant ScanBlocks(buf, old(appStartAddr), familyId, blockNo)
          == Ok(Scan(curr, currFamily, families, outp, appStartAddr))
      {
        ScanNext(buf, old(appStartAddr), familyId, blockNo);
        var error: Option<Error>;
        error, curr, currFamily, families, outp :=
          StepBlock(BlockAt(buf, blockNo), curr, currFamily, families, outp, blockNo == numBlocks - 1);
        if error != None {
          ErrorStays(buf, old(appStartAddr), familyId, blockNo + 1, numBlocks);
          return Err(error.value);
        }
      }
      return Ok(outp);
    }

    /** The body of the loop of convert_from_uf2. */
    method StepBlock(block: Option<Block>, curr: Option<int>, currFamily: Option<nat>, families: set<nat>,
                     outp: seq<Byte>, last: bool)
      returns (error: Option<Error>, curr': Option<int>, currFamily': Option<nat>, families': set<nat>,
               outp': seq<Byte>)
      requires block.Some? ==> |block.value.data| == DATA
      modifies this`appStartAddr
      ensures Step(Scan(curr, currFamily, families, outp, old(appStartAddr)), block, familyId, last)
        == if error == None then Ok(Scan(curr', currFamily', families', outp', appStartAddr)) else Err(error.value)
    {
      hide Take, HasFlag;
      error, curr', currFamily', families', outp' := None, curr, currFamily, families, outp;
      if block == None {
        error := Some(BadMagic);
        return;
      }
      if HasFlag(block.value.flags, NOT_MAIN_FLASH) {
        return;
      }
      error, curr', currFamily', families', outp' := TakeBlock(block.value, curr, currFamily, families, outp);
      if error == None && last {
        if |families'| > 1 && familyId == 0 {
          outp' := [];
          appStartAddr := 0;
        }
      }
    }

    /** The part of the loop of convert_from_uf2 that handles a block to be flashed. */
    method TakeBlock(b: Block, curr: Option<int>, currFamily: Option<nat>, families: set<nat>, outp: seq<Byte>)
      returns (error: Option<Error>, curr': Option<int>, currFamily': Option<nat>, families': set<nat>,
               outp': seq<Byte>)
      requires |b.data| == DATA
      modifies this`appStartAddr
      ensures Take(Scan(curr, currFamily, families, outp, old(appStartAddr)), b, familyId)
        == if error == None then Ok(Scan(curr', currFamily', families', outp', appStartAddr)) else Err(error.value)
    {
      curr', currFamily', families', outp' := curr, currFamily, families, outp;
      if b.size > DATA {
        error := Some(BadSize);
        return;
      }
      var tagged := HasFlag(b.flags, FAMILY_PRESENT);
      if tagged && currFamily' == None {
        currFamily' := Some(b.family);
      }
      if curr' == None || (tagged && Some(b.family) != currFamily') {
        currFamily' := Some(b.family);
        curr' := Some(b.addr);
        if familyId == 0 || familyId == b.family {
          appStartAddr := b.addr;
        }
      }
      var padding := b.addr - curr'.value;
      if padding < 0 {
        error := Some(OutOfOrder);
        return;
      }
      if padding > MAX_PADDING {
        error := Some(TooMuchPadding);
        return;
      }
      if padding % 4 != 0 {
        error := Some(OddPadding);
        return;
      }
      outp' := Pad(outp', padding);
      assert outp' + [] == outp';
      if familyId == 0 || (tagged && familyId == b.family) {
        outp' := outp' + b.data[..b.size];
      }
      curr' := Some(b.addr + b.size);
      if tagged {
        families' := families' + {b.family};
      }
      error := None;
    }

    method Pad(outp: seq<Byte>, gap: nat) returns (outp': seq<Byte>)
      requires gap % 4 == 0
      ensures outp' == outp + Zeros(gap)
    {
      var padding: int := gap;
      outp' := outp;
      while padding > 0
        invariant 0 <= padding <= gap && padding % 4 == 0
        invariant outp' == outp + Zeros(gap - padding)
      {
        padding := padding - 4;
        outp' := outp' + [0, 0, 0, 0];
      }
    }

    /** convert_to_uf2 */
    method ConvertToUf2(file: seq<Byte>) returns (r: Result<seq<Byte>>)
      ensures var pages, t := PagesOf(file, appStartAddr), Tags(familyId, 0);
        if AllFit(pages, t, |pages|) then r == Ok(Encoded(pages, t, |pages|)) else r == Err(OutOfRange)
    {
      hide BlockOf, Block.Serialize;
      var numBlocks := (|file| + 255) / 256;
      var t := Tags(familyId, 0);
      ghost var pages := PagesOf(file, appStartAddr);
      var outp: seq<Byte> := [];
      for blockNo := 0 to numBlocks
        invariant AllFit(pages, t, blockNo) && outp == Encoded(pages, t, blockNo)
      {
        var ptr := 256 * blockNo;
        var page := Page(ptr + appStartAddr, Chunk(file, blockNo));
        assert page == pages[blockNo];
        if !Fits(page, blockNo, numBlocks, t) {
          return Err(OutOfRange);
        }
        outp := outp + BlockOf(page, blockNo, numBlocks, t).Serialize();
      }
      return Ok(outp);
    }
  }

  /** A chunk of a file, the last one filled up with zeros. */
  function Chunk(file: seq<Byte>, i: nat): (c: seq<Byte>)
    requires CHUNK * i < |file|
    ensures |c| == CHUNK && c == Padded(file)[CHUNK * i..CHUNK * i + CHUNK]
  {
    var end := if CHUNK * i + CHUNK <= |file| then CHUNK * i + CHUNK else |file|;
    var c := file[CHUNK * i..end];
    assert CHUNK * i + CHUNK <= |Padded(file)|;
    c + Zeros(CHUNK - |c|)
  }
}
