/** Reading UF2 files of any origin: blocks that are not for the main flash, payloads of any
    size, and several families in one file.  What is accepted, and the image that comes out,
    are told from the list of the blocks to be flashed. */
module Uf2Families {
  import opened ByteData
  import opened Uf2Block
  import opened Uf2

  // ----- The blocks of a file -----

  /** The first `n` blocks all have their magic numbers. */
  predicate Readable(buf: seq<Byte>, n: nat)
    requires BLOCK * n <= |buf|
  {
    forall i :: 0 <= i < n ==> BlockAt(buf, i).Some?
  }

  /** The blocks among the first `n` that are to be flashed. */
  function Flashed(buf: seq<Byte>, n: nat): (bs: seq<Block>)
    requires BLOCK * n <= |buf| && Readable(buf, n)
    ensures forall k :: 0 <= k < |bs| ==> |bs[k].data| == DATA
  {
    if n == 0 then []
    else
      var b := BlockAt(buf, n - 1).value;
      Flashed(buf, n - 1) + if Skipped(b) then [] else [b]
  }

  predicate Tagged(b: Block) {
    b.flags / 0x2000 % 2 == 1
  }

  predicate Skipped(b: Block) {
    b.flags % 2 == 1
  }

  predicate Asked(b: Block, familyId: int) {
    familyId == 0 || (Tagged(b) && b.family == familyId)
  }

  /** The block that last set the current family: the first one, or a tagged one. */
  function Setter(bs: seq<Block>, k: nat): (j: nat)
    requires k < |bs|
    ensures j <= k && (j == 0 || Tagged(bs[j]))
    ensures forall i :: j < i <= k ==> !Tagged(bs[i])
  {
    if k == 0 || Tagged(bs[k]) then k else Setter(bs, k - 1)
  }

  /** A new run of addresses begins at the first block and where the family changes. */
  predicate Begins(bs: seq<Block>, k: nat)
    requires k < |bs|
  {
    k == 0 || (Tagged(bs[k]) && bs[k].family != bs[Setter(bs, k - 1)].family)
  }

  /** The room between a block and the end of the payload before it. */
  function Room(bs: seq<Block>, k: nat): int
    requires k < |bs|
  {
    if Begins(bs, k) then 0 else bs[k].addr - (bs[k - 1].addr + bs[k - 1].size)
  }

  /** What is wrong with a block, if anything. */
  function Fault(bs: seq<Block>, k: nat): Option<Error>
    requires k < |bs|
  {
    if bs[k].size > DATA then Some(BadSize)
    else if Room(bs, k) < 0 then Some(OutOfOrder)
    else if Room(bs, k) > MAX_PADDING then Some(TooMuchPadding)
    else if Room(bs, k) % 4 != 0 then Some(OddPadding)
    else None
  }

  predicate Faultless(bs: seq<Block>, n: nat)
    requires n <= |bs|
  {
    forall k :: 0 <= k < n ==> Fault(bs, k) == None
  }

  /** The payloads asked for, behind the room that every block leaves. */
  function Image(bs: seq<Block>, n: nat, familyId: int): seq<Byte>
    requires n <= |bs| && Faultless(bs, n)
    requires forall k :: 0 <= k < |bs| ==> |bs[k].data| == DATA
  {
    if n == 0 then []
    else
      assert Fault(bs, n - 1) == None;
      var b := bs[n - 1];
      Image(bs, n - 1, familyId) + Zeros(Room(bs, n - 1)) + (if Asked(b, familyId) then b.data[..b.size] else [])
  }

  /** The address of the last run of the family asked for, or the one from before. */
  function Origin(bs: seq<Block>, n: nat, familyId: int, start: int): int
    requires n <= |bs|
  {
    if n == 0 then start
    else if Begins(bs, n - 1) && (familyId == 0 || familyId == bs[n - 1].family) then bs[n - 1].addr
    else Origin(bs, n - 1, familyId, start)
  }

  function Families(bs: seq<Block>): set<nat> {
    set b <- bs | Tagged(b) :: b.family
  }

  /** Several families, none of them asked for: nothing comes out, if the last block of the
      file is to be flashed. */
  predicate Ambiguous(buf: seq<Byte>, n: nat, familyId: int)
    requires BLOCK * n <= |buf| && Readable(buf, n)
  {
    && familyId == 0 && |Families(Flashed(buf, n))| > 1
    && n > 0 && n == |buf| / BLOCK && !Skipped(BlockAt(buf, n - 1).value)
  }

  // ----- The reader -----

  /** The state of the reader behind some faultless blocks. */
  function After(bs: seq<Block>, familyId: int, start: int): Scan
    requires Faultless(bs, |bs|) && forall k :: 0 <= k < |bs| ==> |bs[k].data| == DATA
  {
    var n := |bs|;
    if n == 0 then Scan(None, None, {}, [], start)
    else
      Scan(Some(bs[n - 1].addr + bs[n - 1].size), Some(bs[Setter(bs, n - 1)].family), Families(bs),
           Image(bs, n, familyId), Origin(bs, n, familyId, start))
  }

  predicate Sized(bs: seq<Block>) {
    forall k :: 0 <= k < |bs| ==> |bs[k].data| == DATA
  }

  /** One more block changes nothing about those before it. */
  lemma {:induction false} SetterAppend(bs: seq<Block>, b: Block, k: nat)
    requires k < |bs|
    ensures Setter(bs + [b], k) == Setter(bs, k)
  {
    if k > 0 && !Tagged(bs[k]) {
      SetterAppend(bs, b, k - 1);
    }
  }

  lemma FaultAppend(bs: seq<Block>, b: Block, k: nat)
    requires k < |bs|
    ensures var bs' := bs + [b];
      && Begins(bs', k) == Begins(bs, k) && Room(bs', k) == Room(bs, k) && Fault(bs', k) == Fault(bs, k)
  {
    hide Tagged, Setter;
    if k > 0 {
      SetterAppend(bs, b, k - 1);
    }
  }

  lemma FaultlessAppend(bs: seq<Block>, b: Block, n: nat)
    requires n <= |bs|
    ensures Faultless(bs + [b], n) <==> Faultless(bs, n)
  {
    hide Fault;
    forall k | 0 <= k < n
      ensures Fault(bs + [b], k) == Fault(bs, k)
    {
      FaultAppend(bs, b, k);
    }
  }

  lemma {:induction false} ImageAppend(bs: seq<Block>, b: Block, n: nat, familyId: int)
    requires n <= |bs| && Faultless(bs, n) && Faultless(bs + [b], n) && Sized(bs) && Sized(bs + [b])
    ensures Image(bs + [b], n, familyId) == Image(bs, n, familyId)
  {
    if n > 0 {
      FaultAppend(bs, b, n - 1);
      assert Fault(bs, n - 1) == None;
      hide Room, Fault, Faultless, Asked, Zeros;
      assert (bs + [b])[n - 1] == bs[n - 1];
      FaultlessBefore(bs, n);
      FaultlessBefore(bs + [b], n);
      ImageAppend(bs, b, n - 1, familyId);
    }
  }

  lemma FaultlessBefore(bs: seq<Block>, n: nat)
    requires 0 < n <= |bs| && Faultless(bs, n)
    ensures Faultless(bs, n - 1)
  {
  }

  lemma {:induction false} OriginAppend(bs: seq<Block>, b: Block, n: nat, familyId: int, start: int)
    requires n <= |bs|
    ensures Origin(bs + [b], n, familyId, start) == Origin(bs, n, familyId, start)
  {
    if n > 0 {
      FaultAppend(bs, b, n - 1);
      hide Begins, Room, Fault;
      assert (bs + [b])[n - 1] == bs[n - 1];
      OriginAppend(bs, b, n - 1, familyId, start);
    }
  }

  lemma FamiliesAppend(bs: seq<Block>, b: Block)
    ensures Families(bs + [b]) == if Tagged(b) then Families(bs) + {b.family} else Families(bs)
  {
    hide Tagged;
    var bs' := bs + [b];
    assert forall x :: x in bs' <==> x in bs || x == b;
  }

  lemma SetterLast(bs: seq<Block>, b: Block)
    ensures var bs', n := bs + [b], |bs|;
      && bs'[n] == b && Setter(bs', n) == (if n == 0 || Tagged(b) then n else Setter(bs', n - 1))
      && (n > 0 ==> Setter(bs', n - 1) == Setter(bs, n - 1) && bs'[Setter(bs, n - 1)] == bs[Setter(bs, n - 1)])
  {
    if |bs| > 0 {
      SetterAppend(bs, b, |bs| - 1);
    }
  }

  /** What is new with one more block. */
  lemma LastBlock(bs: seq<Block>, b: Block)
    ensures var bs', n := bs + [b], |bs|;
      && Begins(bs', n) == (n == 0 || (Tagged(b) && b.family != bs[Setter(bs, n - 1)].family))
      && Room(bs', n) == (if Begins(bs', n) then 0 else b.addr - (bs[n - 1].addr + bs[n - 1].size))
      && bs'[Setter(bs', n)].family == if Begins(bs', n) then b.family else bs[Setter(bs, n - 1)].family
  {
    hide Tagged, Setter;
    SetterLast(bs, b);
    assert |bs| > 0 ==> (bs + [b])[|bs| - 1] == bs[|bs| - 1];
  }

  lemma AfterNext(bs: seq<Block>, b: Block, familyId: int, start: int)
    requires Faultless(bs, |bs|) && Sized(bs) && |b.data| == DATA && Fault(bs + [b], |bs|) == None
    ensures Faultless(bs + [b], |bs| + 1)
    ensures var s, bs', n := After(bs, familyId, start), bs + [b], |bs|;
      After(bs', familyId, start)
      == Scan(Some(b.addr + b.size), Some(bs'[Setter(bs', n)].family),
              if Tagged(b) then s.families + {b.family} else s.families,
              s.outp + Zeros(Room(bs', n)) + (if Asked(b, familyId) then b.data[..b.size] else []),
              if Begins(bs', n) && (familyId == 0 || familyId == b.family) then b.addr else s.start)
  {
    var bs', n := bs + [b], |bs|;
    FaultlessAppend(bs, b, n);
    assert Faultless(bs', n + 1);
    ImageAppend(bs, b, n, familyId);
    OriginAppend(bs, b, n, familyId, start);
    FamiliesAppend(bs, b);
    hide Families, Tagged, Begins, Setter, Asked, Room, Zeros;
    assert bs'[n] == b;
    assert n == 0 ==> Families(bs) == {} by {
      NoFamilies(bs);
    }
  }

  lemma NoFamilies(bs: seq<Block>)
    ensures bs == [] ==> Families(bs) == {}
  {
  }

  /** Take, told by the start of a run and the room. */
  lemma TakeIs(s: Scan, b: Block, familyId: int, begins: bool, room: int)
    requires |b.data| == DATA && (s.curr == None <==> s.currFamily == None)
    requires begins == (s.curr == None || (Tagged(b) && Some(b.family) != s.currFamily))
    requires room == if begins then 0 else b.addr - s.curr.value
    ensures Take(s, b, familyId)
         == if b.size > DATA then Err(BadSize)
            else if room < 0 then Err(OutOfOrder)
            else if room > MAX_PADDING then Err(TooMuchPadding)
            else if room % 4 != 0 then Err(OddPadding)
            else
              Ok(Scan(Some(b.addr + b.size), if begins then Some(b.family) else s.currFamily,
                      if Tagged(b) then s.families + {b.family} else s.families,
                      s.outp + Zeros(room) + (if Asked(b, familyId) then b.data[..b.size] else []),
                      if begins && (familyId == 0 || familyId == b.family) then b.addr else s.start))
  {
    hide Zeros;
  }

  /** Taking a block is right when there is nothing wrong with it. */
  lemma TakeNext(bs: seq<Block>, b: Block, familyId: int, start: int)
    requires Faultless(bs, |bs|) && Sized(bs) && |b.data| == DATA
    ensures var bs', r := bs + [b], Take(After(bs, familyId, start), b, familyId);
      match Fault(bs', |bs|)
      case Some(error) => r == Err(error)
      case None => Faultless(bs', |bs'|) && r == Ok(After(bs', familyId, start))
  {
    hide Tagged, Families, Setter, Begins, Room, Image, Origin, Zeros, Faultless, Take, Asked;
    LastBlock(bs, b);
    TakeIs(After(bs, familyId, start), b, familyId, Begins(bs + [b], |bs|), Room(bs + [b], |bs|));
    if Fault(bs + [b], |bs|) == None {
      AfterNext(bs, b, familyId, start);
      hide After;
    }
  }

  // ----- Whole files -----

  /** The first fault of some blocks. */
  ghost predicate FailsWith(bs: seq<Block>, error: Error) {
    exists k :: 0 <= k < |bs| && Faultless(bs, k) && Fault(bs, k) == Some(error)
  }

  lemma FailsAppend(bs: seq<Block>, b: Block, error: Error)
    requires FailsWith(bs, error)
    ensures FailsWith(bs + [b], error) && !Faultless(bs + [b], |bs| + 1)
  {
    var k :| 0 <= k < |bs| && Faultless(bs, k) && Fault(bs, k) == Some(error);
    FaultlessAppend(bs, b, k);
    FaultAppend(bs, b, k);
  }

  /** What the reader makes of the first `n` blocks, all readable. */
  ghost predicate ReadAs(buf: seq<Byte>, n: nat, familyId: int, start: int, r: Result<Scan>)
    requires BLOCK * n <= |buf| && Readable(buf, n)
  {
    var bs := Flashed(buf, n);
    if Faultless(bs, |bs|) then
      r == Ok(if Ambiguous(buf, n, familyId) then After(bs, familyId, start).(outp := [], start := 0)
              else After(bs, familyId, start))
    else r.Err? && FailsWith(bs, r.error)
  }

  lemma NextFlashed(buf: seq<Byte>, n: nat)
    requires 0 < n && BLOCK * n <= |buf| && Readable(buf, n)
    ensures Readable(buf, n - 1)
    ensures var b := BlockAt(buf, n - 1).value;
      Flashed(buf, n) == Flashed(buf, n - 1) + if Skipped(b) then [] else [b]
  {
    hide BlockAt, Skipped;
  }

  /** Taking the last block of a file, the image of several families is given up. */
  lemma TakeFinished(buf: seq<Byte>, familyId: int, start: int, n: nat)
    requires 0 < n && BLOCK * n <= |buf| && Readable(buf, n)
    requires Faultless(Flashed(buf, n - 1), |Flashed(buf, n - 1)|)
    ensures var s := After(Flashed(buf, n - 1), familyId, start);
      ReadAs(buf, n, familyId, start, Step(s, BlockAt(buf, n - 1), familyId, n == |buf| / BLOCK))
  {
    hide BlockAt, Take, Flashed, Faultless, Families, Fault, Begins, Room, Image, Origin, Setter;
    NextFlashed(buf, n);
    var bs, b := Flashed(buf, n - 1), BlockAt(buf, n - 1).value;
    if Skipped(b) {
      assert bs + [] == bs;
    } else {
      TakeNext(bs, b, familyId, start);
      LastFault(bs, b);
    }
  }

  lemma LastFault(bs: seq<Block>, b: Block)
    requires Faultless(bs, |bs|)
    ensures Fault(bs + [b], |bs|).Some? ==>
              FailsWith(bs + [b], Fault(bs + [b], |bs|).value) && !Faultless(bs + [b], |bs| + 1)
  {
    hide Fault;
    FaultlessAppend(bs, b, |bs|);
  }

  /** Behind a faulty block nothing changes. */
  lemma FaultyBefore(buf: seq<Byte>, familyId: int, start: int, n: nat, r: Result<Scan>)
    requires 0 < n && BLOCK * n <= |buf| && Readable(buf, n)
    requires r.Err? && FailsWith(Flashed(buf, n - 1), r.error)
    ensures ReadAs(buf, n, familyId, start, r)
  {
    hide BlockAt, Skipped, After, FailsWith, Flashed, Faultless;
    NextFlashed(buf, n);
    var bs, b := Flashed(buf, n - 1), BlockAt(buf, n - 1).value;
    FailsAppend(bs, b, r.error);
    FailsFaulty(bs, r.error);
    assert bs + [] == bs;
  }

  lemma FailsFaulty(bs: seq<Block>, error: Error)
    requires FailsWith(bs, error)
    ensures !Faultless(bs, |bs|)
  {
  }

  /** What is known of a block before the last one. */
  lemma ReadBefore(buf: seq<Byte>, familyId: int, start: int, n: nat, r: Result<Scan>)
    requires BLOCK * (n + 1) <= |buf| && Readable(buf, n) && ReadAs(buf, n, familyId, start, r)
    ensures var bs := Flashed(buf, n);
      if Faultless(bs, |bs|) then r == Ok(After(bs, familyId, start)) else r.Err? && FailsWith(bs, r.error)
  {
    hide Flashed, Faultless, After, FailsWith, Families;
  }

  lemma NothingRead(buf: seq<Byte>, start: int, familyId: int)
    ensures ReadAs(buf, 0, familyId, start, ScanBlocks(buf, start, familyId, 0))
  {
    ScanNone(buf, start, familyId);
  }

  lemma ReadNext(buf: seq<Byte>, start: int, familyId: int, n: nat)
    requires 0 < n && BLOCK * n <= |buf| && Readable(buf, n) && Readable(buf, n - 1)
    requires ReadAs(buf, n - 1, familyId, start, ScanBlocks(buf, start, familyId, n - 1))
    ensures ReadAs(buf, n, familyId, start, ScanBlocks(buf, start, familyId, n))
  {
    hide *;
    var r := ScanBlocks(buf, start, familyId, n - 1);
    ReadBefore(buf, familyId, start, n - 1, r);
    if r.Ok? {
      ScanNext(buf, start, familyId, n - 1);
      TakeFinished(buf, familyId, start, n);
    } else {
      ErrorStays(buf, start, familyId, n - 1, n);
      FaultyBefore(buf, familyId, start, n, r);
    }
  }

  lemma {:induction false} ScanFlashed(buf: seq<Byte>, start: int, familyId: int, n: nat)
    requires BLOCK * n <= |buf| && Readable(buf, n)
    ensures ReadAs(buf, n, familyId, start, ScanBlocks(buf, start, familyId, n))
  {
    hide *;
    if n == 0 {
      NothingRead(buf, start, familyId);
    } else {
      NextFlashed(buf, n);
      ScanFlashed(buf, start, familyId, n - 1);
      ReadNext(buf, start, familyId, n);
    }
  }

  /** Any file whose blocks have their magic numbers: it is converted exactly when no block
      to be flashed is at fault, and otherwise the first fault is the error.  What comes out
      are the payloads of the family asked for, each behind the room its block leaves, and
      nothing at all for an image of several families when none was asked for. */
  lemma AnyFile(buf: seq<Byte>, start: int, familyId: int)
    requires Readable(buf, |buf| / BLOCK)
    ensures var n := |buf| / BLOCK;
      var r, bs := ScanBlocks(buf, start, familyId, n), Flashed(buf, n);
      if Faultless(bs, |bs|) then
        && r.Ok?
        && r.value.outp == (if Ambiguous(buf, n, familyId) then [] else Image(bs, |bs|, familyId))
        && r.value.start == if Ambiguous(buf, n, familyId) then 0 else Origin(bs, |bs|, familyId, start)
      else r.Err? && FailsWith(bs, r.error)
  {
    hide Readable, Faultless, Ambiguous, FailsWith, ScanBlocks, Flashed, Families, Setter, Begins, Room, Fault;
    ScanFlashed(buf, start, familyId, |buf| / BLOCK);
  }

  // ----- One family out of several -----

  /** The payloads asked for, and nothing else. */
  function Payloads(bs: seq<Block>, n: nat, familyId: int): seq<Byte>
    requires n <= |bs| && Faultless(bs, n) && Sized(bs)
  {
    if n == 0 then []
    else
      assert Fault(bs, n - 1) == None;
      Payloads(bs, n - 1, familyId)
      + if Asked(bs[n - 1], familyId) then bs[n - 1].data[..bs[n - 1].size] else []
  }

  /** How much room the blocks leave, whichever family they belong to. */
  function TotalRoom(bs: seq<Block>, n: nat): nat
    requires n <= |bs| && Faultless(bs, n)
  {
    if n == 0 then 0
    else
      assert Fault(bs, n - 1) == None;
      TotalRoom(bs, n - 1) + Room(bs, n - 1)
  }

  /** The image is exactly the payloads of the family when the blocks of the file leave no
      room, and only then: the room in front of blocks of other families counts too. */
  lemma {:induction false} ExactlyPayloads(bs: seq<Block>, n: nat, familyId: int)
    requires n <= |bs| && Faultless(bs, n) && Sized(bs)
    ensures |Image(bs, n, familyId)| == |Payloads(bs, n, familyId)| + TotalRoom(bs, n)
    ensures Image(bs, n, familyId) == Payloads(bs, n, familyId) <==> TotalRoom(bs, n) == 0
  {
    if n > 0 {
      assert Fault(bs, n - 1) == None;
      hide Room, Fault, Asked;
      ExactlyPayloads(bs, n - 1, familyId);
      if TotalRoom(bs, n) == 0 {
        assert Zeros(0) == [];
      }
    }
  }
}
