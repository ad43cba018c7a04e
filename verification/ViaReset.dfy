/** Re-initialisation of the persistent data (via.c).  The magic number, derived
    from the build date, says whether the data can be trusted.  It is erased
    before anything else is written and written after everything else, so a
    power cut in between leaves data that is known to be bad. */
module ViaReset {
  import opened ByteData
  import opened Eeprom
  import opened KeymapLayout
  import opened Keymap

  // ----- The magic number -----

  predicate Digit(c: char) {
    '0' <= c <= '9'
  }

  /** A build date such as "2019-11-05-11:29:54". */
  predicate BuildDate(date: string) {
    && |date| >= 10
    && Digit(date[2]) && Digit(date[3]) && Digit(date[5]) && Digit(date[6]) && Digit(date[8]) && Digit(date[9])
  }

  /** Two digits packed into a byte: ((a & 0x0F) << 4) | (b & 0x0F). */
  function Packed(a: char, b: char): (m: Byte) {
    (a as int % 16) * 16 + b as int % 16
  }

  function Magic(date: string): (m: seq<Byte>)
    requires BuildDate(date)
    ensures |m| == 3
    ensures forall i :: 0 <= i < 3 ==> m[i] != 0xFF
  {
    [Packed(date[2], date[3]), Packed(date[5], date[6]), Packed(date[8], date[9])]
  }

  const ERASED: seq<Byte> := [0xFF, 0xFF, 0xFF]

  predicate MagicValid(l: Layout, date: string, mem: seq<Byte>)
    requires l.Valid(|mem|) && BuildDate(date)
  {
    mem[l.magicAddr..l.magicAddr + 3] == Magic(date)
  }

  // ----- Layout options -----

  function Options(s: seq<Byte>): nat {
    BigEndian(s)
  }

  /** The writes of via_set_layout_options: least significant byte first, downwards. */
  function OptionsWrites(addr: nat, size: nat, value: nat): (ws: seq<Write>)
    ensures |ws| == size
    ensures Inside(ws, addr, addr + size)
  {
    if size == 0 then []
    else [Write(addr + size - 1, value % 256)] + OptionsWrites(addr, size - 1, value / 256)
  }

  lemma ReplayFirst(mem: seq<Byte>, w: Write, ws: seq<Write>)
    requires w.addr < |mem| && Fits(|mem|, ws)
    ensures Fits(|mem|, [w] + ws) && Replay(mem, [w] + ws) == Replay(mem[w.addr := w.value], ws)
  {
    ReplayConcat(mem, [w], ws);
    assert [w][..0] == [];
    assert Replay(mem, [w]) == mem[w.addr := w.value];
  }

  /** They store the value most significant byte first. */
  lemma {:induction false} OptionsStored(mem: seq<Byte>, addr: nat, size: nat, value: nat)
    requires addr + size <= |mem|
    ensures Replay(mem, OptionsWrites(addr, size, value)) == FlatWrite(mem, addr, AddressBytes(value, size))
    decreases size
  {
    if size == 0 {
      assert FlatWrite(mem, addr, []) == mem;
    } else {
      assert AddressBytes(value, size) == AddressBytes(value / 256, size - 1) + [value % 256];
      var first := Write(addr + size - 1, value % 256);
      var mem1 := mem[addr + size - 1 := value % 256];
      ReplayFirst(mem, first, OptionsWrites(addr, size - 1, value / 256));
      OptionsStored(mem1, addr, size - 1, value / 256);
      var high := AddressBytes(value / 256, size - 1);
      hide Replay, AddressBytes, OptionsWrites;
      assert FlatWrite(mem1, addr, high) == FlatWrite(mem, addr, high + [value % 256]);
    }
  }

  /** Options read back as they were written, truncated to their width. */
  lemma OptionsReadBack(mem: seq<Byte>, addr: nat, size: nat, value: nat)
    requires addr + size <= |mem|
    ensures Options(Replay(mem, OptionsWrites(addr, size, value))[addr..addr + size]) == value % Pow256(size)
  {
    OptionsStored(mem, addr, size, value);
    AddressTruncates(value, size);
    assert FlatWrite(mem, addr, AddressBytes(value, size))[addr..addr + size] == AddressBytes(value, size);
  }

  // ----- All writes of eeconfig_init_via -----

  /** Everything between erasing and writing the magic number. */
  function BodyWrites(l: Layout, f: Flash, defaults: nat): seq<Write>
    requires l.MacroAddr() <= l.maxAddr
  {
    OptionsWrites(l.OptionsAddr(), l.optionsSize, defaults)
    + ResetWrites(l, f, l.layers)
    + BlockWrites(l.MacroAddr(), Zeros(l.MacroSize()))
  }

  function InitWrites(l: Layout, f: Flash, defaults: nat, date: string): seq<Write>
    requires l.MacroAddr() <= l.maxAddr && BuildDate(date)
  {
    BlockWrites(l.magicAddr, ERASED) + BodyWrites(l, f, defaults) + BlockWrites(l.magicAddr, Magic(date))
  }

  lemma BodyInside(l: Layout, f: Flash, defaults: nat, size: nat)
    requires l.Valid(size)
    ensures Inside(BodyWrites(l, f, defaults), l.OptionsAddr(), l.maxAddr + 1)
  {
    ResetInside(l, f, l.layers);
    var a, b := OptionsWrites(l.OptionsAddr(), l.optionsSize, defaults), ResetWrites(l, f, l.layers);
    var low, high := l.OptionsAddr(), l.maxAddr + 1;
    BlockInside(l.MacroAddr(), Zeros(l.MacroSize()), low, high);
    InsideConcat(a, b, low, high);
    InsideConcat(a + b, BlockWrites(l.MacroAddr(), Zeros(l.MacroSize())), low, high);
  }

  lemma InitInside(l: Layout, f: Flash, defaults: nat, date: string, size: nat)
    requires l.Valid(size) && BuildDate(date)
    ensures Inside(InitWrites(l, f, defaults, date), l.magicAddr, l.maxAddr + 1)
  {
    BodyInside(l, f, defaults, size);
    var low, high := l.magicAddr, l.maxAddr + 1;
    var a, b, c := BlockWrites(l.magicAddr, ERASED), BodyWrites(l, f, defaults), BlockWrites(l.magicAddr, Magic(date));
    hide BodyWrites;
    InsideConcat(a, b, low, high);
    InsideConcat(a + b, c, low, high);
  }

  // ----- A power cut after any number of byte writes -----

  /** Writes elsewhere leave a region alone. */
  lemma {:induction false} OutsideKept(mem: seq<Byte>, ws: seq<Write>, low: nat, high: nat, from: nat, to: nat)
    requires Fits(|mem|, ws) && Inside(ws, low, high)
    requires from <= to <= |mem| && (to <= low || high <= from)
    ensures Replay(mem, ws)[from..to] == mem[from..to]
  {
    if ws != [] {
      OutsideKept(mem, ws[..|ws| - 1], low, high, from, to);
    }
  }

  /** Memory after a cut: the first `n` writes were made. */
  function AfterCut(mem: seq<Byte>, ws: seq<Write>, n: nat): (m: seq<Byte>)
    requires Fits(|mem|, ws)
    ensures |m| == |mem|
  {
    Replay(mem, ws[..if n < |ws| then n else |ws|])
  }

  /** A byte keeps what was last written to it. */
  lemma {:induction false} LastWriteKept(mem: seq<Byte>, ws: seq<Write>, i: nat, n: nat)
    requires Fits(|mem|, ws) && i < n <= |ws|
    requires forall j :: i < j < n ==> ws[j].addr != ws[i].addr
    ensures Replay(mem, ws[..n])[ws[i].addr] == ws[i].value
  {
    assert ws[..n][..n - 1] == ws[..n - 1];
    if i < n - 1 {
      LastWriteKept(mem, ws, i, n - 1);
    }
  }

  /** Once a single byte has been written, and until the last one is, the magic
      number is invalid; after the last one it is valid. */
  lemma MagicDuringInit(l: Layout, f: Flash, defaults: nat, date: string, mem: seq<Byte>, n: nat)
    requires l.Valid(|mem|) && BuildDate(date)
    requires n <= |InitWrites(l, f, defaults, date)|
    requires Fits(|mem|, InitWrites(l, f, defaults, date))
    ensures var ws := InitWrites(l, f, defaults, date);
      0 < n ==> (MagicValid(l, date, AfterCut(mem, ws, n)) <==> n == |ws|)
  {
    var ws := InitWrites(l, f, defaults, date);
    var m, body := l.magicAddr, BodyWrites(l, f, defaults);
    BodyInside(l, f, defaults, |mem|);
    InitParts(l, f, defaults, date);
    hide BodyWrites, InitWrites, l.OptionsAddr, Replay;
    if n == |ws| {
      LastWriteKept(mem, ws, n - 3, n);
      LastWriteKept(mem, ws, n - 2, n);
      LastWriteKept(mem, ws, n - 1, n);
      assert AfterCut(mem, ws, n)[m..m + 3] == Magic(date);
    } else if 0 < n <= 3 + |body| {
      MagicBroken(l, date, mem, ws, 0, n);
    } else if n > 0 {
      MagicBroken(l, date, mem, ws, 2, n);
    }
  }

  /** A byte of the magic number that was last overwritten with 0xFF spoils it. */
  lemma MagicBroken(l: Layout, date: string, mem: seq<Byte>, ws: seq<Write>, i: nat, n: nat)
    requires l.Valid(|mem|) && BuildDate(date) && Fits(|mem|, ws) && i < 3 && i < n <= |ws|
    requires ws[i] == Write(l.magicAddr + i, 0xFF)
    requires forall j :: i < j < n ==> ws[j].addr != l.magicAddr + i
    ensures !MagicValid(l, date, AfterCut(mem, ws, n))
  {
    LastWriteKept(mem, ws, i, n);
    hide Replay;
    var m, after := l.magicAddr, AfterCut(mem, ws, n);
    assert after[m..m + 3][i] == 0xFF;
  }

  /** The three parts of the initialisation and where they write. */
  lemma InitParts(l: Layout, f: Flash, defaults: nat, date: string)
    requires l.MacroAddr() <= l.maxAddr && BuildDate(date)
    requires Inside(BodyWrites(l, f, defaults), l.OptionsAddr(), l.maxAddr + 1)
    ensures var ws, body := InitWrites(l, f, defaults, date), BodyWrites(l, f, defaults);
      && |ws| == |body| + 6
      && (forall i :: 0 <= i < 3 ==> ws[i] == Write(l.magicAddr + i, 0xFF))
      && (forall i :: 3 <= i < 3 + |body| ==> ws[i].addr >= l.OptionsAddr())
      && (forall i :: 0 <= i < 3 ==> ws[3 + |body| + i] == Write(l.magicAddr + i, Magic(date)[i]))
  {
    hide BodyWrites;
    var ws, body := InitWrites(l, f, defaults, date), BodyWrites(l, f, defaults);
    forall i | 3 <= i < 3 + |body|
      ensures ws[i] == body[i - 3]
    {
    }
  }

  // ----- What the data means -----

  /** The persistent data as the firmware sees it. */
  datatype Content = Content(options: nat, keys: seq<Keycode>, encoders: seq<Keycode>, macros: seq<Byte>)

  function KeyWord(l: Layout, mem: seq<Byte>, i: nat): Keycode
    requires l.Valid(|mem|) && i < l.Slots()
  {
    WordAt(mem, l.KeymapAddr() + 2 * i)
  }

  function EncoderWord(l: Layout, mem: seq<Byte>, i: nat): Keycode
    requires l.Valid(|mem|) && i < l.EncoderSlots()
  {
    WordAt(mem, l.EncoderAddr() + 2 * i)
  }

  function ContentOf(l: Layout, mem: seq<Byte>): Content
    requires l.Valid(|mem|)
  {
    Content(
      Options(mem[l.OptionsAddr()..l.OptionsAddr() + l.optionsSize]),
      seq(l.Slots(), i requires 0 <= i < l.Slots() => KeyWord(l, mem, i)),
      seq(l.EncoderSlots(), i requires 0 <= i < l.EncoderSlots() => EncoderWord(l, mem, i)),
      mem[l.MacroAddr()..l.maxAddr + 1])
  }

  function FlashKey(l: Layout, f: Flash, i: nat): Keycode
    requires i < l.Slots()
  {
    var k := l.SlotKey(i);
    f.key(k.0, k.1, k.2)
  }

  function FlashEncoder(l: Layout, f: Flash, i: nat): Keycode
    requires i < l.EncoderSlots()
  {
    var k := l.EncoderSlotKey(i);
    f.encoder(k.0, k.1, k.2)
  }

  /** Default options, the keymap and encoder map from flash, and no macros. */
  function ResetContent(l: Layout, f: Flash, defaults: nat): Content
    requires l.MacroAddr() <= l.maxAddr
  {
    Content(
      Options(AddressBytes(defaults, l.optionsSize)),
      seq(l.Slots(), i requires 0 <= i < l.Slots() => FlashKey(l, f, i)),
      seq(l.EncoderSlots(), i requires 0 <= i < l.EncoderSlots() => FlashEncoder(l, f, i)),
      Zeros(l.MacroSize()))
  }

  /** Memory in three steps: options, keymap and encoder map, macros. */
  lemma BodySteps(l: Layout, f: Flash, defaults: nat, mem: seq<Byte>)
    requires l.Valid(|mem|)
    ensures Fits(|mem|, BodyWrites(l, f, defaults)) && Fits(|mem|, ResetWrites(l, f, l.layers))
    ensures l.OptionsAddr() + l.optionsSize <= |mem| && l.MacroAddr() + l.MacroSize() <= |mem|
    ensures Replay(mem, BodyWrites(l, f, defaults))
         == var mem1 := FlatWrite(mem, l.OptionsAddr(), AddressBytes(defaults, l.optionsSize));
            FlatWrite(Replay(mem1, ResetWrites(l, f, l.layers)), l.MacroAddr(), Zeros(l.MacroSize()))
  {
    var a, b, c := OptionsWrites(l.OptionsAddr(), l.optionsSize, defaults), ResetWrites(l, f, l.layers),
        BlockWrites(l.MacroAddr(), Zeros(l.MacroSize()));
    ResetFits(l, f, l.layers, |mem|);
    OptionsStored(mem, l.OptionsAddr(), l.optionsSize, defaults);
    hide Replay, FlatWrite, ResetWrites, OptionsWrites, AddressBytes;
    ReplayConcat(mem, a, b);
    ReplayConcat(mem, a + b, c);
    ReplayBlock(Replay(mem, a + b), l.MacroAddr(), Zeros(l.MacroSize()));
  }

  /** A key's place in its layer, and the layer's place in memory. */
  lemma SlotPlace(l: Layout, f: Flash, size: nat, i: nat) returns (layer: nat, j: nat)
    requires l.Valid(size) && i < l.Slots()
    ensures layer < l.layers && j < l.LayerSlots()
    ensures l.KeyAddress(layer, 0, 0) + 2 * j == l.KeymapAddr() + 2 * i
    ensures l.KeymapAddr() + 2 * i + 2 <= l.MacroAddr() < size
    ensures FlashKey(l, f, i) == LayerWords(l, f, layer)[j]
  {
    l.KeyOfSlot(i);
    l.SlotsPositive(i);
    layer, j := i / l.LayerSlots(), i % l.LayerSlots();
    assert FlashKey(l, f, i) == LayerWord(l, f, layer, j);
    assert i == layer * l.LayerSlots() + j;
    LayerRegion(l, layer);
    hide FlashKey, LayerWord, l.SlotKey, l.LayerSlots;
  }

  lemma BodyKeys(l: Layout, f: Flash, defaults: nat, mem: seq<Byte>, i: nat)
    requires l.Valid(|mem|) && i < l.Slots()
    requires Fits(|mem|, BodyWrites(l, f, defaults))
    ensures KeyWord(l, Replay(mem, BodyWrites(l, f, defaults)), i) == FlashKey(l, f, i)
  {
    BodySteps(l, f, defaults, mem);
    var layer, j := SlotPlace(l, f, |mem|, i);
    hide Replay, FlatWrite, ResetWrites, AddressBytes, LayerWords, BodyWrites, FlashKey, l.KeyAddress, l.Valid,
        l.MacroAddr, l.KeymapAddr;
    var mem1 := FlatWrite(mem, l.OptionsAddr(), AddressBytes(defaults, l.optionsSize));
    ResetKeys(l, f, l.layers, mem1, layer, j);
    WordOutsideBlock(Replay(mem1, ResetWrites(l, f, l.layers)), l.MacroAddr(), Zeros(l.MacroSize()),
        l.KeymapAddr() + 2 * i);
  }

  lemma EncoderPlace(l: Layout, f: Flash, size: nat, i: nat) returns (layer: nat, j: nat)
    requires l.Valid(size) && i < l.EncoderSlots()
    ensures layer < l.layers && j < 2 * l.encoders
    ensures l.EncoderAddress(layer, 0, true) + 2 * j == l.EncoderAddr() + 2 * i
    ensures l.EncoderAddr() + 2 * i + 2 <= l.MacroAddr() < size
    ensures FlashEncoder(l, f, i) == EncoderWords(l, f, layer)[j]
  {
    l.KeyOfEncoderSlot(i);
    layer := l.EncoderSlotKey(i).0;
    j := i - layer * (2 * l.encoders);
    LayerRegion(l, layer);
  }

  lemma BodyEncoders(l: Layout, f: Flash, defaults: nat, mem: seq<Byte>, i: nat)
    requires l.Valid(|mem|) && i < l.EncoderSlots()
    requires Fits(|mem|, BodyWrites(l, f, defaults))
    ensures EncoderWord(l, Replay(mem, BodyWrites(l, f, defaults)), i) == FlashEncoder(l, f, i)
  {
    BodySteps(l, f, defaults, mem);
    var layer, j := EncoderPlace(l, f, |mem|, i);
    hide Replay, FlatWrite, ResetWrites, AddressBytes, EncoderWords, BodyWrites, FlashEncoder, l.EncoderAddress,
        l.Valid, l.MacroAddr, l.EncoderAddr;
    var mem1 := FlatWrite(mem, l.OptionsAddr(), AddressBytes(defaults, l.optionsSize));
    ResetEncoderKeys(l, f, l.layers, mem1, layer, j);
    WordOutsideBlock(Replay(mem1, ResetWrites(l, f, l.layers)), l.MacroAddr(), Zeros(l.MacroSize()),
        l.EncoderAddr() + 2 * i);
  }

  /** The whole initialisation leaves exactly the reset content, whatever was there before. */
  lemma InitContent(l: Layout, f: Flash, defaults: nat, date: string, mem: seq<Byte>)
    requires l.Valid(|mem|) && BuildDate(date)
    ensures Fits(|mem|, InitWrites(l, f, defaults, date))
    ensures ContentOf(l, Replay(mem, InitWrites(l, f, defaults, date))) == ResetContent(l, f, defaults)
  {
    InitInside(l, f, defaults, date, |mem|);
    BodyInside(l, f, defaults, |mem|);
    var a, b, c := BlockWrites(l.magicAddr, ERASED), BodyWrites(l, f, defaults), BlockWrites(l.magicAddr, Magic(date));
    ReplayConcat(mem, a, b);
    ReplayConcat(mem, a + b, c);
    var mem1 := Replay(mem, a);
    BodyContent(l, f, defaults, mem1);
    MagicKeepsContent(l, date, Replay(mem1, b));
  }

  /** Writing the magic number changes no content. */
  lemma MagicKeepsContent(l: Layout, date: string, mem: seq<Byte>)
    requires l.Valid(|mem|) && BuildDate(date)
    ensures Fits(|mem|, BlockWrites(l.magicAddr, Magic(date)))
    ensures ContentOf(l, Replay(mem, BlockWrites(l.magicAddr, Magic(date)))) == ContentOf(l, mem)
  {
    var c, o := BlockWrites(l.magicAddr, Magic(date)), l.OptionsAddr();
    MagicInside(l, date);
    assert o <= |mem|;
    hide BlockWrites, Magic, ContentOf, Replay, l.Valid, l.OptionsAddr;
    var m := Replay(mem, c);
    OutsideKept(mem, c, l.magicAddr, o, o, |mem|);
    SameContent(l, mem, m);
  }

  lemma MagicInside(l: Layout, date: string)
    requires BuildDate(date)
    ensures Inside(BlockWrites(l.magicAddr, Magic(date)), l.magicAddr, l.OptionsAddr())
  {
  }

  /** The content depends only on what lies behind the magic number. */
  lemma SameContent(l: Layout, a: seq<Byte>, b: seq<Byte>)
    requires l.Valid(|a|) && |b| == |a| && a[l.OptionsAddr()..|a|] == b[l.OptionsAddr()..|a|]
    ensures ContentOf(l, a) == ContentOf(l, b)
  {
    var o := l.OptionsAddr();
    forall i | o <= i < |a|
      ensures a[i] == b[i]
    {
      assert a[i] == a[o..|a|][i - o] && b[i] == b[o..|a|][i - o];
    }
    var x, y := ContentOf(l, a), ContentOf(l, b);
    assert a[o..o + l.optionsSize] == b[o..o + l.optionsSize];
    assert a[l.MacroAddr()..l.maxAddr + 1] == b[l.MacroAddr()..l.maxAddr + 1];
    assert x.keys == y.keys;
    assert x.encoders == y.encoders;
  }

  lemma BodyContent(l: Layout, f: Flash, defaults: nat, mem: seq<Byte>)
    requires l.Valid(|mem|)
    ensures Fits(|mem|, BodyWrites(l, f, defaults))
    ensures ContentOf(l, Replay(mem, BodyWrites(l, f, defaults))) == ResetContent(l, f, defaults)
  {
    BodySteps(l, f, defaults, mem);
    BodyOptions(l, f, defaults, mem);
    BodyMacros(l, f, defaults, mem);
    BodyKeymap(l, f, defaults, mem);
    BodyEncoderMap(l, f, defaults, mem);
    hide BodyWrites, Replay, ContentOf, ResetContent;
    Assemble(l, f, defaults, Replay(mem, BodyWrites(l, f, defaults)));
  }

  lemma Assemble(l: Layout, f: Flash, defaults: nat, m: seq<Byte>)
    requires l.Valid(|m|)
    requires m[l.OptionsAddr()..l.OptionsAddr() + l.optionsSize] == AddressBytes(defaults, l.optionsSize)
    requires m[l.MacroAddr()..l.maxAddr + 1] == Zeros(l.MacroSize())
    requires ContentOf(l, m).keys == ResetContent(l, f, defaults).keys
    requires ContentOf(l, m).encoders == ResetContent(l, f, defaults).encoders
    ensures ContentOf(l, m) == ResetContent(l, f, defaults)
  {
    hide BigEndian, AddressBytes;
  }

  lemma BodyKeymap(l: Layout, f: Flash, defaults: nat, mem: seq<Byte>)
    requires l.Valid(|mem|) && Fits(|mem|, BodyWrites(l, f, defaults))
    ensures ContentOf(l, Replay(mem, BodyWrites(l, f, defaults))).keys == ResetContent(l, f, defaults).keys
  {
    assert l.MacroAddr() <= l.maxAddr;
    hide BodyWrites, Replay, FlashKey, KeyWord, l.Slots, l.Valid;
    forall i | 0 <= i < l.Slots()
      ensures KeyWord(l, Replay(mem, BodyWrites(l, f, defaults)), i) == FlashKey(l, f, i)
    {
      BodyKeys(l, f, defaults, mem, i);
    }
  }

  lemma BodyEncoderMap(l: Layout, f: Flash, defaults: nat, mem: seq<Byte>)
    requires l.Valid(|mem|) && Fits(|mem|, BodyWrites(l, f, defaults))
    ensures ContentOf(l, Replay(mem, BodyWrites(l, f, defaults))).encoders == ResetContent(l, f, defaults).encoders
  {
    assert l.MacroAddr() <= l.maxAddr;
    hide BodyWrites, Replay, FlashEncoder, EncoderWord, l.EncoderSlots, l.Valid;
    forall i | 0 <= i < l.EncoderSlots()
      ensures EncoderWord(l, Replay(mem, BodyWrites(l, f, defaults)), i) == FlashEncoder(l, f, i)
    {
      BodyEncoders(l, f, defaults, mem, i);
    }
  }

  lemma BodyOptions(l: Layout, f: Flash, defaults: nat, mem: seq<Byte>)
    requires l.Valid(|mem|) && Fits(|mem|, BodyWrites(l, f, defaults))
    ensures Replay(mem, BodyWrites(l, f, defaults))[l.OptionsAddr()..l.OptionsAddr() + l.optionsSize]
         == AddressBytes(defaults, l.optionsSize)
  {
    hide *;
    var o, x, y := l.OptionsAddr(), l.KeymapAddr(), l.MacroAddr();
    RegionOrder(l, |mem|);
    var bytes, ws, data := AddressBytes(defaults, l.optionsSize), ResetWrites(l, f, l.layers), Zeros(l.MacroSize());
    ResetInside(l, f, l.layers);
    BodySteps(l, f, defaults, mem);
    OptionsSurvive(mem, o, bytes, ws, x, y, data, Replay(mem, BodyWrites(l, f, defaults)));
  }

  lemma RegionOrder(l: Layout, size: nat)
    requires l.Valid(size)
    ensures l.OptionsAddr() + l.optionsSize <= l.KeymapAddr() <= l.MacroAddr() <= l.maxAddr
  {
  }

  /** A block written first outlives what is written behind it. */
  lemma OptionsSurvive(mem: seq<Byte>, o: nat, bytes: seq<Byte>, ws: seq<Write>, x: nat, y: nat, data: seq<Byte>,
                       m: seq<Byte>)
    requires o + |bytes| <= x <= y && y + |data| <= |mem|
    requires Fits(|mem|, ws) && Inside(ws, x, y)
    requires m == FlatWrite(Replay(FlatWrite(mem, o, bytes), ws), y, data)
    ensures m[o..o + |bytes|] == bytes
  {
    var mem1 := FlatWrite(mem, o, bytes);
    SliceOfWrite(mem, o, bytes);
    hide FlatWrite, Replay;
    OutsideKept(mem1, ws, x, y, o, o + |bytes|);
    SliceBeforeWrite(Replay(mem1, ws), y, data, o, o + |bytes|);
  }

  lemma SliceOfWrite(mem: seq<Byte>, x: nat, data: seq<Byte>)
    requires x + |data| <= |mem|
    ensures FlatWrite(mem, x, data)[x..x + |data|] == data
  {
  }

  lemma SliceBeforeWrite(mem: seq<Byte>, x: nat, data: seq<Byte>, from: nat, to: nat)
    requires x + |data| <= |mem| && from <= to <= x
    ensures FlatWrite(mem, x, data)[from..to] == mem[from..to]
  {
  }

  lemma BodyMacros(l: Layout, f: Flash, defaults: nat, mem: seq<Byte>)
    requires l.Valid(|mem|) && Fits(|mem|, BodyWrites(l, f, defaults))
    ensures Replay(mem, BodyWrites(l, f, defaults))[l.MacroAddr()..l.maxAddr + 1] == Zeros(l.MacroSize())
  {
    BodySteps(l, f, defaults, mem);
    ResetFits(l, f, l.layers, |mem|);
    assert l.MacroAddr() + l.MacroSize() == l.maxAddr + 1;
    var mem1 := FlatWrite(mem, l.OptionsAddr(), AddressBytes(defaults, l.optionsSize));
    var mem2 := Replay(mem1, ResetWrites(l, f, l.layers));
    hide BodyWrites, Replay, ResetWrites, AddressBytes, FlatWrite, l.MacroSize;
    SliceOfWrite(mem2, l.MacroAddr(), Zeros(l.MacroSize()));
  }

  // ----- Histories of boots, re-initialisations and edits -----

  /** How far an initialisation came before the power was cut. */
  datatype Cut = Completed | Interrupted(after: nat)

  datatype Op = Boot(cut: Cut) | Reinit(cut: Cut) | SetKey(layer: nat, row: nat, col: nat, keycode: Keycode)

  /** A firmware build: layout, keymap in flash, default options, build date. */
  datatype Build = Build(layout: Layout, flash: Flash, defaults: nat, date: string)
  {
    predicate Valid(size: nat) {
      layout.Valid(size) && BuildDate(date)
    }

    function Writes(): seq<Write>
      requires layout.MacroAddr() <= layout.maxAddr && BuildDate(date)
    {
      InitWrites(layout, flash, defaults, date)
    }
  }

  function Initialise(b: Build, mem: seq<Byte>, cut: Cut): (m: seq<Byte>)
    requires b.Valid(|mem|)
    ensures |m| == |mem|
  {
    InitInside(b.layout, b.flash, b.defaults, b.date, |mem|);
    match cut
    case Completed => Replay(mem, b.Writes())
    case Interrupted(n) => AfterCut(mem, b.Writes(), n)
  }

  /** What an operation does to the bytes. */
  function StepBytes(b: Build, mem: seq<Byte>, op: Op): (m: seq<Byte>)
    requires b.Valid(|mem|)
    ensures |m| == |mem|
  {
    match op
    case Boot(cut) => if MagicValid(b.layout, b.date, mem) then mem else Initialise(b, mem, cut)
    case Reinit(cut) => Initialise(b, mem, cut)
    case SetKey(layer, row, col, k) => WithKey(b.layout, mem, layer, row, col, k)
  }

  function RunBytes(b: Build, mem: seq<Byte>, ops: seq<Op>): (m: seq<Byte>)
    requires b.Valid(|mem|)
    ensures |m| == |mem|
  {
    if ops == [] then mem else StepBytes(b, RunBytes(b, mem, ops[..|ops| - 1]), ops[|ops| - 1])
  }

  /** The simple machine this amounts to: the data is either known to be bad, or
      has a content that only whole operations change. */
  datatype Knowledge = Unknown | Known(content: Content)

  predicate Whole(b: Build, cut: Cut)
    requires b.layout.MacroAddr() <= b.layout.maxAddr && BuildDate(b.date)
  {
    cut.Completed? || cut.after >= |b.Writes()|
  }

  function Reset(b: Build): Knowledge
    requires b.layout.MacroAddr() <= b.layout.maxAddr
  {
    Known(ResetContent(b.layout, b.flash, b.defaults))
  }

  predicate Shaped(b: Build, x: Knowledge) {
    x.Known? ==> |x.content.keys| == b.layout.Slots()
  }

  function StepKnowledge(b: Build, x: Knowledge, op: Op): (y: Knowledge)
    requires b.layout.MacroAddr() <= b.layout.maxAddr && BuildDate(b.date) && Shaped(b, x)
    ensures Shaped(b, y)
  {
    match op
    case Boot(cut) => if x.Known? then x else if Whole(b, cut) then Reset(b) else Unknown
    case Reinit(cut) => if cut == Interrupted(0) then x else if Whole(b, cut) then Reset(b) else Unknown
    case SetKey(layer, row, col, k) =>
      if x.Unknown? || !b.layout.HasKey(layer, row, col) then x
      else
        b.layout.SlotInRange(layer, row, col);
        Known(x.content.(keys := x.content.keys[b.layout.Slot(layer, row, col) := k]))
  }

  /** What the bytes tell: the content, if the magic number vouches for it. */
  function KnowledgeOf(b: Build, mem: seq<Byte>): (x: Knowledge)
    requires b.Valid(|mem|)
    ensures Shaped(b, x)
  {
    if MagicValid(b.layout, b.date, mem) then Known(ContentOf(b.layout, mem)) else Unknown
  }

  function RunKnowledge(b: Build, x: Knowledge, ops: seq<Op>): (y: Knowledge)
    requires b.layout.MacroAddr() <= b.layout.maxAddr && BuildDate(b.date) && Shaped(b, x)
    ensures Shaped(b, y)
  {
    if ops == [] then x else StepKnowledge(b, RunKnowledge(b, x, ops[..|ops| - 1]), ops[|ops| - 1])
  }

  lemma InitialiseKnowledge(b: Build, mem: seq<Byte>, cut: Cut)
    requires b.Valid(|mem|) && cut != Interrupted(0)
    ensures KnowledgeOf(b, Initialise(b, mem, cut)) == if Whole(b, cut) then Reset(b) else Unknown
  {
    var ws := b.Writes();
    InitInside(b.layout, b.flash, b.defaults, b.date, |mem|);
    InitContent(b.layout, b.flash, b.defaults, b.date, mem);
    assert ws[..|ws|] == ws && |ws| > 0;
    hide InitWrites, Replay, ContentOf, ResetContent;
    MagicDuringInit(b.layout, b.flash, b.defaults, b.date, mem, |ws|);
    if cut.Interrupted? && cut.after < |ws| {
      MagicDuringInit(b.layout, b.flash, b.defaults, b.date, mem, cut.after);
    }
  }

  /** Setting a keycode changes one key of the content and leaves the magic number alone. */
  lemma SetKeyKnowledge(b: Build, mem: seq<Byte>, layer: nat, row: nat, col: nat, k: Keycode)
    requires b.Valid(|mem|)
    ensures KnowledgeOf(b, WithKey(b.layout, mem, layer, row, col, k))
         == StepKnowledge(b, KnowledgeOf(b, mem), SetKey(layer, row, col, k))
  {
    var l := b.layout;
    if l.HasKey(layer, row, col) {
      var mem' := WithKey(l, mem, layer, row, col, k);
      SetKeyOutside(l, mem, layer, row, col, k);
      SetKeyContent(l, mem, layer, row, col, k);
      hide ContentOf, WithKey;
    }
  }

  lemma SetKeyOutside(l: Layout, mem: seq<Byte>, layer: nat, row: nat, col: nat, k: Keycode)
    requires l.Valid(|mem|) && l.HasKey(layer, row, col)
    ensures var mem' := WithKey(l, mem, layer, row, col, k);
      && mem'[..l.KeymapAddr()] == mem[..l.KeymapAddr()]
      && mem'[l.EncoderAddr()..] == mem[l.EncoderAddr()..]
      && mem'[l.magicAddr..l.magicAddr + 3] == mem[l.magicAddr..l.magicAddr + 3]
  {
    KeyInside(l, |mem|, layer, row, col);
    hide l.EncoderAddr, l.KeyAddress;
    var mem' := WithKey(l, mem, layer, row, col, k);
    assert mem'[..l.KeymapAddr()][l.magicAddr..l.magicAddr + 3] == mem'[l.magicAddr..l.magicAddr + 3];
  }

  lemma SetKeyContent(l: Layout, mem: seq<Byte>, layer: nat, row: nat, col: nat, k: Keycode)
    requires l.Valid(|mem|) && l.HasKey(layer, row, col)
    ensures l.Slot(layer, row, col) < l.Slots()
    ensures var c := ContentOf(l, mem);
      ContentOf(l, WithKey(l, mem, layer, row, col, k)) == c.(keys := c.keys[l.Slot(layer, row, col) := k])
  {
    hide *;
    l.SlotInRange(layer, row, col);
    SetKeyWords(l, mem, layer, row, col, k);
    SetKeyRest(l, mem, layer, row, col, k);
    OneKeyChanged(l, mem, WithKey(l, mem, layer, row, col, k), l.Slot(layer, row, col), k);
  }

  /** What lies around the keys stays. */
  lemma SetKeyRest(l: Layout, mem: seq<Byte>, layer: nat, row: nat, col: nat, k: Keycode)
    requires l.Valid(|mem|) && l.HasKey(layer, row, col)
    ensures var mem' := WithKey(l, mem, layer, row, col, k);
      && l.OptionsAddr() + l.optionsSize <= |mem| && l.MacroAddr() <= l.maxAddr < |mem|
      && mem'[l.OptionsAddr()..l.OptionsAddr() + l.optionsSize] == mem[l.OptionsAddr()..l.OptionsAddr() + l.optionsSize]
      && mem'[l.MacroAddr()..l.maxAddr + 1] == mem[l.MacroAddr()..l.maxAddr + 1]
  {
    SetKeyOutside(l, mem, layer, row, col, k);
    hide WithKey, l.Slots, l.EncoderSlots;
    var mem' := WithKey(l, mem, layer, row, col, k);
    var o, n, e, m := l.OptionsAddr(), l.optionsSize, l.EncoderAddr(), l.MacroAddr();
    assert mem'[o..o + n] == mem'[..l.KeymapAddr()][o..o + n] == mem[o..o + n];
    assert mem'[m..l.maxAddr + 1] == mem'[e..][m - e..l.maxAddr + 1 - e] == mem[m..l.maxAddr + 1];
  }

  /** Memories that differ in one keycode only. */
  lemma OneKeyChanged(l: Layout, mem: seq<Byte>, mem': seq<Byte>, s: nat, k: Keycode)
    requires l.Valid(|mem|) && |mem'| == |mem| && s < l.Slots()
    requires l.OptionsAddr() + l.optionsSize <= |mem| && l.MacroAddr() <= l.maxAddr < |mem|
    requires mem'[l.OptionsAddr()..l.OptionsAddr() + l.optionsSize]
          == mem[l.OptionsAddr()..l.OptionsAddr() + l.optionsSize]
    requires mem'[l.MacroAddr()..l.maxAddr + 1] == mem[l.MacroAddr()..l.maxAddr + 1]
    requires forall i :: 0 <= i < l.Slots() ==> KeyWord(l, mem', i) == if i == s then k else KeyWord(l, mem, i)
    requires forall i :: 0 <= i < l.EncoderSlots() ==> EncoderWord(l, mem', i) == EncoderWord(l, mem, i)
    ensures ContentOf(l, mem') == ContentOf(l, mem).(keys := ContentOf(l, mem).keys[s := k])
  {
    hide KeyWord, EncoderWord, BigEndian, l.Valid, l.Slots, l.EncoderSlots, l.MacroAddr, l.OptionsAddr;
    var c, c' := ContentOf(l, mem), ContentOf(l, mem');
    assert c'.keys == c.keys[s := k];
    assert c'.encoders == c.encoders;
  }

  lemma SetKeyWords(l: Layout, mem: seq<Byte>, layer: nat, row: nat, col: nat, k: Keycode)
    requires l.Valid(|mem|) && l.HasKey(layer, row, col)
    ensures var mem' := WithKey(l, mem, layer, row, col, k);
      && (forall i :: 0 <= i < l.Slots() ==>
           KeyWord(l, mem', i) == if i == l.Slot(layer, row, col) then k else KeyWord(l, mem, i))
      && (forall i :: 0 <= i < l.EncoderSlots() ==> EncoderWord(l, mem', i) == EncoderWord(l, mem, i))
  {
    var mem' := WithKey(l, mem, layer, row, col, k);
    l.SlotInRange(layer, row, col);
    l.KeyAddressIsSlot(layer, row, col);
    var s := l.Slot(layer, row, col);
    assert mem' == FlatWrite(mem, l.KeymapAddr() + 2 * s, WordBytes(k));
    hide WithKey, l.KeyAddress, l.Slot, l.LayerSlots, WordBytes, FlatWrite, l.KeymapAddr;
    forall i | 0 <= i < l.Slots()
      ensures KeyWord(l, mem', i) == if i == s then k else KeyWord(l, mem, i)
    {
      WordAfterWrite(mem, l.KeymapAddr() + 2 * s, k, l.KeymapAddr() + 2 * i);
    }
    forall i | 0 <= i < l.EncoderSlots()
      ensures EncoderWord(l, mem', i) == EncoderWord(l, mem, i)
    {
      WordAfterWrite(mem, l.KeymapAddr() + 2 * s, k, l.EncoderAddr() + 2 * i);
    }
  }

  lemma StepRefines(b: Build, mem: seq<Byte>, op: Op)
    requires b.Valid(|mem|)
    ensures KnowledgeOf(b, StepBytes(b, mem, op)) == StepKnowledge(b, KnowledgeOf(b, mem), op)
  {
    match op {
      case SetKey(layer, row, col, k) => SetKeyKnowledge(b, mem, layer, row, col, k);
      case Boot(cut) => CutRefines(b, mem, cut);
      case Reinit(cut) => CutRefines(b, mem, cut);
    }
  }

  lemma CutRefines(b: Build, mem: seq<Byte>, cut: Cut)
    requires b.Valid(|mem|)
    ensures KnowledgeOf(b, Initialise(b, mem, cut))
      == if cut == Interrupted(0) then KnowledgeOf(b, mem) else if Whole(b, cut) then Reset(b) else Unknown
  {
    if cut == Interrupted(0) {
      InitInside(b.layout, b.flash, b.defaults, b.date, |mem|);
      assert b.Writes()[..0] == [];
      hide ContentOf, InitWrites;
      assert |b.Writes()| > 0 by {
        InitLength(b);
      }
    } else {
      InitialiseKnowledge(b, mem, cut);
    }
  }

  lemma InitLength(b: Build)
    requires b.layout.MacroAddr() <= b.layout.maxAddr && BuildDate(b.date)
    ensures |b.Writes()| >= 6
  {
  }

  /** Over every history of completed and interrupted boots, re-initialisations
      and edits, what the bytes tell is what the simple machine says: re-initialising
      behaves as one indivisible step, whose failure is always noticed. */
  lemma {:induction false} RunRefines(b: Build, mem: seq<Byte>, ops: seq<Op>)
    requires b.Valid(|mem|)
    ensures KnowledgeOf(b, RunBytes(b, mem, ops)) == RunKnowledge(b, KnowledgeOf(b, mem), ops)
  {
    if ops != [] {
      var n := |ops| - 1;
      RunRefines(b, mem, ops[..n]);
      hide StepBytes, StepKnowledge, KnowledgeOf;
      StepRefines(b, RunBytes(b, mem, ops[..n]), ops[n]);
    }
  }

  predicate OnlyBoots(ops: seq<Op>) {
    forall i :: 0 <= i < |ops| ==> ops[i].Boot? || ops[i].Reinit?
  }

  /** Without edits the memory is at every moment untouched, known to be bad, or
      completely reset. */
  lemma {:induction false} UntouchedOrReset(b: Build, mem: seq<Byte>, ops: seq<Op>)
    requires b.Valid(|mem|) && OnlyBoots(ops)
    ensures var m := RunBytes(b, mem, ops);
      || m == mem
      || !MagicValid(b.layout, b.date, m)
      || ContentOf(b.layout, m) == ResetContent(b.layout, b.flash, b.defaults)
  {
    if ops != [] {
      var n := |ops| - 1;
      UntouchedOrReset(b, mem, ops[..n]);
      var m := RunBytes(b, mem, ops[..n]);
      hide ContentOf, ResetContent, RunBytes;
      CutRefines(b, m, ops[n].cut);
      if ops[n].cut == Interrupted(0) {
        NothingWritten(b, m);
      }
    }
  }

  lemma NothingWritten(b: Build, mem: seq<Byte>)
    requires b.Valid(|mem|)
    ensures Initialise(b, mem, Interrupted(0)) == mem
  {
    InitInside(b.layout, b.flash, b.defaults, b.date, |mem|);
    InitLength(b);
    assert b.Writes()[..0] == [];
  }

  /** Hence a completed boot leaves trusted data: untouched, or the complete reset. */
  lemma CompletedBoot(b: Build, mem: seq<Byte>, ops: seq<Op>)
    requires b.Valid(|mem|) && OnlyBoots(ops)
    ensures var m := StepBytes(b, RunBytes(b, mem, ops), Boot(Completed));
      && MagicValid(b.layout, b.date, m)
      && (m == mem || ContentOf(b.layout, m) == ResetContent(b.layout, b.flash, b.defaults))
  {
    UntouchedOrReset(b, mem, ops);
    hide ContentOf, ResetContent, RunBytes;
    CutRefines(b, RunBytes(b, mem, ops), Completed);
  }

  // ----- via.c -----

  class Via {
    const build: Build
    const keymap: Store
    const eeprom: Device

    ghost predicate Valid() {
      && build.Valid(eeprom.mem.Length) && eeprom.Valid()
      && keymap.Valid() && keymap.eeprom == eeprom && keymap.layout == build.layout
    }

    constructor (build: Build, keymap: Store)
      requires build.Valid(keymap.eeprom.mem.Length) && keymap.Valid() && keymap.layout == build.layout
      ensures Valid() && this.build == build && this.keymap == keymap && eeprom == keymap.eeprom
    {
      this.build := build;
      this.keymap := keymap;
      eeprom := keymap.eeprom;
    }

    /** via_eeprom_is_valid */
    method EepromIsValid() returns (valid: bool)
      requires Valid()
      ensures valid == MagicValid(build.layout, build.date, eeprom.mem[..])
    {
      var addr := build.layout.magicAddr;
      var magic := Magic(build.date);
      var m0 := eeprom.ReadByte(addr);
      var m1 := eeprom.ReadByte(addr + 1);
      var m2 := eeprom.ReadByte(addr + 2);
      valid := m0 == magic[0] && m1 == magic[1] && m2 == magic[2];
      assert eeprom.mem[..][addr..addr + 3] == [m0, m1, m2];
      assert magic == [magic[0], magic[1], magic[2]];
    }

    /** via_eeprom_set_valid */
    method EepromSetValid(valid: bool)
      requires Valid()
      modifies eeprom.mem, eeprom`trace, eeprom`transactions
      ensures var ws := BlockWrites(build.layout.magicAddr, if valid then Magic(build.date) else ERASED);
        && Fits(eeprom.mem.Length, ws)
        && eeprom.trace == old(eeprom.trace) + ws
        && eeprom.mem[..] == Replay(old(eeprom.mem[..]), ws)
    {
      var addr := build.layout.magicAddr;
      var magic := Magic(build.date);
      ghost var ws := BlockWrites(addr, if valid then magic else ERASED);
      var v0: Byte := if valid then magic[0] else 0xFF;
      var v1: Byte := if valid then magic[1] else 0xFF;
      var v2: Byte := if valid then magic[2] else 0xFF;
      ThreeWrites(eeprom.mem[..], eeprom.trace, Write(addr, v0), Write(addr + 1, v1), Write(addr + 2, v2));
      assert ws == [Write(addr, v0), Write(addr + 1, v1), Write(addr + 2, v2)];
      hide Replay, BlockWrites;
      eeprom.UpdateByte(addr, v0);
      eeprom.UpdateByte(addr + 1, v1);
      eeprom.UpdateByte(addr + 2, v2);
    }

    /** via_get_layout_options: most significant byte first. */
    method GetLayoutOptions() returns (value: nat)
      requires Valid()
      ensures var start := build.layout.OptionsAddr();
        value == Options(eeprom.mem[..][start..start + build.layout.optionsSize])
    {
      value := 0;
      var source := build.layout.OptionsAddr();
      ghost var start := source;
      for i := 0 to build.layout.optionsSize
        invariant source == start + i
        invariant value == Options(eeprom.mem[..][start..start + i])
      {
        value := value * 256;
        var byte := eeprom.ReadByte(source);
        assert eeprom.mem[..][start..start + i + 1] == eeprom.mem[..][start..start + i] + [byte];
        value := value + byte;
        source := source + 1;
      }
    }

    /** via_set_layout_options: least significant byte first, from the end. */
    method SetLayoutOptions(value: nat)
      requires Valid()
      modifies eeprom.mem, eeprom`trace, eeprom`transactions
      ensures var ws := OptionsWrites(build.layout.OptionsAddr(), build.layout.optionsSize, value);
        && Fits(eeprom.mem.Length, ws)
        && eeprom.trace == old(eeprom.trace) + ws
        && eeprom.mem[..] == Replay(old(eeprom.mem[..]), ws)
    {
      hide Replay;
      var value' := value;
      var n := build.layout.optionsSize;
      ghost var addr := build.layout.OptionsAddr();
      ghost var ws := OptionsWrites(addr, n, value);
      ghost var done: seq<Write> := [];
      ReplayNothing(eeprom.mem[..]);
      var target: int := build.layout.OptionsAddr() + n - 1;
      for i := 0 to n
        invariant target == addr + n - 1 - i && Fits(eeprom.mem.Length, done)
        invariant ws == done + OptionsWrites(addr, n - i, value')
        invariant eeprom.trace == old(eeprom.trace) + done
        invariant eeprom.mem[..] == Replay(old(eeprom.mem[..]), done)
      {
        hide Inside;
        ghost var w := Write(target, value' % 256);
        ReplaySnoc(old(eeprom.mem[..]), done, w);
        MoreWrites(done, addr, n - i, value', old(eeprom.trace));
        eeprom.UpdateByte(target, value' % 256);
        value' := value' / 256;
        target := target - 1;
        done := done + [w];
      }
      assert done == ws;
    }

    /** dynamic_keymap_macro_reset */
    method MacroReset()
      requires Valid()
      modifies eeprom.mem, eeprom`trace, eeprom`transactions
      ensures var ws := BlockWrites(build.layout.MacroAddr(), Zeros(build.layout.MacroSize()));
        && Fits(eeprom.mem.Length, ws)
        && eeprom.trace == old(eeprom.trace) + ws
        && eeprom.mem[..] == Replay(old(eeprom.mem[..]), ws)
    {
      var p := build.layout.MacroAddr();
      var end := build.layout.MacroAddr() + build.layout.MacroSize();
      ghost var start, ws := p, BlockWrites(p, Zeros(build.layout.MacroSize()));
      while p != end
        invariant start <= p <= end
        invariant eeprom.trace == old(eeprom.trace) + ws[..p - start]
        invariant eeprom.mem[..] == Replay(old(eeprom.mem[..]), ws[..p - start])
        decreases end - p
      {
        assert ws[..p - start + 1][..p - start] == ws[..p - start];
        eeprom.UpdateByte(p, 0);
        p := p + 1;
      }
      assert ws[..p - start] == ws;
    }

    /** eeconfig_init_via */
    method InitVia()
      requires Valid()
      modifies keymap, eeprom.mem, eeprom`trace, eeprom`transactions
      ensures Fits(eeprom.mem.Length, build.Writes())
      ensures eeprom.trace == old(eeprom.trace) + build.Writes()
      ensures eeprom.mem[..] == Initialise(build, old(eeprom.mem[..]), Completed)
      ensures keymap.Coherent()
    {
      ghost var mem0, trace0 := eeprom.mem[..], eeprom.trace;
      ghost var l := build.layout;
      ghost var w0 := BlockWrites(l.magicAddr, ERASED);
      ghost var w1 := OptionsWrites(l.OptionsAddr(), l.optionsSize, build.defaults);
      ghost var w2 := ResetWrites(l, build.flash, l.layers);
      ghost var w3 := BlockWrites(l.MacroAddr(), Zeros(l.MacroSize()));
      ghost var w4 := BlockWrites(l.magicAddr, Magic(build.date));
      assert build.Writes() == w0 + (w1 + w2 + w3) + w4;
      InitInside(l, build.flash, build.defaults, build.date, |mem0|);
      assert l.layers <= 255;
      hide Replay, BlockWrites, OptionsWrites, ResetWrites, InitWrites, KeycodeIn, l.Valid;
      EepromSetValid(false);
      SetLayoutOptions(build.defaults);
      keymap.Reset(build.flash);
      MacroReset();
      EepromSetValid(true);
      FiveParts(mem0, trace0, w0, w1, w2, w3, w4);
    }

    /** via_init: trusted data is left alone. */
    method Init()
      requires Valid() && keymap.Coherent()
      modifies keymap, eeprom.mem, eeprom`trace, eeprom`transactions
      ensures eeprom.mem[..] == StepBytes(build, old(eeprom.mem[..]), Boot(Completed))
      ensures keymap.Coherent()
    {
      var valid := EepromIsValid();
      if !valid {
        InitVia();
      }
    }
  }

  lemma ReplayNothing(mem: seq<Byte>)
    ensures Replay(mem, []) == mem
  {
  }

  lemma MoreWrites(done: seq<Write>, addr: nat, n: nat, value: nat, trace: seq<Write>)
    requires n > 0
    ensures var w := Write(addr + n - 1, value % 256);
      && done + OptionsWrites(addr, n, value) == (done + [w]) + OptionsWrites(addr, n - 1, value / 256)
      && (trace + done) + [w] == trace + (done + [w])
  {
  }

  lemma ReplaySnoc(mem: seq<Byte>, ws: seq<Write>, w: Write)
    requires Fits(|mem|, ws) && w.addr < |mem|
    ensures Fits(|mem|, ws + [w]) && Replay(mem, ws + [w]) == Replay(mem, ws)[w.addr := w.value]
  {
    assert (ws + [w])[..|ws|] == ws;
  }

  lemma ThreeWrites(mem: seq<Byte>, trace: seq<Write>, a: Write, b: Write, c: Write)
    requires a.addr < |mem| && b.addr < |mem| && c.addr < |mem|
    ensures Replay(mem, [a, b, c]) == mem[a.addr := a.value][b.addr := b.value][c.addr := c.value]
    ensures trace + [a] + [b] + [c] == trace + [a, b, c]
  {
    ReplayOne(mem, a);
    hide Replay;
    ReplaySnoc(mem, [a], b);
    ReplaySnoc(mem, [a, b], c);
    assert [a] + [b] == [a, b] && [a, b] + [c] == [a, b, c];
    ThreeSequences(trace, [a], [b], [c]);
  }

  lemma ReplayOne(mem: seq<Byte>, w: Write)
    requires w.addr < |mem|
    ensures Replay(mem, [w]) == mem[w.addr := w.value]
  {
    assert [w][..0] == [];
  }

  lemma ThreeSequences(t: seq<Write>, a: seq<Write>, b: seq<Write>, c: seq<Write>)
    ensures t + a + b + c == t + (a + b + c)
  {
  }

  lemma FiveParts(mem: seq<Byte>, trace: seq<Write>, a: seq<Write>, b: seq<Write>, c: seq<Write>, d: seq<Write>,
      e: seq<Write>)
    requires Fits(|mem|, a) && Fits(|mem|, b) && Fits(|mem|, c) && Fits(|mem|, d) && Fits(|mem|, e)
    ensures Fits(|mem|, a + (b + c + d) + e)
    ensures Replay(mem, a + (b + c + d) + e) == Replay(Replay(Replay(Replay(Replay(mem, a), b), c), d), e)
    ensures trace + a + b + c + d + e == trace + (a + (b + c + d) + e)
  {
    hide Replay;
    FiveSequences(trace, a, b, c, d, e);
    ReplayConcat(mem, a, b);
    ReplayConcat(mem, a + b, c);
    ReplayConcat(mem, a + b + c, d);
    ReplayConcat(mem, a + b + c + d, e);
  }

  lemma FiveSequences(t: seq<Write>, a: seq<Write>, b: seq<Write>, c: seq<Write>, d: seq<Write>, e: seq<Write>)
    ensures a + (b + c + d) + e == a + b + c + d + e
    ensures t + a + b + c + d + e == t + (a + b + c + d + e)
  {
    assert a + (b + c + d) == a + b + c + d;
  }
}
