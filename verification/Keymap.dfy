/** The persistent keymap (dynamic_keymap.c), as built with the one-entry
    keycode cache: lookups, updates, windows over the raw bytes, and the reset to
    the keymap in flash. */
module Keymap {
  import opened ByteData
  import opened Eeprom
  import opened KeymapLayout

  // ----- Keycodes in memory -----

  function Bswap16(w: Word): (s: Word) {
    (w % 256) * 256 + w / 256
  }

  /** Keycodes are stored with the high byte first. */
  function WordBytes(k: Keycode): (s: seq<Byte>)
    ensures |s| == 2
  {
    [k / 256, k % 256]
  }

  function WordAt(mem: seq<Byte>, addr: nat): Keycode
    requires addr + 1 < |mem|
  {
    MakeWord(mem[addr], mem[addr + 1])
  }

  /** A little-endian read, swapped, is a big-endian read. */
  lemma SwappedRead(mem: seq<Byte>, addr: nat)
    requires addr + 1 < |mem|
    ensures var w := MakeWord(mem[addr + 1], mem[addr]);
      w < 0x1_0000 && Bswap16(w) == WordAt(mem, addr)
  {
    SwapHalves(mem[addr + 1], mem[addr]);
  }

  lemma SwapHalves(high: Byte, low: Byte)
    ensures MakeWord(high, low) < 0x1_0000 && Bswap16(MakeWord(high, low)) == MakeWord(low, high)
  {
    Halves(high, low);
  }

  /** A swapped word, written low byte first, is stored high byte first. */
  lemma SwappedWrite(k: Keycode)
    ensures [Bswap16(k) % 256, Bswap16(k) / 256] == WordBytes(k)
  {
  }

  function KeycodeIn(l: Layout, mem: seq<Byte>, layer: nat, row: nat, col: nat): Keycode
    requires l.Valid(|mem|)
  {
    if l.HasKey(layer, row, col) then
      KeyInside(l, |mem|, layer, row, col);
      WordAt(mem, l.KeyAddress(layer, row, col))
    else KC_NO
  }

  function EncoderIn(l: Layout, mem: seq<Byte>, layer: nat, encoder: nat, clockwise: bool): Keycode
    requires l.Valid(|mem|)
  {
    if l.HasEncoder(layer, encoder) then
      EncoderInside(l, |mem|, layer, encoder, clockwise);
      WordAt(mem, l.EncoderAddress(layer, encoder, clockwise))
    else KC_NO
  }

  lemma KeyInside(l: Layout, size: nat, layer: nat, row: nat, col: nat)
    requires l.Valid(size) && l.HasKey(layer, row, col)
    ensures l.KeymapAddr() <= l.KeyAddress(layer, row, col)
    ensures l.KeyAddress(layer, row, col) + 1 < l.EncoderAddr() < size
  {
    l.SlotInRange(layer, row, col);
    l.KeyAddressIsSlot(layer, row, col);
  }

  lemma EncoderInside(l: Layout, size: nat, layer: nat, encoder: nat, clockwise: bool)
    requires l.Valid(size) && l.HasEncoder(layer, encoder)
    ensures l.EncoderAddr() <= l.EncoderAddress(layer, encoder, clockwise)
    ensures l.EncoderAddress(layer, encoder, clockwise) + 1 < l.MacroAddr() < size
  {
    l.EncoderAddressIsSlot(layer, encoder, clockwise);
  }

  /** Memory after a keycode is set; keys that do not exist are ignored. */
  function WithKey(l: Layout, mem: seq<Byte>, layer: nat, row: nat, col: nat, k: Keycode): (m: seq<Byte>)
    requires l.Valid(|mem|)
    ensures |m| == |mem|
  {
    if l.HasKey(layer, row, col) then
      KeyInside(l, |mem|, layer, row, col);
      FlatWrite(mem, l.KeyAddress(layer, row, col), WordBytes(k))
    else mem
  }

  /** Setting a keycode changes exactly that key: get after set gives the new
      value there and the old one everywhere else. */
  lemma SetChangesOneKey(l: Layout, mem: seq<Byte>, layer: nat, row: nat, col: nat, k: Keycode, a: nat, b: nat, c: nat)
    requires l.Valid(|mem|)
    ensures KeycodeIn(l, WithKey(l, mem, layer, row, col, k), a, b, c)
      == if (a, b, c) == (layer, row, col) && l.HasKey(a, b, c) then k else KeycodeIn(l, mem, a, b, c)
  {
    if l.HasKey(layer, row, col) && l.HasKey(a, b, c) {
      KeyInside(l, |mem|, layer, row, col);
      KeyInside(l, |mem|, a, b, c);
      ApartOrSame(l, layer, row, col, a, b, c);
      hide l.KeyAddress, l.KeymapAddr, l.EncoderAddr;
      WordAfterWrite(mem, l.KeyAddress(layer, row, col), k, l.KeyAddress(a, b, c));
    }
  }

  lemma ApartOrSame(l: Layout, layer: nat, row: nat, col: nat, a: nat, b: nat, c: nat)
    requires l.HasKey(layer, row, col) && l.HasKey(a, b, c)
    ensures var x, y := l.KeyAddress(layer, row, col), l.KeyAddress(a, b, c);
      if (a, b, c) == (layer, row, col) then x == y else x + 2 <= y || y + 2 <= x
  {
    l.KeyAddressIsSlot(layer, row, col);
    l.KeyAddressIsSlot(a, b, c);
    l.SlotOfKey(layer, row, col);
    l.SlotOfKey(a, b, c);
  }

  lemma WordAfterWrite(mem: seq<Byte>, x: nat, k: Keycode, y: nat)
    requires x + 1 < |mem| && y + 1 < |mem|
    requires x == y || x + 2 <= y || y + 2 <= x
    ensures WordAt(FlatWrite(mem, x, WordBytes(k)), y) == if x == y then k else WordAt(mem, y)
  {
  }

  /** Nothing outside the keymap region changes. */
  lemma SetStaysInRegion(l: Layout, mem: seq<Byte>, layer: nat, row: nat, col: nat, k: Keycode, i: nat)
    requires l.Valid(|mem|) && i < |mem| && !(l.KeymapAddr() <= i < l.EncoderAddr())
    ensures WithKey(l, mem, layer, row, col, k)[i] == mem[i]
  {
    if l.HasKey(layer, row, col) {
      KeyInside(l, |mem|, layer, row, col);
    }
  }

  lemma BytesOfWord(mem: seq<Byte>, addr: nat)
    requires addr + 1 < |mem|
    ensures WordBytes(WordAt(mem, addr)) == [mem[addr], mem[addr + 1]]
  {
    Halves(mem[addr], mem[addr + 1]);
  }

  /** A window onto the raw keymap bytes; beyond the keymap it reads zero. */
  function WindowByte(l: Layout, mem: seq<Byte>, offset: nat): Byte
    requires l.Valid(|mem|)
  {
    if offset < 2 * l.Slots() then mem[l.KeymapAddr() + offset] else 0
  }

  /** Its bytes are the keycodes in the order of their keys, high byte first. */
  lemma WindowShowsKeycodes(l: Layout, mem: seq<Byte>, offset: nat)
    requires l.Valid(|mem|)
    ensures WindowByte(l, mem, offset) ==
      if offset >= 2 * l.Slots() then 0
      else
        var k := l.SlotKey(offset / 2);
        WordBytes(KeycodeIn(l, mem, k.0, k.1, k.2))[offset % 2]
    ensures offset < 2 * l.Slots() ==>
              var k := l.SlotKey(offset / 2);
              var code := KeycodeIn(l, mem, k.0, k.1, k.2);
              WindowByte(l, mem, offset) == if offset % 2 == 0 then code / 256 else code % 256
  {
    if offset < 2 * l.Slots() {
      l.EveryByteHasKey(l.KeymapAddr() + offset);
      var k := l.SlotKey(offset / 2);
      KeyInside(l, |mem|, k.0, k.1, k.2);
      assert l.KeymapAddr() + offset == l.KeyAddress(k.0, k.1, k.2) + offset % 2;
      hide l.SlotKey, l.KeyAddress, l.Slots, l.KeymapAddr, l.EncoderAddr;
      BytesOfWord(mem, l.KeyAddress(k.0, k.1, k.2));
    }
  }

  /** Memory after a window of raw bytes is written; what reaches past the keymap is ignored. */
  function WithWindow(l: Layout, mem: seq<Byte>, offset: nat, data: seq<Byte>): (m: seq<Byte>)
    requires l.Valid(|mem|)
    ensures |m| == |mem|
    ensures forall i :: 0 <= i < |mem| ==>
      m[i] == var o := i - l.KeymapAddr() - offset;
        if 0 <= o < |data| && offset + o < 2 * l.Slots() then data[o] else mem[i]
  {
    seq(|mem|, i requires 0 <= i < |mem| =>
      var o := i - l.KeymapAddr() - offset;
      if 0 <= o < |data| && offset + o < 2 * l.Slots() then data[o] else mem[i])
  }

  /** Reading a window back gives what was written, as far as the keymap reaches. */
  lemma WindowRoundTrip(l: Layout, mem: seq<Byte>, offset: nat, data: seq<Byte>, o: nat)
    requires l.Valid(|mem|)
    ensures WindowByte(l, WithWindow(l, mem, offset, data), o)
      == if offset <= o < offset + |data| && o < 2 * l.Slots() then data[o - offset] else WindowByte(l, mem, o)
  {
  }

  /** The window misses a byte of memory, or writes what it already holds. */
  predicate Harmless(l: Layout, mem: seq<Byte>, offset: nat, data: seq<Byte>, x: nat)
    requires x < |mem|
  {
    var w := l.KeymapAddr() + offset;
    w <= x < w + |data| ==> data[x - w] == mem[x]
  }

  /** A window written past the cache leaves a cached keycode right if and only if
      it does not reach the key's bytes or writes what they already hold. */
  lemma CachedKeyAfterWindow(l: Layout, mem: seq<Byte>, offset: nat, data: seq<Byte>, layer: nat, row: nat, col: nat)
    requires l.Valid(|mem|) && l.HasKey(layer, row, col)
    ensures l.KeyAddress(layer, row, col) + 1 < |mem|
    ensures KeycodeIn(l, WithWindow(l, mem, offset, data), layer, row, col) == KeycodeIn(l, mem, layer, row, col)
      <==> Harmless(l, mem, offset, data, l.KeyAddress(layer, row, col))
           && Harmless(l, mem, offset, data, l.KeyAddress(layer, row, col) + 1)
  {
    KeyInside(l, |mem|, layer, row, col);
    var a, m := l.KeyAddress(layer, row, col), WithWindow(l, mem, offset, data);
    WindowAt(l, mem, offset, data, a);
    WindowAt(l, mem, offset, data, a + 1);
    hide l.KeyAddress, l.KeymapAddr, l.EncoderAddr, l.Valid, WithWindow, Harmless;
    Halves(m[a], m[a + 1]);
    Halves(mem[a], mem[a + 1]);
  }

  lemma WindowBytes(l: Layout, mem: seq<Byte>, a: nat, k: Keycode)
    requires l.Valid(|mem|) && l.KeymapAddr() <= a && a + 1 < l.EncoderAddr() && a + 1 < |mem|
    ensures WordAt(WithWindow(l, mem, a - l.KeymapAddr(), WordBytes(k)), a) == k
  {
    var m := WithWindow(l, mem, a - l.KeymapAddr(), WordBytes(k));
    assert m[a] == k / 256 && m[a + 1] == k % 256;
  }

  lemma WindowAt(l: Layout, mem: seq<Byte>, offset: nat, data: seq<Byte>, x: nat)
    requires l.Valid(|mem|) && l.KeymapAddr() <= x < l.EncoderAddr() && x < |mem|
    ensures WithWindow(l, mem, offset, data)[x] == mem[x] <==> Harmless(l, mem, offset, data, x)
  {
  }

  // ----- The keymap in flash -----

  datatype Flash = Flash(key: (nat, nat, nat) -> Keycode, encoder: (nat, nat, bool) -> Keycode)

  function LayerWord(l: Layout, f: Flash, layer: nat, i: nat): Keycode
    requires i < l.LayerSlots()
  {
    l.ColsPositive();
    f.key(layer, i / l.cols, i % l.cols)
  }

  function LayerWords(l: Layout, f: Flash, layer: nat): (ws: seq<Keycode>)
    ensures |ws| == l.LayerSlots()
  {
    seq(l.LayerSlots(), i requires 0 <= i < l.LayerSlots() => LayerWord(l, f, layer, i))
  }

  function EncoderWords(l: Layout, f: Flash, layer: nat): (ws: seq<Keycode>)
    ensures |ws| == 2 * l.encoders
  {
    seq(2 * l.encoders, i requires 0 <= i < 2 * l.encoders => f.encoder(layer, i / 2, i % 2 == 0))
  }

  /** Keycodes as they are stored. */
  function Bytes(ws: seq<Keycode>): (s: seq<Byte>)
    ensures |s| == 2 * |ws|
  {
    seq(2 * |ws|, i requires 0 <= i < 2 * |ws| => WordBytes(ws[i / 2])[i % 2])
  }

  lemma BytesAt(ws: seq<Keycode>, i: nat)
    requires i < |ws|
    ensures Bytes(ws)[2 * i..2 * i + 2] == WordBytes(ws[i])
  {
    var j := 2 * i;
    assert j / 2 == i && j % 2 == 0 && (j + 1) / 2 == i && (j + 1) % 2 == 1;
    hide WordBytes;
    assert Bytes(ws)[j] == WordBytes(ws[i])[0] && Bytes(ws)[j + 1] == WordBytes(ws[i])[1];
  }

  /** The byte writes of dynamic_keymap_reset for the first `n` layers, in order. */
  function ResetWrites(l: Layout, f: Flash, n: nat): seq<Write>
  {
    if n == 0 then []
    else
      ResetWrites(l, f, n - 1)
      + BlockWrites(l.KeyAddress(n - 1, 0, 0), Bytes(LayerWords(l, f, n - 1)))
      + BlockWrites(l.EncoderAddress(n - 1, 0, true), Bytes(EncoderWords(l, f, n - 1)))
  }

  /** The reset stays inside the keymap and encoder regions. */
  lemma {:induction false} ResetInside(l: Layout, f: Flash, n: nat)
    requires n <= l.layers
    ensures Inside(ResetWrites(l, f, n), l.KeymapAddr(), l.MacroAddr())
  {
    if n > 0 {
      ResetInside(l, f, n - 1);
      LayerRegion(l, n - 1);
      BlockInside(l.KeyAddress(n - 1, 0, 0), Bytes(LayerWords(l, f, n - 1)), l.KeymapAddr(), l.MacroAddr());
      BlockInside(l.EncoderAddress(n - 1, 0, true), Bytes(EncoderWords(l, f, n - 1)), l.KeymapAddr(), l.MacroAddr());
      hide l.KeyAddress, l.EncoderAddress, l.KeymapAddr, l.MacroAddr, Inside, BlockWrites, Bytes, LayerWords,
          EncoderWords;
      var a := BlockWrites(l.KeyAddress(n - 1, 0, 0), Bytes(LayerWords(l, f, n - 1)));
      var b := BlockWrites(l.EncoderAddress(n - 1, 0, true), Bytes(EncoderWords(l, f, n - 1)));
      InsideConcat(ResetWrites(l, f, n - 1), a, l.KeymapAddr(), l.MacroAddr());
      InsideConcat(ResetWrites(l, f, n - 1) + a, b, l.KeymapAddr(), l.MacroAddr());
    }
  }

  /** A layer's keycodes, and its encoder keycodes, lie one after the other. */
  lemma LayerRegion(l: Layout, layer: nat)
    requires layer < l.layers
    ensures l.KeymapAddr() <= l.KeyAddress(layer, 0, 0) == l.KeymapAddr() + 2 * (layer * l.LayerSlots())
    ensures l.KeyAddress(layer, 0, 0) + 2 * l.LayerSlots() <= l.EncoderAddr()
    ensures l.EncoderAddr() <= l.EncoderAddress(layer, 0, true) == l.EncoderAddr() + 2 * (layer * (2 * l.encoders))
    ensures l.EncoderAddress(layer, 0, true) + 2 * (2 * l.encoders) <= l.MacroAddr()
  {
    l.KeyAddressIsSlot(layer, 0, 0);
    MulMonotone(layer + 1, l.layers, l.LayerSlots());
    MulMonotone(layer + 1, l.layers, 2 * l.encoders);
    assert layer * l.encoders * 2 * 2 == 2 * (layer * (2 * l.encoders));
  }

  /** The stored keycodes of the first `n` encoders of a layer. */
  function EncoderBytes(l: Layout, f: Flash, layer: nat, n: nat): (s: seq<Byte>)
    ensures |s| == 4 * n
  {
    if n == 0 then []
    else
      EncoderBytes(l, f, layer, n - 1)
      + WordBytes(f.encoder(layer, n - 1, true)) + WordBytes(f.encoder(layer, n - 1, false))
  }

  lemma {:induction false} EncoderBytesAre(l: Layout, f: Flash, layer: nat, n: nat)
    requires n <= l.encoders
    ensures EncoderBytes(l, f, layer, n) == Bytes(EncoderWords(l, f, layer)[..2 * n])
  {
    if n > 0 {
      EncoderBytesAre(l, f, layer, n - 1);
      var ws := EncoderWords(l, f, layer);
      var a, b := f.encoder(layer, n - 1, true), f.encoder(layer, n - 1, false);
      assert ws[..2 * n] == ws[..2 * n - 2] + [a] + [b];
      hide EncoderWords;
      BytesSnoc(ws[..2 * n - 2], a);
      BytesSnoc(ws[..2 * n - 2] + [a], b);
    }
  }

  lemma BytesSnoc(ws: seq<Keycode>, k: Keycode)
    ensures Bytes(ws + [k]) == Bytes(ws) + WordBytes(k)
  {
    var s, t := Bytes(ws + [k]), Bytes(ws) + WordBytes(k);
    forall i | 0 <= i < |s|
      ensures s[i] == t[i]
    {
      assert i < 2 * |ws| || i == 2 * |ws| || i == 2 * |ws| + 1;
    }
  }

  /** Where an encoder's keycodes go. */
  lemma EncoderChunk(l: Layout, layer: nat, encoder: nat)
    requires l.HasEncoder(layer, encoder)
    ensures var start := l.EncoderAddress(layer, 0, true);
      && l.EncoderAddress(layer, encoder, true) == start + 4 * encoder
      && l.EncoderAddress(layer, encoder, false) == start + 4 * encoder + 2
  {
  }

  // ----- What the reset leaves behind -----

  lemma WordInBlock(mem: seq<Byte>, x: nat, ws: seq<Keycode>, i: nat)
    requires x + 2 * |ws| <= |mem| && i < |ws|
    ensures WordAt(FlatWrite(mem, x, Bytes(ws)), x + 2 * i) == ws[i]
  {
    BytesAt(ws, i);
    hide Bytes;
    var m, b := FlatWrite(mem, x, Bytes(ws)), Bytes(ws);
    assert m[x + 2 * i] == b[2 * i..2 * i + 2][0];
    assert m[x + 2 * i + 1] == b[2 * i..2 * i + 2][1];
  }

  lemma WordOutsideBlock(mem: seq<Byte>, x: nat, data: seq<Byte>, y: nat)
    requires x + |data| <= |mem| && y + 1 < |mem|
    requires y + 2 <= x || x + |data| <= y
    ensures WordAt(FlatWrite(mem, x, data), y) == WordAt(mem, y)
  {
  }

  /** After the reset of `n` layers each of their keys holds its flash keycode. */
  lemma {:induction false} ResetKeys(l: Layout, f: Flash, n: nat, mem: seq<Byte>, layer: nat, i: nat)
    requires l.Valid(|mem|) && layer < n <= l.layers && i < l.LayerSlots()
    requires Fits(|mem|, ResetWrites(l, f, n))
    ensures l.KeyAddress(layer, 0, 0) + 2 * i + 1 < |mem|
    ensures WordAt(Replay(mem, ResetWrites(l, f, n)), l.KeyAddress(layer, 0, 0) + 2 * i) == LayerWords(l, f, layer)[i]
  {
    hide l.KeyAddress, l.EncoderAddress, ResetWrites, Replay, FlatWrite, LayerWords, EncoderWords, Bytes, l.Valid;
    var x, y := l.KeyAddress(n - 1, 0, 0), l.EncoderAddress(n - 1, 0, true);
    var a, b := LayerWords(l, f, n - 1), Bytes(EncoderWords(l, f, n - 1));
    var at := l.KeyAddress(layer, 0, 0) + 2 * i;
    KeyPlaces(l, |mem|, layer, n - 1, i);
    ResetFits(l, f, n - 1, |mem|);
    ResetStep(l, f, n - 1, mem, []);
    var m := Replay(mem, ResetWrites(l, f, n - 1));
    WordOutsideBlock(FlatWrite(m, x, Bytes(a)), y, b, at);
    if layer == n - 1 {
      WordInBlock(m, x, a, i);
    } else {
      ResetKeys(l, f, n - 1, mem, layer, i);
      WordOutsideBlock(m, x, Bytes(a), at);
    }
  }

  lemma KeyPlaces(l: Layout, size: nat, layer: nat, m: nat, i: nat)
    requires l.Valid(size) && layer <= m < l.layers && i < l.LayerSlots()
    ensures var at, x, y := l.KeyAddress(layer, 0, 0) + 2 * i, l.KeyAddress(m, 0, 0), l.EncoderAddress(m, 0, true);
      && x + 2 * l.LayerSlots() <= size && y + 2 * (2 * l.encoders) <= size
      && at + 2 <= y && at + 1 < size
      && (layer < m ==> at + 2 <= x)
  {
    LayerRegion(l, layer);
    LayerRegion(l, m);
    LayersApart(l, layer, m);
  }

  /** Different layers do not overlap. */
  lemma LayersApart(l: Layout, a: nat, b: nat)
    requires a <= b
    ensures a < b ==> l.KeyAddress(a, 0, 0) + 2 * l.LayerSlots() <= l.KeyAddress(b, 0, 0)
    ensures a < b ==> l.EncoderAddress(a, 0, true) + 2 * (2 * l.encoders) <= l.EncoderAddress(b, 0, true)
  {
    if a < b {
      l.KeyAddressIsSlot(a, 0, 0);
      l.KeyAddressIsSlot(b, 0, 0);
      MulMonotone(a + 1, b, l.LayerSlots());
      MulMonotone(a + 1, b, 2 * l.encoders);
      assert a * l.encoders * 2 * 2 == 2 * (a * (2 * l.encoders));
      assert b * l.encoders * 2 * 2 == 2 * (b * (2 * l.encoders));
    }
  }

  lemma {:induction false} ResetEncoderKeys(l: Layout, f: Flash, n: nat, mem: seq<Byte>, layer: nat, i: nat)
    requires l.Valid(|mem|) && layer < n <= l.layers && i < 2 * l.encoders
    requires Fits(|mem|, ResetWrites(l, f, n))
    ensures l.EncoderAddress(layer, 0, true) + 2 * i + 1 < |mem|
    ensures WordAt(Replay(mem, ResetWrites(l, f, n)), l.EncoderAddress(layer, 0, true) + 2 * i)
         == EncoderWords(l, f, layer)[i]
  {
    hide l.KeyAddress, l.EncoderAddress, ResetWrites, Replay, FlatWrite, LayerWords, EncoderWords, Bytes, l.Valid;
    var x, y := l.KeyAddress(n - 1, 0, 0), l.EncoderAddress(n - 1, 0, true);
    var a, b := Bytes(LayerWords(l, f, n - 1)), EncoderWords(l, f, n - 1);
    var at := l.EncoderAddress(layer, 0, true) + 2 * i;
    EncoderPlaces(l, |mem|, layer, n - 1, i);
    ResetFits(l, f, n - 1, |mem|);
    ResetStep(l, f, n - 1, mem, []);
    var m := Replay(mem, ResetWrites(l, f, n - 1));
    if layer == n - 1 {
      WordInBlock(FlatWrite(m, x, a), y, b, i);
    } else {
      ResetEncoderKeys(l, f, n - 1, mem, layer, i);
      WordOutsideBlock(m, x, a, at);
      WordOutsideBlock(FlatWrite(m, x, a), y, Bytes(b), at);
    }
  }

  lemma EncoderPlaces(l: Layout, size: nat, layer: nat, m: nat, i: nat)
    requires l.Valid(size) && layer <= m < l.layers && i < 2 * l.encoders
    ensures var at, x := l.EncoderAddress(layer, 0, true) + 2 * i, l.KeyAddress(m, 0, 0);
      var y := l.EncoderAddress(m, 0, true);
      && x + 2 * l.LayerSlots() <= at && y + 2 * (2 * l.encoders) <= size && at + 1 < size
      && (layer < m ==> at + 2 <= y)
  {
    LayerRegion(l, layer);
    LayerRegion(l, m);
    LayersApart(l, layer, m);
  }

  /** The reset writes lie inside the memory. */
  lemma ResetFits(l: Layout, f: Flash, n: nat, size: nat)
    requires l.Valid(size) && n <= l.layers
    ensures Fits(size, ResetWrites(l, f, n))
  {
    ResetInside(l, f, n);
  }

  /** How a two-dimensional array of words lies in memory: row by row, low byte first. */
  function RawBytes(a: array2<Word>): (s: seq<Byte>)
    reads a
  {
    seq(2 * (a.Length0 * a.Length1), i requires 0 <= i < 2 * (a.Length0 * a.Length1) reads a => RawByte(a, i))
  }

  function RawByte(a: array2<Word>, i: nat): Byte
    requires i < 2 * (a.Length0 * a.Length1)
    reads a
  {
    RowCol(i / 2, a.Length0, a.Length1);
    var w := a[(i / 2) / a.Length1, (i / 2) % a.Length1];
    if i % 2 == 0 then w % 256 else w / 256
  }

  lemma RowCol(j: nat, rows: nat, cols: nat)
    requires j < rows * cols
    ensures cols > 0 && j / cols < rows && j % cols < cols
  {
    assert cols > 0;
    QuotientBelow(j / cols, j % cols, rows, cols);
  }

  lemma RawBytesSwapped(l: Layout, f: Flash, layer: nat, a: array2<Word>)
    requires a.Length0 == l.rows && a.Length1 == l.cols
    requires forall r, c :: 0 <= r < l.rows && 0 <= c < l.cols ==> a[r, c] == Bswap16(f.key(layer, r, c))
    ensures RawBytes(a) == Bytes(LayerWords(l, f, layer))
  {
    forall i | 0 <= i < 2 * l.LayerSlots()
      ensures RawBytes(a)[i] == Bytes(LayerWords(l, f, layer))[i]
    {
      RawByteSwapped(l, f, layer, a, i);
    }
  }

  lemma RawByteSwapped(l: Layout, f: Flash, layer: nat, a: array2<Word>, i: nat)
    requires a.Length0 == l.rows && a.Length1 == l.cols && i < 2 * l.LayerSlots()
    requires forall r, c :: 0 <= r < l.rows && 0 <= c < l.cols ==> a[r, c] == Bswap16(f.key(layer, r, c))
    ensures RawByte(a, i) == Bytes(LayerWords(l, f, layer))[i]
  {
    var j := i / 2;
    RowCol(j, l.rows, l.cols);
    var r, c := j / l.cols, j % l.cols;
    assert LayerWords(l, f, layer)[j] == f.key(layer, r, c);
    hide LayerWords;
    SwappedWrite(f.key(layer, r, c));
  }

  /** Two further blocks extend a replayed history. */
  lemma ReplayTwo(mem: seq<Byte>, ws: seq<Write>, x: nat, a: seq<Byte>, y: nat, b: seq<Byte>)
    requires Fits(|mem|, ws) && x + |a| <= |mem| && y + |b| <= |mem|
    ensures Fits(|mem|, ws + BlockWrites(x, a) + BlockWrites(y, b))
    ensures Replay(mem, ws + BlockWrites(x, a) + BlockWrites(y, b)) == FlatWrite(FlatWrite(Replay(mem, ws), x, a), y, b)
  {
    ReplayConcat(mem, ws, BlockWrites(x, a));
    ReplayBlock(Replay(mem, ws), x, a);
    ReplayConcat(mem, ws + BlockWrites(x, a), BlockWrites(y, b));
    ReplayBlock(FlatWrite(Replay(mem, ws), x, a), y, b);
  }

  /** What one turn of the reset adds to the history. */
  lemma ResetStep(l: Layout, f: Flash, layer: nat, mem: seq<Byte>, trace: seq<Write>)
    requires l.Valid(|mem|) && layer < l.layers && Fits(|mem|, ResetWrites(l, f, layer))
    ensures var ws, ws' := ResetWrites(l, f, layer), ResetWrites(l, f, layer + 1);
      var x, a := l.KeyAddress(layer, 0, 0), Bytes(LayerWords(l, f, layer));
      var y, b := l.EncoderAddress(layer, 0, true), Bytes(EncoderWords(l, f, layer));
      && x + |a| <= |mem| && y + |b| <= |mem| && Fits(|mem|, ws')
      && Replay(mem, ws') == FlatWrite(FlatWrite(Replay(mem, ws), x, a), y, b)
      && trace + ws' == trace + ws + BlockWrites(x, a) + BlockWrites(y, b)
  {
    LayerRegion(l, layer);
    StepOf(mem, trace, ResetWrites(l, f, layer), ResetWrites(l, f, layer + 1),
      l.KeyAddress(layer, 0, 0), Bytes(LayerWords(l, f, layer)),
      l.EncoderAddress(layer, 0, true), Bytes(EncoderWords(l, f, layer)));
  }

  lemma StepOf(mem: seq<Byte>, trace: seq<Write>, ws: seq<Write>, ws': seq<Write>, x: nat, a: seq<Byte>, y: nat,
      b: seq<Byte>)
    requires Fits(|mem|, ws) && x + |a| <= |mem| && y + |b| <= |mem|
    requires ws' == ws + BlockWrites(x, a) + BlockWrites(y, b)
    ensures Fits(|mem|, ws') && Replay(mem, ws') == FlatWrite(FlatWrite(Replay(mem, ws), x, a), y, b)
    ensures trace + ws' == trace + ws + BlockWrites(x, a) + BlockWrites(y, b)
  {
    hide FlatWrite, BlockWrites, Replay;
    ReplayTwo(mem, ws, x, a, y, b);
  }

  class Store {
    const layout: Layout
    const eeprom: Device
    var layerBuffer: nat
    var rowBuffer: nat
    var colBuffer: nat
    var keycodeBuffer: Keycode

    ghost predicate Valid() {
      layout.Valid(eeprom.mem.Length) && eeprom.Valid()
    }

    /** The cached keycode, if any, is the stored one. */
    ghost predicate Coherent()
      requires Valid()
      reads this, eeprom.mem
    {
      layout.HasKey(layerBuffer, rowBuffer, colBuffer)
      ==> keycodeBuffer == KeycodeIn(layout, eeprom.mem[..], layerBuffer, rowBuffer, colBuffer)
    }

    constructor (layout: Layout, eeprom: Device)
      requires layout.Valid(eeprom.mem.Length) && eeprom.Valid()
      ensures Valid() && Coherent() && this.layout == layout && this.eeprom == eeprom
      ensures layerBuffer == rowBuffer == colBuffer == 0xFF && !layout.HasKey(layerBuffer, rowBuffer, colBuffer)
    {
      this.layout := layout;
      this.eeprom := eeprom;
      layerBuffer, rowBuffer, colBuffer := 0xFF, 0xFF, 0xFF;
      keycodeBuffer := KC_NO;
    }

    /** dynamic_keymap_get_keycode */
    method GetKeycode(layer: nat, row: nat, col: nat) returns (keycode: Keycode)
      requires Valid()
      ensures keycode == KeycodeIn(layout, eeprom.mem[..], layer, row, col)
    {
      if layer >= layout.layers || row >= layout.rows || col >= layout.cols {
        return KC_NO;
      }
      KeyInside(layout, eeprom.mem.Length, layer, row, col);
      var address := layout.KeyAddress(layer, row, col);
      hide layout.KeyAddress, layout.EncoderAddr, layout.KeymapAddr, Bswap16;
      SwappedRead(eeprom.mem[..], address);
      var word := eeprom.ReadWord(address);
      keycode := Bswap16(word);
    }

    /** dynamic_keymap_set_keycode */
    method SetKeycode(layer: nat, row: nat, col: nat, keycode: Keycode)
      requires Valid() && Coherent()
      modifies this, eeprom.mem, eeprom`trace, eeprom`transactions
      ensures Coherent()
      ensures eeprom.mem[..] == WithKey(layout, old(eeprom.mem[..]), layer, row, col, keycode)
    {
      if layer >= layout.layers || row >= layout.rows || col >= layout.cols {
        return;
      }
      if layer == layerBuffer && row == rowBuffer && col == colBuffer {
        layerBuffer, rowBuffer, colBuffer := 0xFF, 0xFF, 0xFF;
      }
      KeyInside(layout, eeprom.mem.Length, layer, row, col);
      ghost var before := eeprom.mem[..];
      var address := layout.KeyAddress(layer, row, col);
      hide layout.KeyAddress, layout.EncoderAddr, layout.KeymapAddr, Bswap16, KeycodeIn;
      SwappedWrite(keycode);
      eeprom.UpdateWord(address, Bswap16(keycode));
      SetChangesOneKey(layout, before, layer, row, col, keycode, layerBuffer, rowBuffer, colBuffer);
    }

    /** keycode_at_keymap_location: a cached keycode is answered from the cache; the
        answer is the stored keycode as long as the cache agrees with the EEPROM. */
    method KeycodeAt(layer: nat, row: nat, col: nat) returns (keycode: Keycode)
      requires Valid()
      modifies this
      ensures old(Coherent()) ==> Coherent() && keycode == KeycodeIn(layout, eeprom.mem[..], layer, row, col)
      ensures layout.HasKey(layer, row, col) && old((layerBuffer, rowBuffer, colBuffer)) == (layer, row, col)
        ==> keycode == old(keycodeBuffer)
      ensures layout.HasKey(layer, row, col) ==>
        (layerBuffer, rowBuffer, colBuffer) == (layer, row, col) && keycodeBuffer == keycode
    {
      if layer < layout.layers && row < layout.rows && col < layout.cols {
        if layer != layerBuffer || row != rowBuffer || col != colBuffer {
          layerBuffer := layer;
          rowBuffer := row;
          colBuffer := col;
          keycodeBuffer := GetKeycode(layer, row, col);
        }
        return keycodeBuffer;
      }
      return KC_NO;
    }

    /** dynamic_keymap_get_buffer */
    method GetBuffer(offset: nat, size: nat) returns (data: seq<Byte>)
      requires Valid()
      ensures |data| == size
      ensures forall i :: 0 <= i < size ==> data[i] == WindowByte(layout, eeprom.mem[..], offset + i)
    {
      data := [];
      var source := layout.KeymapAddr() + offset;
      for i := 0 to size
        invariant |data| == i && source == layout.KeymapAddr() + offset + i
        invariant forall j :: 0 <= j < i ==> data[j] == WindowByte(layout, eeprom.mem[..], offset + j)
      {
        var value := 0;
        if offset + i < 2 * layout.Slots() {
          value := eeprom.ReadByte(source);
        }
        data := data + [value];
        source := source + 1;
      }
    }

    /** dynamic_keymap_set_buffer writes the same bytes past the cache, which agrees with
        the EEPROM afterwards if and only if the bytes of the cached key did not change. */
    method SetBuffer(offset: nat, data: seq<Byte>)
      requires Valid()
      modifies eeprom.mem, eeprom`trace, eeprom`transactions
      ensures eeprom.mem[..] == WithWindow(layout, old(eeprom.mem[..]), offset, data)
      ensures old(Coherent()) ==> (Coherent() <==> CacheMissed(old(eeprom.mem[..]), offset, data))
    {
      var target := layout.KeymapAddr() + offset;
      ghost var before := eeprom.mem[..];
      for i := 0 to |data|
        invariant target == layout.KeymapAddr() + offset + i
        invariant eeprom.mem[..] == WithWindow(layout, before, offset, data[..i])
      {
        if offset + i < 2 * layout.Slots() {
          eeprom.UpdateByte(target, data[i]);
        }
        target := target + 1;
      }
      assert data[..|data|] == data;
      if layout.HasKey(layerBuffer, rowBuffer, colBuffer) {
        CachedKeyAfterWindow(layout, before, offset, data, layerBuffer, rowBuffer, colBuffer);
      }
    }

    /** A window does not reach the cached key, or leaves its bytes as they are. */
    ghost predicate CacheMissed(mem: seq<Byte>, offset: nat, data: seq<Byte>)
      requires layout.Valid(|mem|)
      reads this
    {
      layout.HasKey(layerBuffer, rowBuffer, colBuffer) ==>
        var a := layout.KeyAddress(layerBuffer, rowBuffer, colBuffer);
        a + 1 < |mem| && Harmless(layout, mem, offset, data, a) && Harmless(layout, mem, offset, data, a + 1)
    }

    /** A key is looked up, its keycode is replaced through a window, and it is looked up
        again: the answer is the old keycode. */
    method StaleAnswer(layer: nat, row: nat, col: nat, keycode: Keycode) returns (stale: Keycode)
      requires Valid() && Coherent() && layout.HasKey(layer, row, col)
      modifies this, eeprom.mem, eeprom`trace, eeprom`transactions
      ensures stale == KeycodeIn(layout, old(eeprom.mem[..]), layer, row, col)
      ensures KeycodeIn(layout, eeprom.mem[..], layer, row, col) == keycode
    {
      var first := KeycodeAt(layer, row, col);
      KeyInside(layout, eeprom.mem.Length, layer, row, col);
      ghost var before := eeprom.mem[..];
      var a := layout.KeyAddress(layer, row, col);
      var offset := a - layout.KeymapAddr();
      SetBuffer(offset, WordBytes(keycode));
      assert KeycodeIn(layout, eeprom.mem[..], layer, row, col) == keycode by {
        WindowBytes(layout, before, a, keycode);
        hide layout.KeyAddress, layout.KeymapAddr, layout.EncoderAddr, WithWindow, WordBytes;
      }
      stale := KeycodeAt(layer, row, col);
    }

    /** dynamic_keymap_get_encoder */
    method GetEncoder(layer: nat, encoder: nat, clockwise: bool) returns (keycode: Keycode)
      requires Valid()
      ensures keycode == EncoderIn(layout, eeprom.mem[..], layer, encoder, clockwise)
    {
      if layer >= layout.layers || encoder >= layout.encoders {
        return KC_NO;
      }
      EncoderInside(layout, eeprom.mem.Length, layer, encoder, clockwise);
      var address := layout.EncoderAddress(layer, encoder, clockwise);
      var high := eeprom.ReadByte(address);
      var low := eeprom.ReadByte(address + 1);
      keycode := MakeWord(high, low);
    }

    /** dynamic_keymap_set_encoder */
    method SetEncoder(layer: nat, encoder: nat, clockwise: bool, keycode: Keycode)
      requires Valid()
      modifies eeprom.mem, eeprom`trace, eeprom`transactions
      ensures layout.HasEncoder(layer, encoder) ==>
        var address := layout.EncoderAddress(layer, encoder, clockwise);
        && address + 1 < eeprom.mem.Length
        && eeprom.mem[..] == FlatWrite(old(eeprom.mem[..]), address, WordBytes(keycode))
        && eeprom.trace == old(eeprom.trace) + BlockWrites(address, WordBytes(keycode))
      ensures !layout.HasEncoder(layer, encoder) ==>
        eeprom.mem[..] == old(eeprom.mem[..]) && eeprom.trace == old(eeprom.trace)
    {
      if layer >= layout.layers || encoder >= layout.encoders {
        return;
      }
      EncoderInside(layout, eeprom.mem.Length, layer, encoder, clockwise);
      var address := layout.EncoderAddress(layer, encoder, clockwise);
      hide layout.EncoderAddress, layout.EncoderAddr, layout.KeymapAddr, layout.MacroAddr;
      ghost var before := eeprom.mem[..];
      eeprom.UpdateByte(address, keycode / 256);
      eeprom.UpdateByte(address + 1, keycode % 256);
      assert eeprom.mem[..] == FlatWrite(before, address, WordBytes(keycode));
      assert BlockWrites(address, WordBytes(keycode))
          == [Write(address, keycode / 256)] + [Write(address + 1, keycode % 256)];
    }

    /** The encoder part of one turn of dynamic_keymap_reset. */
    method ResetEncoders(f: Flash, layer: nat)
      requires Valid() && layer < layout.layers
      modifies eeprom.mem, eeprom`trace, eeprom`transactions
      ensures var address, data := layout.EncoderAddress(layer, 0, true), Bytes(EncoderWords(layout, f, layer));
        && address + |data| <= eeprom.mem.Length
        && eeprom.mem[..] == FlatWrite(old(eeprom.mem[..]), address, data)
        && eeprom.trace == old(eeprom.trace) + BlockWrites(address, data)
    {
      ghost var start := layout.EncoderAddress(layer, 0, true);
      assert start + 4 * layout.encoders <= eeprom.mem.Length by {
        LayerRegion(layout, layer);
      }
      assert FlatWrite(eeprom.mem[..], start, []) == eeprom.mem[..];
      ghost var mem0, trace0 := eeprom.mem[..], eeprom.trace;
      hide FlatWrite, BlockWrites, Bytes, EncoderWords, layout.EncoderAddress, layout.Valid, layout.EncoderAddr,
          layout.KeymapAddr, layout.MacroAddr;
      for encoder := 0 to layout.encoders
        invariant eeprom.mem[..] == FlatWrite(mem0, start, EncoderBytes(layout, f, layer, encoder))
        invariant eeprom.trace == trace0 + BlockWrites(start, EncoderBytes(layout, f, layer, encoder))
      {
        ResetEncoder(f, layer, encoder, mem0, trace0);
      }
      EncoderBytesAre(layout, f, layer, layout.encoders);
      assert EncoderWords(layout, f, layer)[..2 * layout.encoders] == EncoderWords(layout, f, layer);
    }

    /** One turn of the loop: both directions of one encoder. */
    method ResetEncoder(f: Flash, layer: nat, encoder: nat, ghost mem0: seq<Byte>, ghost trace0: seq<Write>)
      requires Valid() && layout.HasEncoder(layer, encoder)
      requires layout.EncoderAddress(layer, 0, true) + 4 * layout.encoders <= |mem0|
      requires var start, done := layout.EncoderAddress(layer, 0, true), EncoderBytes(layout, f, layer, encoder);
        eeprom.mem[..] == FlatWrite(mem0, start, done) && eeprom.trace == trace0 + BlockWrites(start, done)
      modifies eeprom.mem, eeprom`trace, eeprom`transactions
      ensures var start, done := layout.EncoderAddress(layer, 0, true), EncoderBytes(layout, f, layer, encoder + 1);
        eeprom.mem[..] == FlatWrite(mem0, start, done) && eeprom.trace == trace0 + BlockWrites(start, done)
    {
      ghost var start := layout.EncoderAddress(layer, 0, true);
      ghost var done := EncoderBytes(layout, f, layer, encoder);
      ghost var one := done + WordBytes(f.encoder(layer, encoder, true));
      assert EncoderBytes(layout, f, layer, encoder + 1) == one + WordBytes(f.encoder(layer, encoder, false));
      EncoderChunk(layout, layer, encoder);
      hide FlatWrite, BlockWrites, WordBytes, EncoderBytes, layout.EncoderAddress, layout.Valid,
          layout.EncoderAddr, layout.KeymapAddr, layout.MacroAddr;
      WriteNext(layer, encoder, true, f.encoder(layer, encoder, true), mem0, trace0, start, done);
      WriteNext(layer, encoder, false, f.encoder(layer, encoder, false), mem0, trace0, start, one);
    }

    /** One more keycode behind those already written. */
    method WriteNext(layer: nat, encoder: nat, clockwise: bool, keycode: Keycode,
                     ghost mem0: seq<Byte>, ghost trace0: seq<Write>, ghost start: nat, ghost done: seq<Byte>)
      requires Valid() && layout.HasEncoder(layer, encoder)
      requires layout.EncoderAddress(layer, encoder, clockwise) == start + |done|
      requires start + |done| + 2 <= |mem0|
      requires eeprom.mem[..] == FlatWrite(mem0, start, done)
      requires eeprom.trace == trace0 + BlockWrites(start, done)
      modifies eeprom.mem, eeprom`trace, eeprom`transactions
      ensures eeprom.mem[..] == FlatWrite(mem0, start, done + WordBytes(keycode))
      ensures eeprom.trace == trace0 + BlockWrites(start, done + WordBytes(keycode))
    {
      hide FlatWrite, BlockWrites, WordBytes, layout.EncoderAddress, layout.Valid;
      Consecutive(mem0, trace0, start, done, WordBytes(keycode), done + WordBytes(keycode));
      SetEncoder(layer, encoder, clockwise, keycode);
    }

    /** The keycodes of one layer, swapped, in a buffer shaped like the matrix. */
    method FillLayer(f: Flash, layer: nat) returns (buffer: array2<Word>)
      ensures fresh(buffer) && buffer.Length0 == layout.rows && buffer.Length1 == layout.cols
      ensures RawBytes(buffer) == Bytes(LayerWords(layout, f, layer))
    {
      buffer := new Word[layout.rows, layout.cols];
      for row := 0 to layout.rows
        invariant forall r, c :: 0 <= r < row && 0 <= c < layout.cols ==> buffer[r, c] == Bswap16(f.key(layer, r, c))
      {
        for col := 0 to layout.cols
          invariant forall r, c :: 0 <= r < row && 0 <= c < layout.cols ==> buffer[r, c] == Bswap16(f.key(layer, r, c))
          invariant forall c :: 0 <= c < col ==> buffer[row, c] == Bswap16(f.key(layer, row, c))
        {
          buffer[row, col] := f.key(layer, row, col);
          buffer[row, col] := Bswap16(buffer[row, col]);
        }
      }
      RawBytesSwapped(layout, f, layer, buffer);
    }

    /** dynamic_keymap_reset */
    method Reset(f: Flash)
      requires Valid()
      modifies this, eeprom.mem, eeprom`trace, eeprom`transactions
      ensures Coherent() && layerBuffer == 0xFF
      ensures var ws := ResetWrites(layout, f, layout.layers);
        && Eeprom.Fits(eeprom.mem.Length, ws)
        && eeprom.trace == old(eeprom.trace) + ws
        && eeprom.mem[..] == Replay(old(eeprom.mem[..]), ws)
    {
      layerBuffer, rowBuffer, colBuffer := 0xFF, 0xFF, 0xFF;
      for layer := 0 to layout.layers
        invariant layerBuffer == 0xFF
        invariant Eeprom.Fits(eeprom.mem.Length, ResetWrites(layout, f, layer))
        invariant eeprom.trace == old(eeprom.trace) + ResetWrites(layout, f, layer)
        invariant eeprom.mem[..] == Replay(old(eeprom.mem[..]), ResetWrites(layout, f, layer))
      {
        ResetLayer(f, layer, old(eeprom.mem[..]), old(eeprom.trace));
      }
    }

    /** One turn of its outer loop. */
    method ResetLayer(f: Flash, layer: nat, ghost mem0: seq<Byte>, ghost trace0: seq<Write>)
      requires Valid() && layer < layout.layers
      requires |mem0| == eeprom.mem.Length && Eeprom.Fits(|mem0|, ResetWrites(layout, f, layer))
      requires eeprom.trace == trace0 + ResetWrites(layout, f, layer)
      requires eeprom.mem[..] == Replay(mem0, ResetWrites(layout, f, layer))
      modifies eeprom.mem, eeprom`trace, eeprom`transactions
      ensures var ws := ResetWrites(layout, f, layer + 1);
        && Eeprom.Fits(|mem0|, ws)
        && eeprom.trace == trace0 + ws
        && eeprom.mem[..] == Replay(mem0, ws)
    {
      ResetStep(layout, f, layer, mem0, trace0);
      hide ResetWrites, layout.KeyAddress, layout.EncoderAddress, FlatWrite, BlockWrites, Replay, Bytes, RawBytes;
      var buffer := FillLayer(f, layer);
      eeprom.UpdateBlock(RawBytes(buffer), layout.KeyAddress(layer, 0, 0));
      ResetEncoders(f, layer);
    }
  }
}
