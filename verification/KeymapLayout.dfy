/** Where the persistent keymap lives in the EEPROM: the magic number, the
    layout options, the keycodes of all layers, the encoder map and the macros,
    one after the other. */
module KeymapLayout {
  import opened Eeprom

  type Keycode = Word

  const KC_NO: Keycode := 0

  /** The build-time configuration.  `maxAddr` is the last byte in use. */
  datatype Layout = Layout(magicAddr: nat, optionsSize: nat, customSize: nat,
                           layers: nat, rows: nat, cols: nat, encoders: nat, macroCount: nat, maxAddr: nat)
  {
    function OptionsAddr(): nat { magicAddr + 3 }

    function KeymapAddr(): nat { OptionsAddr() + optionsSize + customSize }

    function LayerSlots(): nat { rows * cols }

    function Slots(): nat { layers * LayerSlots() }

    function EncoderAddr(): nat { KeymapAddr() + 2 * Slots() }

    function EncoderSlots(): nat { layers * (2 * encoders) }

    function MacroAddr(): nat { EncoderAddr() + 2 * EncoderSlots() }

    function MacroSize(): nat
      requires MacroAddr() <= maxAddr
    {
      maxAddr - MacroAddr() + 1
    }

    /** What the static assertions demand of the configuration. */
    predicate Valid(size: nat) {
      && 1 <= optionsSize <= 4
      && layers <= 255 && rows <= 255 && cols <= 255 && encoders <= 255 && macroCount <= 255
      && MacroAddr() + 100 <= maxAddr < size
      && maxAddr <= 0xFFFF
    }

    predicate HasKey(layer: nat, row: nat, col: nat) {
      layer < layers && row < rows && col < cols
    }

    predicate HasEncoder(layer: nat, encoder: nat) {
      layer < layers && encoder < encoders
    }

    /** dynamic_keymap_key_to_eeprom_address */
    function KeyAddress(layer: nat, row: nat, col: nat): nat {
      KeymapAddr() + layer * rows * cols * 2 + row * cols * 2 + col * 2
    }

    /** dynamic_keymap_encoder_to_eeprom_address, plus 2 for the other direction */
    function EncoderAddress(layer: nat, encoder: nat, clockwise: bool): nat {
      EncoderAddr() + layer * encoders * 2 * 2 + encoder * 2 * 2 + (if clockwise then 0 else 2)
    }

    /** The number of a key when all layers are read row by row. */
    function Slot(layer: nat, row: nat, col: nat): nat {
      layer * LayerSlots() + (row * cols + col)
    }

    /** The key with a given number. */
    function SlotKey(i: nat): (k: (nat, nat, nat))
      requires i < Slots()
    {
      SlotsPositive(i);
      var j := i % LayerSlots();
      ColsPositive();
      (i / LayerSlots(), j / cols, j % cols)
    }

    lemma SlotsPositive(i: nat)
      requires i < Slots()
      ensures LayerSlots() > 0
    {
    }

    lemma ColsPositive()
      requires LayerSlots() > 0
      ensures rows > 0 && cols > 0
    {
    }

    // ----- Addressing is a bijection -----

    lemma SlotInRange(layer: nat, row: nat, col: nat)
      requires HasKey(layer, row, col)
      ensures row * cols + col < LayerSlots()
      ensures Slot(layer, row, col) < Slots()
    {
      MulMonotone(row + 1, rows, cols);
      MulMonotone(layer + 1, layers, LayerSlots());
    }

    /** Every key has its own number, and every number below Slots() its own key. */
    lemma SlotOfKey(layer: nat, row: nat, col: nat)
      requires HasKey(layer, row, col)
      ensures Slot(layer, row, col) < Slots()
      ensures SlotKey(Slot(layer, row, col)) == (layer, row, col)
    {
      SlotInRange(layer, row, col);
      DivMod(layer, row * cols + col, LayerSlots());
      DivMod(row, col, cols);
    }

    lemma KeyOfSlot(i: nat)
      requires i < Slots()
      ensures var k := SlotKey(i);
        HasKey(k.0, k.1, k.2) && Slot(k.0, k.1, k.2) == i
    {
      SlotsPositive(i);
      ColsPositive();
      var s := LayerSlots();
      var layer, j := i / s, i % s;
      assert i == layer * s + j;
      QuotientBelow(layer, j, layers, s);
      var row, col := j / cols, j % cols;
      assert j == row * cols + col;
      QuotientBelow(row, col, rows, cols);
    }

    /** dynamic_keymap_key_to_eeprom_address numbers the keys two bytes apart. */
    lemma KeyAddressIsSlot(layer: nat, row: nat, col: nat)
      ensures KeyAddress(layer, row, col) == KeymapAddr() + 2 * Slot(layer, row, col)
    {
      assert layer * rows * cols == layer * (rows * cols);
      assert layer * rows * cols * 2 == 2 * (layer * (rows * cols));
    }

    function EncoderSlot(layer: nat, encoder: nat, clockwise: bool): nat {
      layer * (2 * encoders) + (2 * encoder + if clockwise then 0 else 1)
    }

    lemma EncoderAddressIsSlot(layer: nat, encoder: nat, clockwise: bool)
      requires HasEncoder(layer, encoder)
      ensures EncoderAddress(layer, encoder, clockwise) == EncoderAddr() + 2 * EncoderSlot(layer, encoder, clockwise)
      ensures EncoderSlot(layer, encoder, clockwise) < EncoderSlots()
    {
      assert layer * encoders * 2 * 2 == 2 * (layer * (2 * encoders));
      MulMonotone(layer + 1, layers, 2 * encoders);
    }

    /** The encoder keycode with a given number: layer, encoder and direction. */
    function EncoderSlotKey(i: nat): (k: (nat, nat, bool))
      requires i < EncoderSlots()
    {
      EncodersPositive(i);
      var n := EncodersPerLayer();
      var j := i % n;
      (i / n, j / 2, j % 2 == 0)
    }

    function EncodersPerLayer(): nat { 2 * encoders }

    lemma EncodersPositive(i: nat)
      requires i < EncoderSlots()
      ensures EncodersPerLayer() > 0 && i / EncodersPerLayer() >= 0
    {
      QuotientNonNegative(i, EncodersPerLayer());
    }

    lemma KeyOfEncoderSlot(i: nat)
      requires i < EncoderSlots()
      ensures var k := EncoderSlotKey(i);
        HasEncoder(k.0, k.1) && EncoderSlot(k.0, k.1, k.2) == i
    {
      EncodersPositive(i);
      var n := 2 * encoders;
      assert i == (i / n) * n + i % n;
      QuotientBelow(i / n, i % n, layers, n);
    }

    /** The keys lie row by row and layer by layer, without a gap. */
    lemma KeysFollow(layer: nat, row: nat, col: nat)
      requires cols > 0 && rows > 0
      ensures KeyAddress(0, 0, 0) == KeymapAddr()
      ensures KeyAddress(layer, row, col + 1) == KeyAddress(layer, row, col) + 2
      ensures KeyAddress(layer, row + 1, 0) == KeyAddress(layer, row, cols - 1) + 2
      ensures KeyAddress(layer + 1, 0, 0) == KeyAddress(layer, rows - 1, cols - 1) + 2
      ensures layers > 0 ==> EncoderAddr() == KeyAddress(layers - 1, rows - 1, cols - 1) + 2
    {
      KeyAddressIsSlot(0, 0, 0);
      KeyAddressIsSlot(layer, row, col);
      KeyAddressIsSlot(layer, row, col + 1);
      KeyAddressIsSlot(layer, row + 1, 0);
      KeyAddressIsSlot(layer, row, cols - 1);
      LayerFollows(layer);
      if layers > 0 {
        LayerFollows(layers - 1);
        KeyAddressIsSlot(layers, 0, 0);
      }
    }

    lemma LayerFollows(layer: nat)
      requires cols > 0 && rows > 0
      ensures KeyAddress(layer + 1, 0, 0) == KeyAddress(layer, rows - 1, cols - 1) + 2
    {
      KeyAddressIsSlot(layer + 1, 0, 0);
      KeyAddressIsSlot(layer, rows - 1, cols - 1);
      assert (rows - 1) * cols + cols == rows * cols;
      assert (layer + 1) * LayerSlots() == layer * LayerSlots() + LayerSlots();
    }

    /** The encoders follow, four bytes each, clockwise first; then the macros, up to the end. */
    lemma EncodersFollow(layer: nat, encoder: nat)
      requires encoders > 0
      ensures EncoderAddress(0, 0, true) == EncoderAddr()
      ensures EncoderAddress(layer, encoder, false) == EncoderAddress(layer, encoder, true) + 2
      ensures EncoderAddress(layer, encoder + 1, true) == EncoderAddress(layer, encoder, false) + 2
      ensures EncoderAddress(layer + 1, 0, true) == EncoderAddress(layer, encoders - 1, false) + 2
      ensures layers > 0 ==> MacroAddr() == EncoderAddress(layers - 1, encoders - 1, false) + 2
      ensures MacroAddr() <= maxAddr ==> MacroAddr() + MacroSize() == maxAddr + 1
    {
      assert (layer + 1) * encoders * 2 * 2 == layer * encoders * 2 * 2 + encoders * 2 * 2;
      assert layers * encoders * 2 * 2 == layers * (2 * encoders) * 2;
      assert layers > 0 ==> (layers - 1) * encoders * 2 * 2 + encoders * 2 * 2 == layers * encoders * 2 * 2;
    }

    /** What the addresses begin with. */
    lemma RegionsFollow()
      ensures KeymapAddr() == magicAddr + 3 + optionsSize + customSize
      ensures layers == 0 || rows == 0 || cols == 0 ==> EncoderAddr() == KeymapAddr()
      ensures layers == 0 || encoders == 0 ==> MacroAddr() == EncoderAddr()
    {
      assert layers == 0 || rows == 0 || cols == 0 ==> layers * (rows * cols) == 0;
    }

    /** Two keys share a byte only if they are the same key. */
    lemma KeysDisjoint(a: nat, b: nat, c: nat, d: nat, e: nat, f: nat, x: nat, y: nat)
      requires HasKey(a, b, c) && HasKey(d, e, f) && x < 2 && y < 2
      requires KeyAddress(a, b, c) + x == KeyAddress(d, e, f) + y
      ensures a == d && b == e && c == f && x == y
    {
      KeyAddressIsSlot(a, b, c);
      KeyAddressIsSlot(d, e, f);
      SlotOfKey(a, b, c);
      SlotOfKey(d, e, f);
    }

    /** Every byte of the keymap region belongs to a key. */
    lemma EveryByteHasKey(addr: nat)
      requires KeymapAddr() <= addr < EncoderAddr()
      ensures var k := SlotKey((addr - KeymapAddr()) / 2);
        HasKey(k.0, k.1, k.2) && addr == KeyAddress(k.0, k.1, k.2) + (addr - KeymapAddr()) % 2
    {
      var i := (addr - KeymapAddr()) / 2;
      KeyOfSlot(i);
      var k := SlotKey(i);
      KeyAddressIsSlot(k.0, k.1, k.2);
    }
  }

  lemma QuotientNonNegative(i: nat, n: nat)
    requires n > 0
    ensures i / n >= 0
  {
  }

  lemma QuotientBelow(q: nat, r: nat, n: nat, b: nat)
    requires q * b + r < n * b
    ensures q < n
  {
    if n <= q {
      MulMonotone(n, q, b);
    }
  }
}
