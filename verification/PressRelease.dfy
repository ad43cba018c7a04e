/** Releases resolve where their presses did: hand swap (action.c) in front of the
    source layer cache (action_layer.c), over any run of events. */
module PressRelease {
  import opened Bits
  import opened PressMemory
  import opened TapModel

  /** The entry of the packed tables that belongs to a key.  The two directions of an
      encoder have one entry together. */
  datatype Cell = Cell(table: Table, index: nat) | NoCell

  datatype Table = Matrix | Encoders

  type Layer = bv8

  predicate OfEncoder(kind: EventKind) {
    kind == EncoderCw || kind == EncoderCcw
  }

  // ----- Geometry -----

  datatype Board = Board(rows: nat, cols: nat, encoders: nat, layerBits: nat,
                         handSwap: KeyPos -> KeyPos, encoderSwap: nat -> nat) {
    predicate InMatrix(key: KeyPos) {
      key.row < rows && key.col < cols
    }

    predicate InEncoders(key: KeyPos) {
      key.row == ENCODER_CW || key.row == ENCODER_CCW
    }

    /** Keys that exist: an encoder row comes with an existing encoder. */
    predicate Exists(key: KeyPos) {
      !InMatrix(key) && InEncoders(key) ==> key.col < encoders
    }

    /** The swap tables lead from keys of the board to keys of the board. */
    ghost predicate Valid() {
      && layerBits <= CHAR_BIT
      && (forall key :: InMatrix(key) ==> InMatrix(handSwap(key)))
      && (forall e :: 0 <= e < encoders ==> encoderSwap(e) < encoders)
    }

    function LayerCell(key: KeyPos): Cell {
      if InMatrix(key) then Cell(Matrix, key.row * cols + key.col)
      else if InEncoders(key) then Cell(Encoders, key.col)
      else NoCell
    }

    function SwapCell(kind: EventKind, key: KeyPos): Cell {
      if kind == Key && InMatrix(key) then Cell(Matrix, key.row * cols + key.col)
      else if OfEncoder(kind) && InEncoders(key) then Cell(Encoders, key.col)
      else NoCell
    }

    function Mirror(cell: Cell, key: KeyPos): KeyPos {
      match cell
      case Cell(Matrix, _) => handSwap(key)
      case Cell(Encoders, _) => KeyPos(key.row, encoderSwap(key.col))
      case NoCell => key
    }

    function Entries(t: Table): nat {
      match t
      case Matrix => rows * cols
      case Encoders => encoders
    }

    /** A key of the board is swapped to a key of the board. */
    lemma StillExists(kind: EventKind, key: KeyPos)
      requires Valid() && Exists(key) && (OfEncoder(kind) ==> !InMatrix(key))
      ensures Exists(Mirror(SwapCell(kind, key), key))
    {
    }

    lemma IndexInMatrix(key: KeyPos)
      requires InMatrix(key)
      ensures key.row * cols + key.col < rows * cols
    {
      var left := rows - 1 - key.row;
      assert left * cols >= 0;
      assert rows * cols == key.row * cols + cols + left * cols;
    }

    /** Two keys of the matrix never share an entry. */
    lemma MatrixCellsApart(a: KeyPos, b: KeyPos)
      requires InMatrix(a) && InMatrix(b) && a != b
      ensures LayerCell(a) != LayerCell(b)
    {
      if a.row < b.row {
        Above(a, b);
      } else if b.row < a.row {
        Above(b, a);
      }
    }

    lemma Above(a: KeyPos, b: KeyPos)
      requires InMatrix(a) && InMatrix(b) && a.row < b.row
      ensures a.row * cols + a.col < b.row * cols + b.col
    {
      var between := b.row - a.row - 1;
      assert between * cols >= 0;
      assert b.row * cols == a.row * cols + cols + between * cols;
    }
  }

  // ----- What is remembered -----

  datatype Notes = Notes(swap: map<Cell, bool>, layer: map<Cell, Layer>) {
    function Swapped(c: Cell): bool {
      if c in swap then swap[c] else false
    }

    function LayerAt(c: Cell): Layer {
      if c in layer then layer[c] else 0
    }

    function PutSwap(c: Cell, on: bool): Notes {
      this.(swap := swap[c := on])
    }

    function PutLayer(c: Cell, l: Layer): Notes {
      this.(layer := layer[c := l])
    }
  }

  const BLANK := Notes(map[], map[])

  /** One event as it arrives: the state of the swap toggle and the layers that the
      keymap would choose for each position are whatever they are at the time. */
  datatype Input = Input(kind: EventKind, key: KeyPos, pressed: bool, swapHands: bool,
                         top: KeyPos -> Layer, bypass: bool) {
    ghost predicate Fits(b: Board)
      requires b.layerBits <= CHAR_BIT
    {
      && b.Exists(key)
      && (OfEncoder(kind) ==> !b.InMatrix(key))
      && forall k :: Low(top(k), b.layerBits) == top(k)
    }
  }

  /** Where an event was resolved: the position looked up, and on which layer. */
  datatype Output = Output(position: KeyPos, layer: Layer)

  function SwapStep(b: Board, n: Notes, kind: EventKind, key: KeyPos, pressed: bool, swapHands: bool): (Notes, KeyPos) {
    var c := b.SwapCell(kind, key);
    if c == NoCell then (n, key)
    else
      var doSwap := if pressed then swapHands else n.Swapped(c);
      (n.PutSwap(c, doSwap), if doSwap then b.Mirror(c, key) else key)
  }

  function LayerStep(b: Board, n: Notes, key: KeyPos, pressed: bool, chosen: Layer, bypass: bool): (Notes, Layer)
    requires b.layerBits <= CHAR_BIT
  {
    var c := b.LayerCell(key);
    if bypass then (n, chosen)
    else if !pressed then (n, n.LayerAt(c))
    else if c == NoCell then (n, chosen)
    else (n.PutLayer(c, Low(chosen, b.layerBits)), chosen)
  }

  function Step(b: Board, n: Notes, e: Input): (Notes, Output)
    requires b.layerBits <= CHAR_BIT
  {
    var (n1, position) := SwapStep(b, n, e.kind, e.key, e.pressed, e.swapHands);
    var (n2, layer) := LayerStep(b, n1, position, e.pressed, e.top(position), e.bypass);
    (n2, Output(position, layer))
  }

  /** What is remembered after the first `k` events. */
  function After(b: Board, run: seq<Input>, k: nat): Notes
    requires b.layerBits <= CHAR_BIT && k <= |run|
  {
    if k == 0 then BLANK else Step(b, After(b, run, k - 1), run[k - 1]).0
  }

  function Resolved(b: Board, run: seq<Input>, i: nat): Output
    requires b.layerBits <= CHAR_BIT && i < |run|
  {
    Step(b, After(b, run, i), run[i]).1
  }

  // ----- Positions -----

  predicate SameKey(a: Input, b: Input) {
    a.kind == b.kind && a.key == b.key
  }

  /** `j` is a press and no other press that shares its swap bit comes before `i`. */
  predicate LastSwapPress(b: Board, run: seq<Input>, j: nat, i: nat)
    requires j < i <= |run|
  {
    && run[j].pressed
    && forall k :: j < k < i && run[k].pressed
         ==> b.SwapCell(run[k].kind, run[k].key) != b.SwapCell(run[j].kind, run[j].key)
  }

  /** The swap bit of a key stays what its last press made it. */
  lemma {:induction false} SwapRemembered(b: Board, run: seq<Input>, j: nat, i: nat)
    requires b.layerBits <= CHAR_BIT && j < i <= |run| && LastSwapPress(b, run, j, i)
    requires b.SwapCell(run[j].kind, run[j].key) != NoCell
    ensures After(b, run, i).Swapped(b.SwapCell(run[j].kind, run[j].key)) == run[j].swapHands
  {
    if i > j + 1 {
      SwapRemembered(b, run, j, i - 1);
    }
  }

  /** Where a press is resolved. */
  function PressPosition(b: Board, e: Input): KeyPos {
    if e.swapHands then b.Mirror(b.SwapCell(e.kind, e.key), e.key) else e.key
  }

  /** A release is swapped exactly if the last press that shares its bit was. */
  lemma PositionFollowsPress(b: Board, run: seq<Input>, j: nat, i: nat)
    requires b.layerBits <= CHAR_BIT && j < i < |run| && LastSwapPress(b, run, j, i) && !run[i].pressed
    requires b.SwapCell(run[i].kind, run[i].key) == b.SwapCell(run[j].kind, run[j].key)
    ensures var c := b.SwapCell(run[i].kind, run[i].key);
      Resolved(b, run, i).position == if run[j].swapHands then b.Mirror(c, run[i].key) else run[i].key
    ensures SameKey(run[i], run[j]) ==> Resolved(b, run, i).position == Resolved(b, run, j).position
  {
    if b.SwapCell(run[j].kind, run[j].key) != NoCell {
      SwapRemembered(b, run, j, i);
    }
  }

  // ----- Layers -----

  /** A press whose layer goes to an entry. */
  predicate PressesAt(b: Board, e: Input, c: Cell) {
    e.pressed && !e.bypass && b.LayerCell(PressPosition(b, e)) == c
  }

  /** The last press before `i` whose layer went to an entry, or -1. */
  function LastPress(b: Board, run: seq<Input>, i: nat, c: Cell): (k: int)
    requires i <= |run|
    ensures -1 <= k < i
    ensures 0 <= k ==> PressesAt(b, run[k], c)
    ensures forall m :: k < m < i ==> !PressesAt(b, run[m], c)
  {
    if i == 0 then -1
    else if PressesAt(b, run[i - 1], c) then i - 1
    else LastPress(b, run, i - 1, c)
  }

  /** The layer chosen by a press, for the position it was resolved at. */
  function ChosenLayer(b: Board, e: Input): Layer {
    e.top(PressPosition(b, e))
  }

  lemma {:induction false} LayerRemembered(b: Board, run: seq<Input>, i: nat, c: Cell)
    requires b.layerBits <= CHAR_BIT && i <= |run| && c != NoCell
    requires forall e <- run :: e.Fits(b)
    ensures var k := LastPress(b, run, i, c);
      After(b, run, i).LayerAt(c) == if k < 0 then 0 else ChosenLayer(b, run[k])
  {
    if i > 0 {
      assert run[i - 1].Fits(b);
      hide Step, PressesAt, Input.Fits;
      LayerRemembered(b, run, i - 1, c);
      LayerAfterStep(b, After(b, run, i - 1), run[i - 1], c);
    }
  }

  lemma LayerAfterStep(b: Board, n: Notes, e: Input, c: Cell)
    requires b.layerBits <= CHAR_BIT && c != NoCell && e.Fits(b)
    ensures Step(b, n, e).0.LayerAt(c) == if PressesAt(b, e, c) then ChosenLayer(b, e) else n.LayerAt(c)
  {
  }

  /** The layer of a release is the layer chosen by the last press resolved to the
      same entry, or 0 when there was none. */
  lemma LayerFollowsEntry(b: Board, run: seq<Input>, i: nat)
    requires b.layerBits <= CHAR_BIT && i < |run| && forall e <- run :: e.Fits(b)
    requires !run[i].pressed && !run[i].bypass
    ensures var c := b.LayerCell(Resolved(b, run, i).position);
      var k := LastPress(b, run, i, c);
      Resolved(b, run, i).layer == if c == NoCell || k < 0 then 0 else ChosenLayer(b, run[k])
  {
    var c := b.LayerCell(Resolved(b, run, i).position);
    NoLayerOutside(b, run, i);
    if c != NoCell {
      LayerRemembered(b, run, i, c);
    }
  }

  lemma {:induction false} NoLayerOutside(b: Board, run: seq<Input>, i: nat)
    requires b.layerBits <= CHAR_BIT && i <= |run|
    ensures After(b, run, i).LayerAt(NoCell) == 0
  {
    if i > 0 {
      NoLayerOutside(b, run, i - 1);
    }
  }

  /** An event past the cache is looked up on the layer of the moment. */
  lemma BypassOnTop(b: Board, run: seq<Input>, i: nat)
    requires b.layerBits <= CHAR_BIT && i < |run| && run[i].bypass
    ensures var r := Resolved(b, run, i);
      r.layer == run[i].top(r.position)
  {
  }

  /** A release without any press that shares its bit is not swapped. */
  lemma {:induction false} NeverPressed(b: Board, run: seq<Input>, i: nat, c: Cell)
    requires b.layerBits <= CHAR_BIT && i <= |run|
    requires forall k :: 0 <= k < i && run[k].pressed ==> b.SwapCell(run[k].kind, run[k].key) != c
    ensures !After(b, run, i).Swapped(c)
    ensures i < |run| && !run[i].pressed && b.SwapCell(run[i].kind, run[i].key) == c
      ==> Resolved(b, run, i).position == run[i].key
  {
    if i > 0 {
      NeverPressed(b, run, i - 1, c);
    }
  }

  lemma PressResolved(b: Board, run: seq<Input>, j: nat)
    requires b.layerBits <= CHAR_BIT && j < |run| && run[j].pressed
    ensures Resolved(b, run, j) == Output(PressPosition(b, run[j]), ChosenLayer(b, run[j]))
  {
  }

  // ----- Releases follow presses -----

  /** No key was pressed at the position of a press before its release. */
  predicate Undisturbed(b: Board, run: seq<Input>, j: nat, i: nat)
    requires j < i <= |run|
  {
    forall k :: j < k < i && run[k].pressed && !run[k].bypass
      ==> PressPosition(b, run[k]) != PressPosition(b, run[j])
  }

  /** A matrix key's release is resolved at the position of its latest press, however
      layers and the swap toggle changed in between and whatever other keys did.  Its
      layer is the one that the last press at that position chose: the same layer as that
      of its own press if and only if that press, its own or another key's, chose the
      same, and certainly if no other key was pressed there. */
  lemma ReleaseFollowsPress(b: Board, run: seq<Input>, j: nat, i: nat)
    requires b.Valid() && j < i < |run| && forall e <- run :: e.Fits(b)
    requires SameKey(run[i], run[j]) && run[j].kind == Key && b.InMatrix(run[j].key)
    requires run[j].pressed && !run[i].pressed && !run[j].bypass && !run[i].bypass
    requires forall k :: j < k < i && run[k].pressed ==> !SameKey(run[k], run[j])
    ensures var p := PressPosition(b, run[j]);
      var k := LastPress(b, run, i, b.LayerCell(p));
      && j <= k && PressPosition(b, run[k]) == p
      && Resolved(b, run, j) == Output(p, run[j].top(p))
      && Resolved(b, run, i) == Output(p, run[k].top(p))
      && (Resolved(b, run, i) == Resolved(b, run, j) <==> run[k].top(p) == run[j].top(p))
    ensures Undisturbed(b, run, j, i) ==> Resolved(b, run, i) == Resolved(b, run, j)
  {
    forall k | j < k < i && run[k].pressed
      ensures b.SwapCell(run[k].kind, run[k].key) != b.SwapCell(run[j].kind, run[j].key)
    {
      if run[k].kind == Key && b.InMatrix(run[k].key) {
        assert !SameKey(run[k], run[j]);
        b.MatrixCellsApart(run[k].key, run[j].key);
      }
    }
    PositionFollowsPress(b, run, j, i);
    LayerFollowsEntry(b, run, i);
    PressResolved(b, run, j);
    hide Resolved;
    var p := PressPosition(b, run[j]);
    assert b.InMatrix(p);
    var k := LastPress(b, run, i, b.LayerCell(p));
    assert PressesAt(b, run[j], b.LayerCell(p));
    var q := PressPosition(b, run[k]);
    if q != p && b.InMatrix(q) {
      b.MatrixCellsApart(p, q);
    }
  }

  /** The press and the release of an encoder's click come one after the other, and are
      resolved alike, although the two directions of an encoder share their entries. */
  lemma ClickResolvedAlike(b: Board, run: seq<Input>, i: nat)
    requires b.Valid() && i + 1 < |run| && forall e <- run :: e.Fits(b)
    requires OfEncoder(run[i].kind) && b.InEncoders(run[i].key) && SameKey(run[i + 1], run[i])
    requires run[i].pressed && !run[i + 1].pressed && !run[i].bypass && !run[i + 1].bypass
    ensures Resolved(b, run, i + 1) == Resolved(b, run, i)
  {
    PositionFollowsPress(b, run, i, i + 1);
    LayerFollowsEntry(b, run, i + 1);
    PressResolved(b, run, i);
    hide Resolved;
    assert run[i].Fits(b);
    assert b.LayerCell(PressPosition(b, run[i])) != NoCell;
    assert PressesAt(b, run[i], b.LayerCell(PressPosition(b, run[i])));
  }

  /** The disturbance that `Undisturbed` excludes is possible: a key swapped onto the
      position of another, which is then pressed itself after the swap was turned off. */
  lemma SwappedOntoAnother(b: Board, one: Layer, two: Layer, a: KeyPos) returns (run: seq<Input>)
    requires b.Valid() && b.InMatrix(a) && b.handSwap(a) != a && one != two
    requires Low(one, b.layerBits) == one && Low(two, b.layerBits) == two
    ensures forall e <- run :: e.Fits(b)
    ensures |run| == 3 && SameKey(run[2], run[0]) && run[0].key == a && !SameKey(run[1], run[0])
    ensures run[0].pressed && run[1].pressed && !run[2].pressed
    ensures Resolved(b, run, 2).position == Resolved(b, run, 0).position
    ensures Resolved(b, run, 0).layer == one && Resolved(b, run, 2).layer == two
  {
    var onto := b.handSwap(a);
    run := [Input(Key, a, true, true, _ => one, false),
            Input(Key, onto, true, false, _ => two, false),
            Input(Key, a, false, false, _ => two, false)];
    ReleaseFollowsPress(b, run, 0, 2);
    assert PressesAt(b, run[1], b.LayerCell(onto));
  }

  // ----- Choosing a layer -----

  predicate On(layers: bv32, i: nat)
    requires i < 32
  {
    layers & (1 << i) != 0
  }

  /** The highest of the first `n` layers that is on and not transparent for a key, or
      layer 0. */
  function TopLayer(layers: bv32, transparent: (nat, KeyPos) -> bool, key: KeyPos, n: nat): (i: nat)
    requires n <= 32
    ensures i < n || i == 0
    ensures i != 0 ==> On(layers, i) && !transparent(i, key)
    ensures forall j :: i < j < n ==> !On(layers, j) || transparent(j, key)
  {
    if n == 0 then 0
    else if On(layers, n - 1) && !transparent(n - 1, key) then n - 1
    else TopLayer(layers, transparent, key, n - 1)
  }

  function TopByte(layers: bv32, transparent: (nat, KeyPos) -> bool, key: KeyPos, n: nat): Layer {
    if n <= 32 then TopLayer(layers, transparent, key, n) as bv8 else 0
  }

  /** A layer is on in two words together exactly when it is on in one of them. */
  lemma OnEither(a: bv32, b: bv32, i: nat)
    requires i < 32
    ensures On(a | b, i) <==> On(a, i) || On(b, i)
  {
    var bit: bv32 := 1 << i;
    assert (a | b) & bit == (a & bit) | (b & bit);
  }

  /** The highest layer below `max` that is on in either word and not transparent for a key,
      or layer 0. */
  ghost predicate Highest(state: bv32, default: bv32, transparent: (nat, KeyPos) -> bool, key: KeyPos, max: nat, i: nat)
    requires max <= 32
  {
    && (i != 0 ==> i < max && (On(state, i) || On(default, i)) && !transparent(i, key))
    && forall j :: i < j < max && (On(state, j) || On(default, j)) ==> transparent(j, key)
  }

  /** There is just one such layer. */
  lemma HighestIsOne(state: bv32, default: bv32, transparent: (nat, KeyPos) -> bool, key: KeyPos, max: nat,
                     i: nat, j: nat)
    requires max <= 32
    requires Highest(state, default, transparent, key, max, i) && Highest(state, default, transparent, key, max, j)
    ensures i == j
  {
    hide On;
  }

  lemma TopIsHighest(state: bv32, default: bv32, transparent: (nat, KeyPos) -> bool, key: KeyPos, max: nat)
    requires max <= 32
    ensures Highest(state, default, transparent, key, max, TopLayer(state | default, transparent, key, max))
  {
    hide On;
    forall j: nat | j < 32
      ensures On(state | default, j) <==> On(state, j) || On(default, j)
    {
      OnEither(state, default, j);
    }
  }

  lemma ByteValue(i: nat, b: bv8)
    requires i < 32 && b == i as bv8
    ensures b as nat == i
  {
  }

  lemma HighestByte(state: bv32, default: bv32, transparent: (nat, KeyPos) -> bool, key: KeyPos, max: nat, b: bv8)
    requires max <= 32
    requires b == TopByte(state | default, transparent, key, max)
    ensures Highest(state, default, transparent, key, max, b as nat)
  {
    hide On, Highest, TopLayer;
    TopIsHighest(state, default, transparent, key, max);
    ByteValue(TopLayer(state | default, transparent, key, max), b);
  }

  /** A layer that the layer bits can number is stored unchanged. */
  lemma LayerFits(i: nat, bits: nat)
    requires bits < CHAR_BIT && i < Bit(bits) as nat
    ensures Low(i as bv8, bits) == i as bv8
  {
    BitValue(bits);
    var x, n := i as bv8, Bit(bits);
    assert x < n;
  }

  // ----- The tables in memory -----

  predicate SwapsHeld(bytes: seq<bv8>, n: Notes, t: Table, entries: nat)
    requires |bytes| == Bytes(entries)
  {
    forall i :: 0 <= i < entries ==> EntryBit(bytes, i) == n.Swapped(Cell(t, i))
  }

  ghost predicate LayersHeld(cache: array2<bv8>, n: Notes, t: Table, entries: nat)
    requires cache.Length0 == Bytes(entries) && cache.Length1 <= CHAR_BIT
    reads cache
  {
    forall i :: 0 <= i < entries ==> StoredLayer(cache, i) == n.LayerAt(Cell(t, i))
  }

  lemma SwapNoted(was: seq<bv8>, bytes: seq<bv8>, n: Notes, t: Table, entries: nat, index: nat, on: bool)
    requires |was| == |bytes| == Bytes(entries) && index < entries && SwapsHeld(was, n, t, entries)
    requires EntryBit(bytes, index) == on
    requires forall k: nat :: k != index && k / CHAR_BIT < |was| ==> EntryBit(bytes, k) == EntryBit(was, k)
    ensures SwapsHeld(bytes, n.PutSwap(Cell(t, index), on), t, entries)
  {
    hide EntryBit;
    forall i | 0 <= i < entries
      ensures EntryBit(bytes, i) == n.PutSwap(Cell(t, index), on).Swapped(Cell(t, i))
    {
      assert i != index ==> EntryBit(was, i) == n.Swapped(Cell(t, i));
    }
  }

  /** Notes about one table leave the other alone. */
  lemma SwapNotedElsewhere(bytes: seq<bv8>, n: Notes, t: Table, entries: nat, c: Cell, on: bool)
    requires |bytes| == Bytes(entries) && c != NoCell && c.table != t && SwapsHeld(bytes, n, t, entries)
    ensures SwapsHeld(bytes, n.PutSwap(c, on), t, entries)
  {
    hide EntryBit;
  }

  lemma LayerNotedElsewhere(cache: array2<bv8>, n: Notes, t: Table, entries: nat, c: Cell, l: Layer)
    requires cache.Length0 == Bytes(entries) && cache.Length1 <= CHAR_BIT
    requires c != NoCell && c.table != t && LayersHeld(cache, n, t, entries)
    ensures LayersHeld(cache, n.PutLayer(c, l), t, entries)
  {
    hide StoredLayer;
  }

  /** Tables of zeros hold nothing. */
  lemma BlankEntries(bytes: seq<bv8>, t: Table, entries: nat, cache: array2<bv8>)
    requires |bytes| == cache.Length0 == Bytes(entries) && cache.Length1 <= CHAR_BIT
    requires forall a :: 0 <= a < |bytes| ==> bytes[a] == 0
    requires forall a, j :: 0 <= a < cache.Length0 && 0 <= j < cache.Length1 ==> cache[a, j] == 0
    ensures SwapsHeld(bytes, BLANK, t, entries) && LayersHeld(cache, BLANK, t, entries)
  {
    hide Spelled;
    forall i | 0 <= i < entries
      ensures StoredLayer(cache, i) == 0
    {
      NothingSpelled(Slices(cache, i), i % CHAR_BIT);
    }
  }

  lemma {:induction false} NothingSpelled(slices: seq<bv8>, bit: nat)
    requires bit < CHAR_BIT && |slices| <= CHAR_BIT && forall j :: 0 <= j < |slices| ==> slices[j] == 0
    ensures Spelled(slices, bit) == 0
  {
    if slices != [] {
      NothingSpelled(slices[..|slices| - 1], bit);
    }
  }

  class Keyboard {
    const board: Board
    const maxLayer: nat
    const matrixSwapState: array<bv8>
    const encoderSwapState: array<bv8>
    const sourceLayersCache: array2<bv8>
    const encoderSourceLayersCache: array2<bv8>
    var swapHands: bool
    var disableActionCache: bool
    var layerState: bv32
    var defaultLayerState: bv32
    ghost var notes: Notes

    ghost predicate Shaped() {
      && board.Valid()
      && board.layerBits < CHAR_BIT && maxLayer <= 32 && maxLayer <= Bit(board.layerBits) as nat
      && matrixSwapState.Length == sourceLayersCache.Length0 == Bytes(board.rows * board.cols)
      && encoderSwapState.Length == encoderSourceLayersCache.Length0 == Bytes(board.encoders)
      && sourceLayersCache.Length1 == encoderSourceLayersCache.Length1 == board.layerBits
      && matrixSwapState != encoderSwapState
      && sourceLayersCache != encoderSourceLayersCache
    }

    /** The packed tables hold what is noted for every entry. */
    ghost predicate Valid()
      reads this, matrixSwapState, encoderSwapState, sourceLayersCache, encoderSourceLayersCache
    {
      && Shaped()
      && SwapsHeld(matrixSwapState[..], notes, Matrix, board.Entries(Matrix))
      && SwapsHeld(encoderSwapState[..], notes, Encoders, board.Entries(Encoders))
      && LayersHeld(sourceLayersCache, notes, Matrix, board.Entries(Matrix))
      && LayersHeld(encoderSourceLayersCache, notes, Encoders, board.Entries(Encoders))
      && notes.LayerAt(NoCell) == 0
    }

    constructor (board: Board, maxLayer: nat)
      requires board.Valid() && board.layerBits < CHAR_BIT
      requires maxLayer <= 32 && maxLayer <= Bit(board.layerBits) as nat
      ensures Valid() && notes == BLANK && this.board == board && this.maxLayer == maxLayer
      ensures fresh(matrixSwapState) && fresh(encoderSwapState)
      ensures fresh(sourceLayersCache) && fresh(encoderSourceLayersCache)
    {
      this.board, this.maxLayer := board, maxLayer;
      swapHands, disableActionCache := false, false;
      layerState, defaultLayerState := 0, 0;
      var matrix, encoders := Bytes(board.rows * board.cols), Bytes(board.encoders);
      matrixSwapState := new bv8[matrix](_ => 0);
      encoderSwapState := new bv8[encoders](_ => 0);
      sourceLayersCache := new bv8[matrix, board.layerBits]((_, _) => 0);
      encoderSourceLayersCache := new bv8[encoders, board.layerBits]((_, _) => 0);
      notes := BLANK;
      new;
      BlankEntries(matrixSwapState[..], Matrix, board.Entries(Matrix), sourceLayersCache);
      BlankEntries(encoderSwapState[..], Encoders, board.Entries(Encoders), encoderSourceLayersCache);
    }

    /** Takes the swap decision for one entry and remembers it. */
    method DecideSwap(t: Table, index: nat, pressed: bool) returns (doSwap: bool)
      requires Valid() && index < board.Entries(t)
      modifies this`notes, matrixSwapState, encoderSwapState
      ensures Valid()
      ensures doSwap == if pressed then swapHands else old(notes).Swapped(Cell(t, index))
      ensures notes == old(notes).PutSwap(Cell(t, index), doSwap)
    {
      hide EntryBit, StoredLayer, Board.Valid;
      var swapState := if t == Matrix then matrixSwapState else encoderSwapState;
      ghost var other := if t == Matrix then encoderSwapState else matrixSwapState;
      ghost var otherTable := if t == Matrix then Encoders else Matrix;
      doSwap := ShouldSwapHands(index, swapState, pressed, swapHands);
      assert pressed || doSwap == old(notes).Swapped(Cell(t, index));
      SwapNotedElsewhere(other[..], notes, otherTable, board.Entries(otherTable), Cell(t, index), doSwap);
      SetSwapHandsState(index, swapState, doSwap);
      SwapNoted(old(swapState[..]), swapState[..], notes, t, board.Entries(t), index, doSwap);
      notes := notes.PutSwap(Cell(t, index), doSwap);
    }

    /** process_hand_swap */
    method ProcessHandSwap(kind: EventKind, key: KeyPos, pressed: bool) returns (swapped: KeyPos)
      requires Valid() && board.Exists(key) && (OfEncoder(kind) ==> !board.InMatrix(key))
      modifies this`notes, matrixSwapState, encoderSwapState
      ensures Valid()
      ensures notes == SwapStep(board, old(notes), kind, key, pressed, swapHands).0
      ensures swapped == SwapStep(board, old(notes), kind, key, pressed, swapHands).1
      ensures board.Exists(swapped)
      ensures var doSwap := if pressed then swapHands else old(notes).Swapped(board.SwapCell(kind, key));
        && (kind == Key && board.InMatrix(key) ==> swapped == if doSwap then board.handSwap(key) else key)
        && (OfEncoder(kind) && board.InEncoders(key) ==>
              swapped.row == key.row && swapped.col == if doSwap then board.encoderSwap(key.col) else key.col)
        && (!(kind == Key && board.InMatrix(key)) && !(OfEncoder(kind) && board.InEncoders(key)) ==> swapped == key)
    {
      board.StillExists(kind, key);
      swapped := key;
      hide Board.Valid, SwapsHeld, LayersHeld, Board.Exists, Board.Mirror;
      if kind == Key && board.InMatrix(key) {
        board.IndexInMatrix(key);
        swapped := SwapEntry(Matrix, key.row * board.cols + key.col, key, pressed);
      } else if OfEncoder(kind) && board.InEncoders(key) {
        swapped := SwapEntry(Encoders, key.col, key, pressed);
      }
    }

    /** The position of a key whose entry is known, by the swap tables. */
    method SwapEntry(t: Table, index: nat, key: KeyPos, pressed: bool) returns (swapped: KeyPos)
      requires Valid() && index < board.Entries(t)
      modifies this`notes, matrixSwapState, encoderSwapState
      ensures Valid()
      ensures var c := Cell(t, index);
        var doSwap := if pressed then swapHands else old(notes).Swapped(c);
        notes == old(notes).PutSwap(c, doSwap) && swapped == if doSwap then board.Mirror(c, key) else key
    {
      hide Board.Valid, SwapsHeld, LayersHeld;
      var doSwap := DecideSwap(t, index, pressed);
      if !doSwap {
        swapped := key;
      } else if t == Matrix {
        swapped := board.handSwap(key);
      } else {
        swapped := KeyPos(key.row, board.encoderSwap(key.col));
      }
    }

    /** The layer that the present state chooses for each key. */
    ghost function Choice(transparent: (nat, KeyPos) -> bool): KeyPos -> Layer
      requires maxLayer <= 32
      reads this`layerState, this`defaultLayerState
    {
      var layers, max := layerState | defaultLayerState, maxLayer;
      key => TopByte(layers, transparent, key, max)
    }

    ghost function Top(transparent: (nat, KeyPos) -> bool, key: KeyPos): Layer
      requires maxLayer <= 32
      reads this`layerState, this`defaultLayerState
    {
      Choice(transparent)(key)
    }

    /** It is the highest layer, on in either word, that is not transparent for the key. */
    lemma HighestTop(transparent: (nat, KeyPos) -> bool, key: KeyPos)
      requires maxLayer <= 32
      ensures Highest(layerState, defaultLayerState, transparent, key, maxLayer, Top(transparent, key) as nat)
    {
      hide Board.Valid, On, Highest, TopLayer, TopByte;
      HighestByte(layerState, defaultLayerState, transparent, key, maxLayer, Top(transparent, key));
    }

    /** layer_switch_get_layer */
    method LayerSwitchGetLayer(key: KeyPos, transparent: (nat, KeyPos) -> bool) returns (layer: Layer)
      requires Shaped()
      ensures layer == Top(transparent, key)
      ensures Highest(layerState, defaultLayerState, transparent, key, maxLayer, layer as nat)
    {
      hide Board.Valid, On, Highest;
      HighestTop(transparent, key);
      var layers := layerState | defaultLayerState;
      var i := maxLayer;
      while i > 0
        invariant 0 <= i <= maxLayer
        invariant TopLayer(layers, transparent, key, maxLayer) == TopLayer(layers, transparent, key, i)
      {
        i := i - 1;
        if On(layers, i) {
          if !transparent(i, key) {
            return i as bv8;
          }
        }
      }
      return 0;
    }

    method StoreLayer(t: Table, index: nat, layer: Layer)
      requires Valid() && index < board.Entries(t)
      modifies this`notes, sourceLayersCache, encoderSourceLayersCache
      ensures Valid()
      ensures notes == old(notes).PutLayer(Cell(t, index), Low(layer, board.layerBits))
    {
      hide EntryBit, StoredLayer, Board.Valid;
      var cache := if t == Matrix then sourceLayersCache else encoderSourceLayersCache;
      ghost var other := if t == Matrix then encoderSourceLayersCache else sourceLayersCache;
      ghost var otherTable := if t == Matrix then Encoders else Matrix;
      ghost var stored := Low(layer, board.layerBits);
      UpdateSourceLayersCache(layer, index, cache);
      assert LayersHeld(other, notes, otherTable, board.Entries(otherTable));
      LayerNotedElsewhere(other, notes, otherTable, board.Entries(otherTable), Cell(t, index), stored);
      notes := notes.PutLayer(Cell(t, index), stored);
    }

    /** read_source_layers_cache */
    method StoredLayerOf(key: KeyPos) returns (layer: Layer)
      requires Valid() && board.Exists(key)
      ensures layer == notes.LayerAt(board.LayerCell(key))
    {
      hide EntryBit, StoredLayer, SwapsHeld, Board.Valid;
      if board.InMatrix(key) {
        board.IndexInMatrix(key);
        layer := ReadSourceLayersCache(key.row * board.cols + key.col, sourceLayersCache);
      } else if board.InEncoders(key) {
        layer := ReadSourceLayersCache(key.col, encoderSourceLayersCache);
      } else {
        layer := 0;
      }
    }

    /** update_source_layers_cache */
    method StoreLayerOf(key: KeyPos, layer: Layer)
      requires Valid() && board.Exists(key)
      modifies this`notes, sourceLayersCache, encoderSourceLayersCache
      ensures Valid()
      ensures notes == if board.LayerCell(key) == NoCell then old(notes)
                       else old(notes).PutLayer(board.LayerCell(key), Low(layer, board.layerBits))
    {
      if board.InMatrix(key) {
        board.IndexInMatrix(key);
        StoreLayer(Matrix, key.row * board.cols + key.col, layer);
      } else if board.InEncoders(key) {
        StoreLayer(Encoders, key.col, layer);
      }
    }

    /** store_or_get_action, as far as the layer it looks the action up on. */
    method StoreOrGetLayer(pressed: bool, key: KeyPos, transparent: (nat, KeyPos) -> bool) returns (layer: Layer)
      requires Valid() && board.Exists(key)
      modifies this`notes, sourceLayersCache, encoderSourceLayersCache
      ensures Valid()
      ensures notes == LayerStep(board, old(notes), key, pressed, Top(transparent, key), disableActionCache).0
      ensures layer == LayerStep(board, old(notes), key, pressed, Top(transparent, key), disableActionCache).1
      ensures if pressed || disableActionCache then
                Highest(layerState, defaultLayerState, transparent, key, maxLayer, layer as nat)
              else layer == old(notes).LayerAt(board.LayerCell(key))
    {
      hide Highest, On;
      hide SwapsHeld, LayersHeld, Top, Low, Board.Valid, Board.LayerCell, Notes.PutLayer, Notes.LayerAt;
      if disableActionCache {
        layer := LayerSwitchGetLayer(key, transparent);
      } else if pressed {
        layer := LayerSwitchGetLayer(key, transparent);
        StoreLayerOf(key, layer);
      } else {
        layer := StoredLayerOf(key);
      }
    }

    /** An event as this keyboard meets it. */
    ghost function Met(kind: EventKind, key: KeyPos, pressed: bool, transparent: (nat, KeyPos) -> bool): Input
      requires maxLayer <= 32
      reads this
    {
      Input(kind, key, pressed, swapHands, Choice(transparent), disableActionCache)
    }

    /** An event through both stages, as action_exec runs it without tapping. */
    method Handle(kind: EventKind, key: KeyPos, pressed: bool, transparent: (nat, KeyPos) -> bool)
      returns (position: KeyPos, layer: Layer)
      requires Valid() && board.Exists(key) && (OfEncoder(kind) ==> !board.InMatrix(key))
      modifies this`notes, matrixSwapState, encoderSwapState, sourceLayersCache, encoderSourceLayersCache
      ensures Valid()
      ensures notes == Step(board, old(notes), old(Met(kind, key, pressed, transparent))).0
      ensures Output(position, layer) == Step(board, old(notes), old(Met(kind, key, pressed, transparent))).1
    {
      hide Board.Valid, SwapsHeld, LayersHeld, Choice, Low, SwapStep, LayerStep;
      position := ProcessHandSwap(kind, key, pressed);
      layer := StoreOrGetLayer(pressed, position, transparent);
    }

    /** Every event that the keyboard meets has layers that can be numbered with the
        layer bits. */
    lemma MetFits(kind: EventKind, key: KeyPos, pressed: bool, transparent: (nat, KeyPos) -> bool)
      requires Shaped() && board.Exists(key) && (OfEncoder(kind) ==> !board.InMatrix(key))
      ensures Met(kind, key, pressed, transparent).Fits(board)
    {
      hide Board.Valid;
      forall k
        ensures Low(Choice(transparent)(k), board.layerBits) == Choice(transparent)(k)
      {
        TopFits(transparent, k);
      }
    }

    /** The chosen layer can be numbered with the layer bits. */
    lemma TopFits(transparent: (nat, KeyPos) -> bool, key: KeyPos)
      requires Shaped()
      ensures Low(Top(transparent, key), board.layerBits) == Top(transparent, key)
    {
      hide Board.Valid;
      BitValue(board.layerBits);
      LayerFits(TopLayer(layerState | defaultLayerState, transparent, key, maxLayer), board.layerBits);
    }
  }
}
