/** What the firmware remembers of each press so that the release goes where the press
    went: one swap bit a key (action.c) and one layer a key, sliced into one bit table
    per layer bit (action_layer.c). */
module PressMemory {
  import opened Bits

  const ENCODER_CW := 253
  const ENCODER_CCW := 252

  // ----- One bit an entry -----

  function Bytes(entries: nat): nat {
    (entries + CHAR_BIT - 1) / CHAR_BIT
  }

  predicate EntryBit(bytes: seq<bv8>, i: nat)
    requires i / CHAR_BIT < |bytes|
  {
    HasBit(bytes[i / CHAR_BIT], i % CHAR_BIT)
  }

  method ShouldSwapHands(index: nat, swapState: array<bv8>, pressed: bool, swapHands: bool) returns (doSwap: bool)
    requires index / CHAR_BIT < swapState.Length
    ensures doSwap == if pressed then swapHands else EntryBit(swapState[..], index)
  {
    var bitVal := Bit(index % CHAR_BIT);
    doSwap := if pressed then swapHands else swapState[index / CHAR_BIT] & bitVal != 0;
  }

  method SetSwapHandsState(index: nat, swapState: array<bv8>, on: bool)
    requires index / CHAR_BIT < swapState.Length
    modifies swapState
    ensures EntryBit(swapState[..], index) == on
    ensures forall k: nat :: k != index && k / CHAR_BIT < swapState.Length ==>
              EntryBit(swapState[..], k) == EntryBit(old(swapState[..]), k)
  {
    var a, b := index / CHAR_BIT, index % CHAR_BIT;
    WithBits(swapState[a], b, on);
    ghost var now := WithBit(swapState[a], b, on);
    if on {
      swapState[a] := swapState[a] | Bit(b);
    } else {
      swapState[a] := swapState[a] & !Bit(b);
    }
    assert swapState[..] == old(swapState[..])[a := now];
    hide HasBit, WithBit;
    EntryWritten(old(swapState[..]), swapState[..], index);
  }

  lemma EntryWritten(was: seq<bv8>, bytes: seq<bv8>, index: nat)
    requires index / CHAR_BIT < |was| && |bytes| == |was|
    requires forall a :: 0 <= a < |was| && a != index / CHAR_BIT ==> bytes[a] == was[a]
    requires forall k: nat :: k < CHAR_BIT && k != index % CHAR_BIT ==>
               HasBit(bytes[index / CHAR_BIT], k) == HasBit(was[index / CHAR_BIT], k)
    ensures forall k: nat :: k != index && k / CHAR_BIT < |was| ==> EntryBit(bytes, k) == EntryBit(was, k)
  {
    hide HasBit;
  }

  // ----- One layer an entry, a bit in each slice -----

  /** The bytes of all slices that hold an entry. */
  ghost function Slices(cache: array2<bv8>, entry: nat): (s: seq<bv8>)
    requires entry / CHAR_BIT < cache.Length0
    reads cache
    ensures |s| == cache.Length1
  {
    seq(cache.Length1, j requires 0 <= j < cache.Length1 reads cache => cache[entry / CHAR_BIT, j])
  }

  /** The layer that the given bit spells across the slices. */
  function Spelled(slices: seq<bv8>, bit: nat): (layer: bv8)
    requires bit < CHAR_BIT && |slices| <= CHAR_BIT
  {
    if slices == [] then 0
    else
      var n := |slices| - 1;
      if HasBit(slices[n], bit) then Spelled(slices[..n], bit) | Bit(n) else Spelled(slices[..n], bit)
  }

  ghost function StoredLayer(cache: array2<bv8>, entry: nat): bv8
    requires entry / CHAR_BIT < cache.Length0 && cache.Length1 <= CHAR_BIT
    reads cache
  {
    Spelled(Slices(cache, entry), entry % CHAR_BIT)
  }

  lemma {:induction false} SpelledBits(slices: seq<bv8>, bit: nat, s: nat)
    requires bit < CHAR_BIT && |slices| <= CHAR_BIT && s < CHAR_BIT
    ensures HasBit(Spelled(slices, bit), s) <==> s < |slices| && HasBit(slices[s], bit)
  {
    if slices == [] {
      BitValue(s);
    } else {
      var n := |slices| - 1;
      SpelledBits(slices[..n], bit, s);
      WithBitAt(Spelled(slices[..n], bit), n, true, s);
    }
  }

  /** The slices of one byte column after a layer is stored for one of its entries. */
  lemma SlicesExchanged(was: seq<bv8>, slices: seq<bv8>, layer: bv8, bit: nat)
    requires |slices| == |was| <= CHAR_BIT && bit < CHAR_BIT
    requires forall j :: 0 <= j < |was| ==> slices[j] == Exchange(was[j], HasBit(layer, j), bit)
    ensures Spelled(slices, bit) == Low(layer, |was|)
    ensures forall k: nat :: k < CHAR_BIT && k != bit ==> Spelled(slices, k) == Spelled(was, k)
  {
    forall k: nat | k < CHAR_BIT
      ensures Spelled(slices, k) == if k == bit then Low(layer, |was|) else Spelled(was, k)
    {
      var to := if k == bit then Low(layer, |was|) else Spelled(was, k);
      forall s | 0 <= s < CHAR_BIT
        ensures HasBit(Spelled(slices, k), s) == HasBit(to, s)
      {
        SpelledBits(slices, k, s);
        SpelledBits(was, k, s);
        LowBits(layer, |was|, s);
        if s < |was| {
          ExchangeBit(was[s], HasBit(layer, s), bit, k);
        }
      }
      SameBits(Spelled(slices, k), to);
    }
  }

  /** update_source_layers_cache_impl: the other entries keep their layers although
      they share every byte that is written. */
  method UpdateSourceLayersCache(layer: bv8, entry: nat, cache: array2<bv8>)
    requires entry / CHAR_BIT < cache.Length0 && cache.Length1 <= CHAR_BIT
    modifies cache
    ensures StoredLayer(cache, entry) == Low(layer, cache.Length1)
    ensures forall k: nat :: k != entry && k / CHAR_BIT < cache.Length0 ==>
              StoredLayer(cache, k) == old(StoredLayer(cache, k))
  {
    hide HasBit, Spelled, Low, Exchange;
    var idx, bit := entry / CHAR_BIT, entry % CHAR_BIT;
    ghost var was := Slices(cache, entry);
    for b := 0 to cache.Length1
      invariant forall i, j :: 0 <= i < cache.Length0 && 0 <= j < cache.Length1 && (i != idx || j >= b) ==>
                  cache[i, j] == old(cache[i, j])
      invariant forall j :: 0 <= j < b ==> cache[idx, j] == Exchange(was[j], HasBit(layer, j), bit)
    {
      cache[idx, b] := Exchange(cache[idx, b], HasBit(layer, b), bit);
    }
    SlicesExchanged(was, Slices(cache, entry), layer, bit);
    forall k: nat | k != entry && k / CHAR_BIT < cache.Length0
      ensures StoredLayer(cache, k) == old(StoredLayer(cache, k))
    {
      if k / CHAR_BIT == idx {
        assert Slices(cache, k) == Slices(cache, entry) && old(Slices(cache, k)) == was;
        assert k % CHAR_BIT != bit;
      } else {
        assert Slices(cache, k) == old(Slices(cache, k));
      }
    }
  }

  /** read_source_layers_cache_impl */
  method ReadSourceLayersCache(entry: nat, cache: array2<bv8>) returns (layer: bv8)
    requires entry / CHAR_BIT < cache.Length0 && cache.Length1 <= CHAR_BIT
    ensures layer == StoredLayer(cache, entry)
  {
    var idx, bit := entry / CHAR_BIT, entry % CHAR_BIT;
    ghost var slices := Slices(cache, entry);
    layer := 0;
    for b := 0 to cache.Length1
      invariant layer == Spelled(slices[..b], bit)
    {
      assert slices[..b + 1][..b] == slices[..b];
      layer := layer | ((if HasBit(cache[idx, b], bit) then 1 else 0) << b);
    }
    assert slices[..cache.Length1] == slices;
  }
}
