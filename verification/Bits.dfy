/** Single bits of bytes, as the packed tables of the firmware use them. */
module Bits {
  const CHAR_BIT := 8

  function Bit(s: nat): bv8
    requires s < CHAR_BIT
  {
    1 << s
  }

  predicate HasBit(x: bv8, s: nat)
    requires s < CHAR_BIT
  {
    x & Bit(s) != 0
  }

  /** The lowest `n` bits of a byte. */
  function Low(x: bv8, n: nat): bv8
    requires n <= CHAR_BIT
  {
    if n == CHAR_BIT then x else x & (Bit(n) - 1)
  }

  lemma BitValue(s: nat)
    requires s < CHAR_BIT
    ensures Bit(s) == [1, 2, 4, 8, 16, 32, 64, 128][s]
  {
    if s == 0 {} else if s == 1 {} else if s == 2 {} else if s == 3 {}
    else if s == 4 {} else if s == 5 {} else if s == 6 {} else {}
  }

  /** A byte is its bits. */
  lemma SameBits(x: bv8, y: bv8)
    requires forall s :: 0 <= s < CHAR_BIT ==> (HasBit(x, s) <==> HasBit(y, s))
    ensures x == y
  {
    BitValue(0); BitValue(1); BitValue(2); BitValue(3);
    BitValue(4); BitValue(5); BitValue(6); BitValue(7);
    assert HasBit(x, 0) <==> HasBit(y, 0);
    assert HasBit(x, 1) <==> HasBit(y, 1);
    assert HasBit(x, 2) <==> HasBit(y, 2);
    assert HasBit(x, 3) <==> HasBit(y, 3);
    assert HasBit(x, 4) <==> HasBit(y, 4);
    assert HasBit(x, 5) <==> HasBit(y, 5);
    assert HasBit(x, 6) <==> HasBit(y, 6);
    assert HasBit(x, 7) <==> HasBit(y, 7);
  }

  lemma LowBits(x: bv8, n: nat, s: nat)
    requires n <= CHAR_BIT && s < CHAR_BIT
    ensures HasBit(Low(x, n), s) <==> s < n && HasBit(x, s)
  {
    BitValue(s);
    if n < CHAR_BIT { BitValue(n); }
  }

  /** A byte with one bit replaced by means of xor. */
  function Exchange(c: bv8, on: bool, s: nat): bv8
    requires s < CHAR_BIT
  {
    var m: bv8 := if on then 0xFF else 0;
    c ^ ((m ^ c) & Bit(s))
  }

  lemma ExchangeBit(c: bv8, on: bool, s: nat, k: nat)
    requires s < CHAR_BIT && k < CHAR_BIT
    ensures HasBit(Exchange(c, on, s), k) == if k == s then on else HasBit(c, k)
  {
    BitValue(s);
    BitValue(k);
  }

  /** A byte with one bit set or cleared. */
  function WithBit(c: bv8, s: nat, on: bool): bv8
    requires s < CHAR_BIT
  {
    if on then c | Bit(s) else c & !Bit(s)
  }

  lemma WithBitAt(c: bv8, s: nat, on: bool, k: nat)
    requires s < CHAR_BIT && k < CHAR_BIT
    ensures HasBit(WithBit(c, s, on), k) == if k == s then on else HasBit(c, k)
  {
    BitValue(s);
    BitValue(k);
  }

  lemma WithBits(c: bv8, s: nat, on: bool)
    requires s < CHAR_BIT
    ensures HasBit(WithBit(c, s, on), s) == on
    ensures forall k: nat :: k < CHAR_BIT && k != s ==> HasBit(WithBit(c, s, on), k) == HasBit(c, k)
  {
    forall k: nat | k < CHAR_BIT
      ensures HasBit(WithBit(c, s, on), k) == if k == s then on else HasBit(c, k)
    {
      WithBitAt(c, s, on, k);
    }
  }
}
