/** Rows of the key matrix as words of bits, and how the firmware counts in them
    (popcount_more_than_one in keyboard.c). */
module MatrixRow {
  const MAX_COLS := 32

  type Row = bv32

  function Col(c: nat): Row
    requires c < MAX_COLS
  {
    1 << c
  }

  predicate Meets(x: Row, m: Row) {
    x & m != 0
  }

  predicate Has(x: Row, c: nat)
    requires c < MAX_COLS
  {
    Meets(x, Col(c))
  }

  predicate HasTwo(x: Row) {
    exists a, b :: 0 <= a < b < MAX_COLS && Has(x, a) && Has(x, b)
  }

  lemma OneBit(c: nat)
    requires c < MAX_COLS
    ensures Col(c) != 0 && Col(c) & (Col(c) - 1) == 0
  {
  }

  lemma ColsApart(c: nat, k: nat)
    requires c < MAX_COLS && k < MAX_COLS && c != k
    ensures !Meets(Col(c), Col(k))
  {
  }

  lemma OrMask(x: Row, y: Row, m: Row)
    ensures Meets(x | y, m) <==> Meets(x, m) || Meets(y, m)
  {
    OrSpread(x, y, m);
    OrZero(x & m, y & m);
  }

  lemma OrSpread(x: Row, y: Row, m: Row)
    ensures (x | y) & m == (x & m) | (y & m)
  {
  }

  lemma OrZero(x: Row, y: Row)
    ensures x | y == 0 <==> x == 0 && y == 0
  {
  }

  lemma AndMask(x: Row, y: Row, m: Row)
    requires m & (m - 1) == 0
    ensures Meets(x & y, m) <==> Meets(x, m) && Meets(y, m)
  {
    Single(x, m);
    Single(y, m);
    Regroup(x, y, m);
  }

  lemma Single(x: Row, m: Row)
    requires m & (m - 1) == 0
    ensures x & m == 0 || x & m == m
  {
  }

  lemma Regroup(x: Row, y: Row, m: Row)
    ensures (x & y) & m == x & (y & m)
    ensures x & 0 == 0
  {
  }

  lemma XorMask(x: Row, y: Row, m: Row)
    requires m & (m - 1) == 0
    ensures Meets(x ^ y, m) <==> Meets(x, m) != Meets(y, m)
  {
  }

  lemma AddCol(x: Row, c: nat, k: nat)
    requires c < MAX_COLS && k < MAX_COLS
    ensures Has(x | Col(c), k) <==> k == c || Has(x, k)
  {
    hide Col, Meets;
    OneBit(c);
    if k != c { ColsApart(c, k); } else { Same(Col(c)); }
    OrMask(x, Col(c), Col(k));
  }

  lemma Both(x: Row, y: Row, c: nat)
    requires c < MAX_COLS
    ensures Has(x & y, c) <==> Has(x, c) && Has(y, c)
  {
    hide Col, Meets;
    OneBit(c);
    AndMask(x, y, Col(c));
  }

  lemma Differ(x: Row, y: Row, c: nat)
    requires c < MAX_COLS
    ensures Has(x ^ y, c) <==> Has(x, c) != Has(y, c)
  {
    hide Col, Meets;
    OneBit(c);
    XorMask(x, y, Col(c));
  }

  lemma {:induction false} SomeCol(x: Row) returns (c: nat)
    requires x != 0
    ensures c < MAX_COLS && Has(x, c)
  {
    if c: nat :| c < MAX_COLS && Has(x, c) {
      return c;
    } else {
      Empty(x);
      assert false;
    }
  }

  lemma Empty(x: Row)
    requires forall c: nat :: c < MAX_COLS ==> !Has(x, c)
    ensures x == 0
  {
    assert !Has(x, 0) && !Has(x, 1) && !Has(x, 2) && !Has(x, 3);
    assert !Has(x, 4) && !Has(x, 5) && !Has(x, 6) && !Has(x, 7);
    assert !Has(x, 8) && !Has(x, 9) && !Has(x, 10) && !Has(x, 11);
    assert !Has(x, 12) && !Has(x, 13) && !Has(x, 14) && !Has(x, 15);
    assert !Has(x, 16) && !Has(x, 17) && !Has(x, 18) && !Has(x, 19);
    assert !Has(x, 20) && !Has(x, 21) && !Has(x, 22) && !Has(x, 23);
    assert !Has(x, 24) && !Has(x, 25) && !Has(x, 26) && !Has(x, 27);
    assert !Has(x, 28) && !Has(x, 29) && !Has(x, 30) && !Has(x, 31);
  }

  /** A row without its lowest bit, and the lowest bit alone. */
  function Rest(x: Row): Row {
    x & (x - 1)
  }

  function Lowest(x: Row): Row {
    x & !(x - 1)
  }

  predicate Part(p: Row, x: Row) {
    p & x == p
  }

  predicate Apart(p: Row, q: Row) {
    p & q == 0
  }

  /** popcount_more_than_one: clearing the lowest bit leaves something exactly when two
      bits are set. */
  predicate PopcountMoreThanOne(x: Row)
    ensures PopcountMoreThanOne(x) <==> HasTwo(x)
  {
    hide *;
    TwoBits(x);
    Rest(x) != 0
  }

  lemma TwoBits(x: Row)
    ensures Rest(x) != 0 <==> HasTwo(x)
  {
    hide Rest, Has;
    if Rest(x) != 0 {
      MoreThanOne(x);
    } else {
      forall a, b | 0 <= a < b < MAX_COLS && Has(x, a)
        ensures !Has(x, b)
      {
        OnlyOne(x, a, b);
      }
    }
  }

  lemma MoreThanOne(x: Row)
    requires Rest(x) != 0
    ensures HasTwo(x)
  {
    hide Rest, Lowest, Part, Apart, Has;
    RestOfNothing();
    RestIsPart(x);
    LowestIsPart(x);
    LowestBit(x);
    RestApart(x);
    var a := SomeCol(Rest(x));
    var b := SomeCol(Lowest(x));
    PartHas(Rest(x), x, a);
    PartHas(Lowest(x), x, b);
    ApartHas(Rest(x), Lowest(x), a);
    assert Has(x, if b < a then b else a) && Has(x, if b < a then a else b);
  }

  lemma RestOfNothing()
    ensures Rest(0) == 0
  {
  }

  lemma RestIsPart(x: Row)
    ensures Part(Rest(x), x)
  {
  }

  lemma LowestIsPart(x: Row)
    ensures Part(Lowest(x), x)
  {
  }

  lemma LowestBit(x: Row)
    requires x != 0
    ensures Lowest(x) != 0
  {
  }

  lemma RestApart(x: Row)
    ensures Apart(Rest(x), Lowest(x))
  {
  }

  lemma PartHas(p: Row, x: Row, c: nat)
    requires c < MAX_COLS && Part(p, x) && Has(p, c)
    ensures Has(x, c)
  {
    hide Has;
    Both(p, x, c);
  }

  lemma ApartHas(p: Row, q: Row, c: nat)
    requires c < MAX_COLS && Apart(p, q) && Has(p, c)
    ensures !Has(q, c)
  {
    hide Has;
    Both(p, q, c);
    Nothing(c);
  }

  lemma OnlyOne(x: Row, a: nat, b: nat)
    requires a < b < MAX_COLS && Rest(x) == 0 && Has(x, a)
    ensures !Has(x, b)
  {
    hide Rest, Col, Meets;
    OnlyBit(x, a);
    ColsApart(a, b);
  }

  lemma Same(m: Row)
    requires m != 0
    ensures Meets(m, m)
  {
  }

  lemma Nothing(c: nat)
    requires c < MAX_COLS
    ensures !Has(0, c)
  {
  }

  lemma OnlyBit(x: Row, a: nat)
    requires a < MAX_COLS && Rest(x) == 0 && Has(x, a)
    ensures x == Col(a)
  {
  }
}
