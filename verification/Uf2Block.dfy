/** The 512-byte block of the UF2 format ("File format" in the UF2 specification) as
    uf2conv.py packs and unpacks it. */
module Uf2Block {
  import opened ByteData

  datatype Option<T> = None | Some(value: T)

  const WORD := 0x1_0000_0000

  const MAGIC_START0 := 0x0A324655
  const MAGIC_START1 := 0x9E5D5157
  const MAGIC_END := 0x0AB16F30

  const BLOCK := 512
  const DATA := 476
  const CHUNK := 256

  const NOT_MAIN_FLASH := 0x1
  const FAMILY_PRESENT := 0x2000
  const EXTENSIONS_PRESENT := 0x8000

  /** Whether a flag (a power of two) is set. */
  predicate HasFlag(flags: nat, flag: nat)
    requires flag > 0
  {
    flags / flag % 2 == 1
  }

  // ----- Little-endian words -----

  function Pack(x: nat): (b: seq<Byte>)
    requires x < WORD
    ensures |b| == 4
  {
    [x % 256, x / 256 % 256, x / 0x1_0000 % 256, x / 0x100_0000]
  }

  function Unpack(b: seq<Byte>): nat
    requires |b| == 4
  {
    var b0: nat, b1: nat, b2: nat, b3: nat := b[0], b[1], b[2], b[3];
    b0 + 256 * b1 + 0x1_0000 * b2 + 0x100_0000 * b3
  }

  lemma UnpackPack(x: nat)
    requires x < WORD
    ensures Unpack(Pack(x)) == x
  {
    var y := x / 256;
    assert x / 0x1_0000 == y / 256;
    assert x / 0x100_0000 == y / 256 / 256;
  }

  // ----- Blocks -----

  datatype Block = Block(flags: nat, addr: nat, size: nat, number: nat, count: nat, family: nat, data: seq<Byte>) {
    predicate Valid() {
      && flags < WORD && addr < WORD && size < WORD && number < WORD && count < WORD && family < WORD
      && |data| == DATA
    }

    function Header(): (h: seq<Byte>)
      requires Valid()
      ensures |h| == 32
    {
      (Pack(MAGIC_START0) + Pack(MAGIC_START1) + Pack(flags) + Pack(addr))
      + (Pack(size) + Pack(number) + Pack(count) + Pack(family))
    }

    function Serialize(): (s: seq<Byte>)
      requires Valid()
      ensures |s| == BLOCK
    {
      Header() + data + Pack(MAGIC_END)
    }
  }

  function Field(s: seq<Byte>, k: nat): nat
    requires 4 * k + 4 <= |s|
  {
    Unpack(s[4 * k..4 * k + 4])
  }

  /** What the converter reads of a block; the final magic number is not looked at. */
  function Parse(s: seq<Byte>): Option<Block>
    requires |s| == BLOCK
  {
    if Field(s, 0) != MAGIC_START0 || Field(s, 1) != MAGIC_START1 then None
    else Some(Block(Field(s, 2), Field(s, 3), Field(s, 4), Field(s, 5), Field(s, 6), Field(s, 7), s[32..32 + DATA]))
  }

  lemma ParseSerialize(b: Block)
    requires b.Valid()
    ensures Parse(b.Serialize()) == Some(b)
    ensures Field(b.Serialize(), BLOCK / 4 - 1) == MAGIC_END
  {
    HeaderFields(b);
    UnpackPack(MAGIC_END);
    hide Pack, Unpack, Block.Header;
    var s := b.Serialize();
    forall k: nat | k < 8
      ensures Field(s, k) == Field(b.Header(), k)
    {
      assert s[4 * k..4 * k + 4] == b.Header()[4 * k..4 * k + 4];
    }
    assert s[32..32 + DATA] == b.data;
    assert s[BLOCK - 4..BLOCK] == Pack(MAGIC_END);
  }

  /** A block begins with "UF2" and a line feed: its words are stored with the least
      significant byte first. */
  lemma BlockBegins(b: Block)
    requires b.Valid()
    ensures b.Serialize()[..4] == [0x55, 0x46, 0x32, 0x0A]
  {
    var first := Pack(MAGIC_START0);
    assert b.Header()[..4] == first;
    hide Block.Header, Pack;
    assert b.Serialize()[..4] == b.Header()[..4];
  }

  lemma HeaderFields(b: Block)
    requires b.Valid()
    ensures var h := b.Header();
      && Field(h, 0) == MAGIC_START0 && Field(h, 1) == MAGIC_START1
      && Field(h, 2) == b.flags && Field(h, 3) == b.addr && Field(h, 4) == b.size
      && Field(h, 5) == b.number && Field(h, 6) == b.count && Field(h, 7) == b.family
  {
    UnpackPack(MAGIC_START0);
    UnpackPack(MAGIC_START1);
    UnpackPack(b.flags);
    UnpackPack(b.addr);
    UnpackPack(b.size);
    UnpackPack(b.number);
    UnpackPack(b.count);
    UnpackPack(b.family);
    hide Pack, Unpack;
    FourWords(Pack(MAGIC_START0), Pack(MAGIC_START1), Pack(b.flags), Pack(b.addr));
    FourWords(Pack(b.size), Pack(b.number), Pack(b.count), Pack(b.family));
    TwoHalves(Pack(MAGIC_START0) + Pack(MAGIC_START1) + Pack(b.flags) + Pack(b.addr),
              Pack(b.size) + Pack(b.number) + Pack(b.count) + Pack(b.family));
  }

  lemma FourWords(a: seq<Byte>, b: seq<Byte>, c: seq<Byte>, d: seq<Byte>)
    requires |a| == |b| == |c| == |d| == 4
    ensures var s := a + b + c + d;
      Field(s, 0) == Unpack(a) && Field(s, 1) == Unpack(b) && Field(s, 2) == Unpack(c) && Field(s, 3) == Unpack(d)
  {
    var s := a + b + c + d;
    assert s[0..4] == a && s[4..8] == b && s[8..12] == c && s[12..16] == d;
  }

  lemma TwoHalves(a: seq<Byte>, b: seq<Byte>)
    requires |a| == |b| == 16
    ensures forall k: nat :: k < 4 ==> Field(a + b, k) == Field(a, k) && Field(a + b, k + 4) == Field(b, k)
  {
    forall k: nat | k < 4
      ensures Field(a + b, k) == Field(a, k) && Field(a + b, k + 4) == Field(b, k)
    {
      assert (a + b)[4 * k..4 * k + 4] == a[4 * k..4 * k + 4];
      assert (a + b)[4 * (k + 4)..4 * (k + 4) + 4] == b[4 * k..4 * k + 4];
    }
  }
}
