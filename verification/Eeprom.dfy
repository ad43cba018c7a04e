/** The external EEPROM and its driver.  The device takes one packet per
    transaction and wraps inside a page; the driver splits a block write so that
    it reads like one flat write.  `trace` records the byte writes in order: the
    memory after a power cut is the old memory with a beginning of them replayed. */
module Eeprom {
  import opened ByteData

  type Word = w: nat | w < 0x1_0000

  function MakeWord(high: nat, low: nat): (w: nat) {
    256 * high + low
  }

  lemma Halves(high: Byte, low: Byte)
    ensures MakeWord(high, low) < 0x1_0000
    ensures MakeWord(high, low) / 256 == high && MakeWord(high, low) % 256 == low
  {
  }

  // ----- Flat memory -----

  predicate Fits(size: nat, ws: seq<Write>) {
    forall i :: 0 <= i < |ws| ==> ws[i].addr < size
  }

  /** All writes fall into a region. */
  predicate Inside(ws: seq<Write>, low: nat, high: nat) {
    forall i :: 0 <= i < |ws| ==> low <= ws[i].addr < high
  }

  lemma BlockInside(addr: nat, data: seq<Byte>, low: nat, high: nat)
    requires low <= addr && addr + |data| <= high
    ensures Inside(BlockWrites(addr, data), low, high)
  {
  }

  lemma InsideConcat(a: seq<Write>, b: seq<Write>, low: nat, high: nat)
    requires Inside(a, low, high) && Inside(b, low, high)
    ensures Inside(a + b, low, high)
  {
  }

  /** Memory after a sequence of byte writes. */
  function Replay(mem: seq<Byte>, ws: seq<Write>): (m: seq<Byte>)
    requires Fits(|mem|, ws)
    ensures |m| == |mem|
  {
    if ws == [] then mem
    else
      var n := |ws| - 1;
      Replay(mem, ws[..n])[ws[n].addr := ws[n].value]
  }

  lemma {:induction false} ReplayConcat(mem: seq<Byte>, a: seq<Write>, b: seq<Write>)
    requires Fits(|mem|, a) && Fits(|mem|, b)
    ensures Fits(|mem|, a + b) && Replay(mem, a + b) == Replay(Replay(mem, a), b)
  {
    if b == [] {
      assert a + b == a;
    } else {
      var n := |b| - 1;
      assert (a + b)[..|a + b| - 1] == a + b[..n];
      ReplayConcat(mem, a, b[..n]);
    }
  }

  /** The byte writes of a block, in address order. */
  function BlockWrites(addr: nat, data: seq<Byte>): (ws: seq<Write>)
    ensures |ws| == |data|
    ensures forall i :: 0 <= i < |ws| ==> ws[i] == Write(addr + i, data[i])
  {
    seq(|data|, i requires 0 <= i < |data| => Write(addr + i, data[i]))
  }

  function FlatWrite(mem: seq<Byte>, addr: nat, data: seq<Byte>): (m: seq<Byte>)
    requires addr + |data| <= |mem|
    ensures |m| == |mem|
  {
    mem[..addr] + data + mem[addr + |data|..]
  }

  lemma {:induction false} ReplayBlock(mem: seq<Byte>, addr: nat, data: seq<Byte>)
    requires addr + |data| <= |mem|
    ensures Replay(mem, BlockWrites(addr, data)) == FlatWrite(mem, addr, data)
  {
    if data != [] {
      var n := |data| - 1;
      assert BlockWrites(addr, data)[..n] == BlockWrites(addr, data[..n]);
      ReplayBlock(mem, addr, data[..n]);
      FlatSnoc(mem, addr, data);
    }
  }

  /** A later block continues an earlier one. */
  lemma FlatWriteConcat(mem: seq<Byte>, addr: nat, a: seq<Byte>, b: seq<Byte>)
    requires addr + |a| + |b| <= |mem|
    ensures FlatWrite(FlatWrite(mem, addr, a), addr + |a|, b) == FlatWrite(mem, addr, a + b)
  {
  }

  lemma BlockWritesConcat(addr: nat, a: seq<Byte>, b: seq<Byte>)
    ensures BlockWrites(addr, a + b) == BlockWrites(addr, a) + BlockWrites(addr + |a|, b)
  {
  }

  /** Two consecutive blocks, memory and trace, are one. */
  lemma Consecutive(mem: seq<Byte>, trace: seq<Write>, addr: nat, a: seq<Byte>, b: seq<Byte>, ab: seq<Byte>)
    requires addr + |a| + |b| <= |mem| && ab == a + b
    ensures FlatWrite(FlatWrite(mem, addr, a), addr + |a|, b) == FlatWrite(mem, addr, ab)
    ensures trace + BlockWrites(addr, a) + BlockWrites(addr + |a|, b) == trace + BlockWrites(addr, ab)
  {
    FlatWriteConcat(mem, addr, a, b);
    BlockWritesConcat(addr, a, b);
  }

  // ----- Addresses on the wire -----

  function Pow256(n: nat): (p: nat)
    ensures p >= 1
  {
    if n == 0 then 1 else 256 * Pow256(n - 1)
  }

  /** Most significant byte first. */
  function AddressBytes(p: nat, n: nat): (s: seq<Byte>)
    ensures |s| == n
  {
    if n == 0 then [] else AddressBytes(p / 256, n - 1) + [p % 256]
  }

  /** A number comes back from its bytes, truncated to their width. */
  lemma {:induction false} AddressTruncates(p: nat, n: nat)
    ensures BigEndian(AddressBytes(p, n)) == p % Pow256(n)
  {
    if n > 0 {
      AddressTruncates(p / 256, n - 1);
      var s := AddressBytes(p, n);
      assert s[..n - 1] == AddressBytes(p / 256, n - 1);
      hide AddressBytes;
      ModStep(p, Pow256(n - 1));
    }
  }

  lemma ModStep(p: nat, m: nat)
    requires m > 0
    ensures 256 * (p / 256 % m) + p % 256 == p % (256 * m)
  {
    var q := p / 256;
    var a, r := q / m, 256 * (q % m) + p % 256;
    assert q == a * m + q % m;
    assert p == a * (256 * m) + r && r < 256 * m;
    DivMod(a, r, 256 * m);
  }

  lemma DivMod(q: nat, r: nat, b: nat)
    requires r < b
    ensures (q * b + r) / b == q && (q * b + r) % b == r
  {
    var x := q * b + r;
    var d, s := x / b, x % b;
    assert x == d * b + s;
    if d < q {
      MulMonotone(d + 1, q, b);
    } else if q < d {
      MulMonotone(q + 1, d, b);
    }
  }

  /** Byte `i` of an address is its digit to base 256, counted from the top. */
  lemma {:induction false} AddressDigit(p: nat, n: nat, i: nat)
    requires i < n
    ensures AddressBytes(p, n)[i] == p / Pow256(n - 1 - i) % 256
  {
    if i < n - 1 {
      AddressDigit(p / 256, n - 1, i);
      DivDiv(p, Pow256(n - 2 - i));
    }
  }

  lemma DivDiv(p: nat, m: nat)
    requires m > 0
    ensures p / 256 / m == p / (256 * m)
  {
    var q := p / 256;
    var a, r := q / m, 256 * (q % m) + p % 256;
    assert q == a * m + q % m;
    assert p == a * (256 * m) + r && r < 256 * m;
    DivMod(a, r, 256 * m);
  }

  lemma AddressRoundTrip(p: nat, n: nat)
    requires p < Pow256(n)
    ensures BigEndian(AddressBytes(p, n)) == p
  {
    AddressTruncates(p, n);
    SmallMod(p, Pow256(n));
  }

  lemma AddressStep(p: nat, n: nat, tail: seq<Byte>)
    requires n > 0
    ensures AddressBytes(p, n) + tail == AddressBytes(p / 256, n - 1) + ([p % 256] + tail)
  {
  }

  /** fill_target_address writes the address from its last byte to its first. */
  method FillTargetAddress(buffer: array<Byte>, addr: nat, size: nat)
    requires size <= buffer.Length
    modifies buffer
    ensures buffer[..size] == AddressBytes(addr, size)
    ensures buffer[size..] == old(buffer[size..])
  {
    var p := addr;
    for i := 0 to size
      invariant AddressBytes(addr, size) == AddressBytes(p, size - i) + buffer[size - i..size]
      invariant buffer[size..] == old(buffer[size..])
    {
      ghost var tail := buffer[size - i..size];
      AddressStep(p, size - i, tail);
      hide AddressBytes;
      buffer[size - 1 - i] := p % 256;
      assert buffer[size - i - 1..size] == [p % 256] + tail;
      p := p / 256;
    }
  }

  // ----- The device -----

  /** Where the `k`-th byte of a transaction goes: around inside the page of `addr`. */
  function PageSlot(addr: nat, k: nat, page: nat): nat
    requires page > 0
  {
    addr - addr % page + (addr % page + k) % page
  }

  /** A write transaction wraps around inside the page it starts in. */
  function PageProgram(mem: seq<Byte>, addr: nat, data: seq<Byte>, page: nat): (m: seq<Byte>)
    requires page > 0 && |mem| % page == 0 && addr < |mem|
    ensures |m| == |mem|
    decreases |data|
  {
    if data == [] then mem
    else
      var n := |data| - 1;
      SlotInside(|mem|, addr, n, page);
      PageProgram(mem, addr, data[..n], page)[PageSlot(addr, n, page) := data[n]]
  }

  lemma SlotInside(size: nat, addr: nat, k: nat, page: nat)
    requires page > 0 && size % page == 0 && addr < size
    ensures PageSlot(addr, k, page) < size
  {
    PageEnd(size, addr, page);
  }

  /** The page of an address lies inside the memory. */
  lemma PageEnd(size: nat, addr: nat, page: nat)
    requires page > 0 && size % page == 0 && addr < size
    ensures addr - addr % page + page <= size
  {
    var a, s := addr / page, size / page;
    assert addr == a * page + addr % page && size == s * page;
    assert a < s by {
      if a >= s {
        MulMonotone(s, a, page);
      }
    }
    MulMonotone(a + 1, s, page);
    assert (a + 1) * page == a * page + page;
  }

  lemma NextPage(addr: nat, page: nat)
    requires page > 0 && addr % page == 0
    ensures (addr + page) % page == 0
  {
    assert addr + page == (addr / page + 1) * page;
    MultipleMod(addr / page + 1, page);
  }

  lemma MultipleMod(a: nat, b: nat)
    requires b > 0
    ensures (a * b) % b == 0
  {
    DivMod(a, 0, b);
  }

  lemma MulMonotone(a: nat, b: nat, c: nat)
    requires a <= b
    ensures a * c <= b * c
  {
  }

  lemma Truncation(a: nat, m: nat)
    requires m > 0 && a <= m
    ensures a % m <= a && (a < m ==> a % m == a)
  {
    if a < m { SmallMod(a, m); }
  }

  lemma SmallMod(a: nat, m: nat)
    requires a < m
    ensures a % m == a
  {
  }

  /** Without a page crossing a transaction is a flat write. */
  lemma {:induction false} PageProgramFlat(mem: seq<Byte>, addr: nat, data: seq<Byte>, page: nat)
    requires page > 0 && |mem| % page == 0 && addr < |mem|
    requires addr % page + |data| <= page
    ensures addr + |data| <= |mem| && PageProgram(mem, addr, data, page) == FlatWrite(mem, addr, data)
  {
    PageEnd(|mem|, addr, page);
    if data != [] {
      hide Pow256;
      var n := |data| - 1;
      var o := addr % page;
      PageProgramFlat(mem, addr, data[..n], page);
      SmallMod(o + n, page);
      FlatSnoc(mem, addr, data);
      assert addr - o + (o + n) == addr + n;
    }
  }

  lemma FlatSnoc(mem: seq<Byte>, addr: nat, data: seq<Byte>)
    requires data != [] && addr + |data| <= |mem|
    ensures var n := |data| - 1;
      FlatWrite(mem, addr, data[..n])[addr + n := data[n]] == FlatWrite(mem, addr, data)
  {
  }

  datatype Transaction = Transaction(addr: nat, length: nat)

  /** The transaction stays inside one page. */
  predicate InPage(t: Transaction, page: nat)
    requires page > 0
  {
    t.addr % page + t.length <= page
  }

  class Device {
    const pageSize: nat
    const addressSize: nat
    const mem: array<Byte>
    ghost var trace: seq<Write>
    ghost var transactions: seq<Transaction>

    /** The driver counts the bytes of a page with eight bits. */
    predicate Valid() {
      && 0 < pageSize < 256
      && mem.Length % pageSize == 0
      && mem.Length <= Pow256(addressSize)
    }

    constructor (size: nat, pageSize: nat, addressSize: nat)
      requires 0 < pageSize < 256 && size % pageSize == 0 && size <= Pow256(addressSize)
      ensures Valid() && fresh(mem) && mem.Length == size
      ensures trace == [] && transactions == []
    {
      this.pageSize := pageSize;
      this.addressSize := addressSize;
      mem := new Byte[size];
      trace, transactions := [], [];
    }

    /** The device's side of a write transaction. */
    method Transmit(packet: seq<Byte>)
      requires Valid()
      requires addressSize <= |packet| && BigEndian(packet[..addressSize]) < mem.Length
      modifies mem, this`transactions
      ensures var addr, data := BigEndian(packet[..addressSize]), packet[addressSize..];
        && mem[..] == PageProgram(old(mem[..]), addr, data, pageSize)
        && transactions == old(transactions) + [Transaction(addr, |data|)]
    {
      var addr, data := BigEndian(packet[..addressSize]), packet[addressSize..];
      ghost var before := mem[..];
      for i := 0 to |data|
        invariant mem[..] == PageProgram(before, addr, data[..i], pageSize)
        invariant transactions == old(transactions)
      {
        assert data[..i + 1][..i] == data[..i];
        SlotInside(mem.Length, addr, i, pageSize);
        hide PageSlot;
        mem[PageSlot(addr, i, pageSize)] := data[i];
      }
      assert data[..|data|] == data;
      transactions := transactions + [Transaction(addr, |data|)];
    }

    /** One turn of the loop of eeprom_write_block: address and data in one packet. */
    method SendChunk(packet: array<Byte>, buf: seq<Byte>, readBuf: nat, targetAddr: nat, writeLength: nat)
      requires Valid() && packet != mem && packet.Length == addressSize + pageSize
      requires readBuf + writeLength <= |buf| && 0 < writeLength && targetAddr + writeLength <= mem.Length
      requires targetAddr % pageSize + writeLength <= pageSize
      modifies packet, mem, this`transactions
      ensures mem[..] == FlatWrite(old(mem[..]), targetAddr, buf[readBuf..readBuf + writeLength])
      ensures transactions == old(transactions) + [Transaction(targetAddr, writeLength)]
    {
      ghost var chunk := buf[readBuf..readBuf + writeLength];
      FillTargetAddress(packet, targetAddr, addressSize);
      AddressRoundTrip(targetAddr, addressSize);
      hide AddressBytes, BigEndian, PageProgram;
      for i := 0 to writeLength
        invariant packet[..addressSize] == AddressBytes(targetAddr, addressSize)
        invariant packet[addressSize..addressSize + i] == chunk[..i]
        invariant mem[..] == old(mem[..]) && transactions == old(transactions)
      {
        packet[addressSize + i] := buf[readBuf + i];
      }
      var sent := packet[..addressSize + writeLength];
      assert sent[..addressSize] == AddressBytes(targetAddr, addressSize);
      assert sent[addressSize..] == chunk;
      Transmit(sent);
      PageProgramFlat(old(mem[..]), targetAddr, chunk, pageSize);
    }

    /** eeprom_write_block: one transaction for each page that is touched. */
    method WriteBlock(buf: seq<Byte>, addr: nat)
      requires Valid() && addr + |buf| <= mem.Length
      modifies mem, this`trace, this`transactions
      ensures mem[..] == FlatWrite(old(mem[..]), addr, buf)
      ensures trace == old(trace) + BlockWrites(addr, buf)
      ensures old(transactions) <= transactions
      ensures forall i :: |old(transactions)| <= i < |transactions| ==> InPage(transactions[i], pageSize)
    {
      var packet := new Byte[addressSize + pageSize];
      var readBuf: nat, targetAddr: nat, len: nat := 0, addr, |buf|;
      assert FlatWrite(mem[..], addr, []) == mem[..];
      hide FlatWrite, BlockWrites, InPage, Pow256;
      while len > 0
        invariant readBuf + len == |buf| && targetAddr == addr + readBuf
        invariant mem[..] == FlatWrite(old(mem[..]), addr, buf[..readBuf])
        invariant trace == old(trace)
        invariant old(transactions) <= transactions
        invariant forall i :: |old(transactions)| <= i < |transactions| ==> InPage(transactions[i], pageSize)
      {
        var writeLength := WritePage(packet, buf, readBuf, targetAddr, len, old(mem[..]), addr);
        readBuf := readBuf + writeLength;
        targetAddr := targetAddr + writeLength;
        len := len - writeLength;
      }
      assert buf[..readBuf] == buf;
      trace := trace + BlockWrites(addr, buf);
    }

    /** The loop body of eeprom_write_block: as much as the page has room for. */
    method WritePage(packet: array<Byte>, buf: seq<Byte>, readBuf: nat, targetAddr: nat, len: nat,
                     ghost mem0: seq<Byte>, ghost addr: nat)
      returns (writeLength: nat)
      requires Valid() && packet != mem && packet.Length == addressSize + pageSize
      requires 0 < len && readBuf + len == |buf| && targetAddr == addr + readBuf
      requires addr + |buf| <= mem.Length == |mem0|
      requires mem[..] == FlatWrite(mem0, addr, buf[..readBuf])
      modifies packet, mem, this`transactions
      ensures 0 < writeLength <= len
      ensures mem[..] == FlatWrite(mem0, addr, buf[..readBuf + writeLength])
      ensures transactions == old(transactions) + [Transaction(targetAddr, writeLength)]
      ensures InPage(Transaction(targetAddr, writeLength), pageSize)
    {
      var pageOffset := targetAddr % pageSize;
      writeLength := pageSize - pageOffset;
      if writeLength > len {
        writeLength := len;
      }
      hide FlatWrite, Pow256;
      SendChunk(packet, buf, readBuf, targetAddr, writeLength);
      FlatWriteConcat(mem0, addr, buf[..readBuf], buf[readBuf..readBuf + writeLength]);
      assert buf[..readBuf] + buf[readBuf..readBuf + writeLength] == buf[..readBuf + writeLength];
    }

    // ----- eeprom_driver.c -----

    /** The device's side of a read: it goes on from the address it was sent. */
    method Receive(packet: seq<Byte>, len: nat) returns (data: seq<Byte>)
      requires Valid() && |packet| == addressSize && BigEndian(packet) + len <= mem.Length
      ensures data == mem[BigEndian(packet)..BigEndian(packet) + len]
    {
      var addr := BigEndian(packet);
      data := mem[addr..addr + len];
    }

    /** eeprom_read_block */
    method ReadBlock(addr: nat, len: nat) returns (data: seq<Byte>)
      requires Valid() && addr + len <= mem.Length
      ensures data == mem[addr..addr + len]
    {
      var packet := new Byte[addressSize];
      FillTargetAddress(packet, addr, addressSize);
      assert packet[..] == packet[..addressSize];
      AddressTruncates(addr, addressSize);
      Truncation(addr, Pow256(addressSize));
      data := Receive(packet[..], len);
    }

    method ReadByte(addr: nat) returns (value: Byte)
      requires Valid() && addr < mem.Length
      ensures value == mem[addr]
    {
      var data := ReadBlock(addr, 1);
      value := data[0];
    }

    /** eeprom_update_block writes only when something differs; the memory is the
        same as if it had always written.  The attempted byte writes are traced
        either way: those that change nothing replay to nothing. */
    method UpdateBlock(buf: seq<Byte>, addr: nat)
      requires Valid() && addr + |buf| <= mem.Length
      modifies mem, this`trace, this`transactions
      ensures mem[..] == FlatWrite(old(mem[..]), addr, buf)
      ensures trace == old(trace) + BlockWrites(addr, buf)
      ensures old(mem[addr..addr + |buf|]) == buf ==> transactions == old(transactions)
    {
      var readBuf := ReadBlock(addr, |buf|);
      if readBuf != buf {
        WriteBlock(buf, addr);
      } else {
        assert FlatWrite(mem[..], addr, buf) == mem[..];
        trace := trace + BlockWrites(addr, buf);
      }
    }

    method UpdateByte(addr: nat, value: Byte)
      requires Valid() && addr < mem.Length
      modifies mem, this`trace, this`transactions
      ensures mem[..] == old(mem[..])[addr := value]
      ensures trace == old(trace) + [Write(addr, value)]
      ensures old(mem[addr]) == value ==> transactions == old(transactions)
    {
      var orig := ReadByte(addr);
      if orig != value {
        WriteBlock([value], addr);
        assert FlatWrite(old(mem[..]), addr, [value]) == old(mem[..])[addr := value];
        assert BlockWrites(addr, [value]) == [Write(addr, value)];
      } else {
        trace := trace + [Write(addr, value)];
      }
    }

    /** Words are stored with the low byte first. */
    method ReadWord(addr: nat) returns (w: Word)
      requires Valid() && addr + 1 < mem.Length
      ensures w == MakeWord(mem[addr + 1], mem[addr])
    {
      var data := ReadBlock(addr, 2);
      Halves(data[1], data[0]);
      w := MakeWord(data[1], data[0]);
    }

    method UpdateWord(addr: nat, w: Word)
      requires Valid() && addr + 1 < mem.Length
      modifies mem, this`trace, this`transactions
      ensures mem[..] == FlatWrite(old(mem[..]), addr, [w % 256, w / 256])
      ensures trace == old(trace) + BlockWrites(addr, [w % 256, w / 256])
      ensures old(mem[addr..addr + 2]) == [w % 256, w / 256] ==> transactions == old(transactions)
    {
      var orig := ReadWord(addr);
      if orig != w {
        WriteBlock([w % 256, w / 256], addr);
      } else {
        Halves(mem[addr + 1], mem[addr]);
        hide MakeWord;
        assert FlatWrite(mem[..], addr, [w % 256, w / 256]) == mem[..];
        trace := trace + BlockWrites(addr, [w % 256, w / 256]);
      }
    }

    /** eeprom_driver_erase: page by page, all zero. */
    method Erase()
      requires Valid()
      modifies mem, this`trace, this`transactions
      ensures forall i :: 0 <= i < mem.Length ==> mem[i] == 0
    {
      var buf := seq(pageSize, _ => 0 as Byte);
      var addr := 0;
      while addr < mem.Length
        invariant addr <= mem.Length && addr % pageSize == 0
        invariant forall i :: 0 <= i < addr ==> mem[i] == 0
      {
        PageEnd(mem.Length, addr, pageSize);
        ghost var before := mem[..];
        WriteBlock(buf, addr);
        forall i | 0 <= i < addr + pageSize
          ensures mem[i] == 0
        {
          assert mem[..][i] == FlatWrite(before, addr, buf)[i];
        }
        NextPage(addr, pageSize);
        addr := addr + pageSize;
      }
    }
  }
}
