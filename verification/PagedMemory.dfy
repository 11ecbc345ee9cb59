/** A memory chip written page by page: a program command that runs past the end of its page
    continues at the start of the same page, and a failing command may have taken only a
    prefix of its bytes. The QSPI flash combines old and new bytes with AND (programming only
    clears bits), the I2C EEPROM replaces them. */
module PagedMemory {
  import opened Arith

  type Cell = bv8

  type Combine = (Cell, Cell) -> Cell

  /** Flash: programming can only turn ones into zeros. */
  function And(a: Cell, b: Cell): Cell { a & b }

  /** EEPROM: a write replaces the byte. */
  function Replace(a: Cell, b: Cell): Cell { b }

  /** What happens to the k-th command: it completes, or it fails after taking some bytes. */
  datatype Outcome = Done | Fail(taken: nat)

  datatype Command = Command(addr: nat, length: nat)

  /** The address after addr, staying in the page. */
  function WrapNext(page: nat, addr: nat): nat
    requires page > 0
  {
    if (addr + 1) % page == 0 then addr + 1 - page else addr + 1
  }

  lemma WrapNextInPage(page: nat, addr: nat, size: nat)
    requires page > 0 && size % page == 0 && addr < size
    ensures 0 <= WrapNext(page, addr) < size
  {
    if (addr + 1) % page == 0 {
      assert addr + 1 == page * ((addr + 1) / page);
      ProductAtLeast((addr + 1) / page, page);
    } else if addr + 1 == size {
      assert false;
    }
  }

  /** One program command as the chip executes it, byte after byte. */
  function Program(f: Combine, page: nat, mem: seq<Cell>, addr: nat, bytes: seq<Cell>): (r: seq<Cell>)
    requires page > 0 && |mem| % page == 0
    requires bytes == [] || addr < |mem|
    ensures |r| == |mem|
    decreases |bytes|
  {
    if bytes == [] then mem
    else
      WrapNextInPage(page, addr, |mem|);
      Program(f, page, mem[addr := f(mem[addr], bytes[0])], WrapNext(page, addr), bytes[1..])
  }

  /** A write to a memory that has no pages. */
  function Flat(f: Combine, mem: seq<Cell>, addr: nat, bytes: seq<Cell>): (r: seq<Cell>)
    requires addr + |bytes| <= |mem|
    ensures |r| == |mem|
  {
    seq(|mem|, i requires 0 <= i < |mem| =>
      if addr <= i < addr + |bytes| then f(mem[i], bytes[i - addr]) else mem[i])
  }

  /** The commands cover [from, to) in order without gap or overlap, and none leaves its page. */
  ghost predicate Covers(page: nat, cmds: seq<Command>, from: nat, to: nat)
    requires page > 0
  {
    if cmds == [] then from == to
    else
      && cmds[0].addr == from
      && from % page + cmds[0].length <= page
      && Covers(page, cmds[1..], from + cmds[0].length, to)
  }

  lemma {:induction false} FlatSplit(f: Combine, mem: seq<Cell>, addr: nat, a: seq<Cell>, b: seq<Cell>)
    requires addr + |a| + |b| <= |mem|
    ensures Flat(f, Flat(f, mem, addr, a), addr + |a|, b) == Flat(f, mem, addr, a + b)
  {
  }

  /** A command that stays in its page is a flat write. */
  lemma {:induction false} ProgramIsFlat(f: Combine, page: nat, mem: seq<Cell>, addr: nat, bytes: seq<Cell>)
    requires page > 0 && |mem| % page == 0
    requires addr + |bytes| <= |mem| && addr % page + |bytes| <= page
    ensures Program(f, page, mem, addr, bytes) == Flat(f, mem, addr, bytes)
    decreases |bytes|
  {
    if bytes == [] {
    } else {
      var mem' := mem[addr := f(mem[addr], bytes[0])];
      assert mem' == Flat(f, mem, addr, bytes[..1]);
      assert bytes == bytes[..1] + bytes[1..];
      FlatSplit(f, mem, addr, bytes[..1], bytes[1..]);
      if |bytes| > 1 {
        assert addr == page * (addr / page) + addr % page;
        DivModIs(addr + 1, page, addr / page, addr % page + 1);
        ProgramIsFlat(f, page, mem', addr + 1, bytes[1..]);
      }
    }
  }

  /** Programming the next bytes, as far as they get, extends a flat write of a prefix of the data. */
  lemma ProgramExtends(f: Combine, page: nat, mem: seq<Cell>, addr: nat, data: seq<Cell>, p: nat, n: nat, taken: nat)
    requires page > 0 && |mem| % page == 0 && addr + |data| <= |mem|
    requires p + n <= |data| && (addr + p) % page + n <= page && taken <= n
    ensures Program(f, page, Flat(f, mem, addr, data[..p]), addr + p, data[p..p + n][..taken])
            == Flat(f, mem, addr, data[..p + taken])
  {
    var bytes := data[p..p + n][..taken];
    ProgramIsFlat(f, page, Flat(f, mem, addr, data[..p]), addr + p, bytes);
    FlatSplit(f, mem, addr, data[..p], bytes);
    assert data[..p] + bytes == data[..p + taken];
  }

  /** A command never changes a byte outside its page. */
  lemma {:induction false} ProgramStaysInPage(f: Combine, page: nat, mem: seq<Cell>, addr: nat, bytes: seq<Cell>, i: nat)
    requires page > 0 && |mem| % page == 0 && (bytes == [] || addr < |mem|)
    requires i < |mem| && i / page != addr / page
    ensures Program(f, page, mem, addr, bytes)[i] == mem[i]
    decreases |bytes|
  {
    if bytes != [] {
      WrapNextInPage(page, addr, |mem|);
      assert addr == page * (addr / page) + addr % page;
      if addr % page + 1 == page {
        assert page * (addr / page + 1) == page * (addr / page) + page;
        DivModIs(addr + 1, page, addr / page + 1, 0);
        DivModIs(addr + 1 - page, page, addr / page, 0);
      } else {
        DivModIs(addr + 1, page, addr / page, addr % page + 1);
      }
      ProgramStaysInPage(f, page, mem[addr := f(mem[addr], bytes[0])], WrapNext(page, addr), bytes[1..], i);
    }
  }

  /** On a replacing chip a command is a flat write, whatever its data, iff it stays in its page. */
  lemma FlatIffInPage(page: nat, mem: seq<Cell>, addr: nat, n: nat)
    requires page > 0 && |mem| % page == 0 && 0 < n && addr + n <= |mem|
    ensures (forall bytes: seq<Cell> | |bytes| == n ::
               Program(Replace, page, mem, addr, bytes) == Flat(Replace, mem, addr, bytes))
            <==> addr % page + n <= page
  {
    var f: Combine := Replace;
    if addr % page + n <= page {
      forall bytes: seq<Cell> | |bytes| == n
        ensures Program(f, page, mem, addr, bytes) == Flat(f, mem, addr, bytes)
      {
        ProgramIsFlat(f, page, mem, addr, bytes);
      }
    } else {
      var end := addr - addr % page + page;
      assert addr == page * (addr / page) + addr % page;
      assert page * (addr / page + 1) == page * (addr / page) + page;
      DivModIs(end, page, addr / page + 1, 0);
      var bytes: seq<Cell> := seq(n, k requires 0 <= k < n => mem[addr + k] + 1);
      ProgramStaysInPage(f, page, mem, addr, bytes, end);
      assert Flat(f, mem, addr, bytes)[end] == mem[end] + 1;
      assert Program(f, page, mem, addr, bytes) != Flat(f, mem, addr, bytes);
    }
  }

  lemma {:induction false} CoversAppend(page: nat, cmds: seq<Command>, from: nat, mid: nat, c: Command)
    requires page > 0 && Covers(page, cmds, from, mid)
    requires c.addr == mid && mid % page + c.length <= page
    ensures Covers(page, cmds + [c], from, mid + c.length)
    decreases |cmds|
  {
    if cmds == [] {
      assert (cmds + [c])[1..] == [];
    } else {
      CoversAppend(page, cmds[1..], from + cmds[0].length, mid, c);
      assert (cmds + [c])[1..] == cmds[1..] + [c];
    }
  }

  /** Chip contents and command log, as a value. */
  datatype Snapshot = Snapshot(mem: seq<Cell>, log: seq<Command>)

  class Chip {
    const page: nat
    const combine: Combine
    const outcome: nat -> Outcome
    var mem: seq<Cell>
    var log: seq<Command>

    constructor (page: nat, combine: Combine, outcome: nat -> Outcome, mem: seq<Cell>)
      requires page > 0 && |mem| % page == 0
      ensures Valid() && this.page == page && this.mem == mem && this.log == []
      ensures this.combine == combine && this.outcome == outcome
    {
      this.page, this.combine, this.outcome, this.mem, this.log := page, combine, outcome, mem, [];
    }

    ghost predicate Valid()
      reads this
    {
      page > 0 && |mem| % page == 0
    }

    ghost function Now(): Snapshot
      reads this
    {
      Snapshot(mem, log)
    }

    /** Since the snapshot, the first p bytes of the data were written to addr by commands that
        all completed, each inside one page, in address order, without gap or overlap. */
    ghost predicate Wrote(was: Snapshot, addr: nat, data: seq<Cell>, p: nat)
      reads this
    {
      && Valid() && |was.mem| == |mem| && addr + |data| <= |mem| && p <= |data|
      && mem == Flat(combine, was.mem, addr, data[..p])
      && was.log <= log
      && (forall k | |was.log| <= k < |log| :: outcome(k).Done?)
      && Covers(page, log[|was.log|..], addr, addr + p)
    }

    /** Since the snapshot, the first p bytes were written as in Wrote, and then one command failed
        that started right behind them; the chip took the data up to byte q. */
    ghost predicate Stopped(was: Snapshot, addr: nat, data: seq<Cell>, p: nat, q: nat)
      reads this
    {
      && Valid() && |was.mem| == |mem| && addr + |data| <= |mem| && p <= q <= |data|
      && mem == Flat(combine, was.mem, addr, data[..q])
      && |was.log| < |log| && was.log <= log
      && (forall k | |was.log| <= k < |log| - 1 :: outcome(k).Done?)
      && outcome(|log| - 1).Fail?
      && Covers(page, log[|was.log|..|log| - 1], addr, addr + p)
      && var c := log[|log| - 1]; c.addr == addr + p && q <= p + c.length && c.addr % page + c.length <= page
    }

    /** Issue one program command; on failure only a prefix of the bytes has been taken. */
    method Execute(addr: nat, bytes: seq<Cell>) returns (ok: bool, ghost taken: nat)
      requires Valid() && (bytes == [] || addr < |mem|)
      modifies this
      ensures Valid() && |mem| == old(|mem|)
      ensures log == old(log) + [Command(addr, |bytes|)]
      ensures taken <= |bytes| && (ok ==> taken == |bytes|)
      ensures ok == outcome(|old(log)|).Done?
      ensures mem == Program(combine, page, old(mem), addr, bytes[..taken])
    {
      var o := outcome(|log|);
      var n := if o.Done? || o.taken > |bytes| then |bytes| else o.taken;
      log := log + [Command(addr, |bytes|)];
      mem := Program(combine, page, mem, addr, bytes[..n]);
      ok, taken := o.Done?, n;
    }

    /** Write the next n bytes of the data with one command that stays in its page. */
    method WriteNext(addr: nat, data: seq<Cell>, p: nat, n: nat, ghost was: Snapshot) returns (ok: bool, ghost q: nat)
      requires Wrote(was, addr, data, p) && p + n <= |data| && (addr + p) % page + n <= page
      modifies this
      ensures Valid() && |mem| == old(|mem|)
      ensures ok ==> Wrote(was, addr, data, p + n)
      ensures !ok ==> Stopped(was, addr, data, p, q)
    {
      hide Flat;
      hide Program;
      hide Covers;
      ghost var taken;
      ok, taken := Execute(addr + p, data[p..p + n]);
      q := p + taken;
      ProgramExtends(combine, page, was.mem, addr, data, p, n, taken);
      CoversAppend(page, old(log)[|was.log|..], addr, addr + p, Command(addr + p, n));
      assert log[|was.log|..] == old(log)[|was.log|..] + [Command(addr + p, n)];
      assert log[|was.log|..|log| - 1] == old(log)[|was.log|..];
    }

    lemma WroteNothing(addr: nat, data: seq<Cell>)
      requires Valid() && addr + |data| <= |mem|
      ensures Wrote(Now(), addr, data, 0)
    {
      assert data[..0] == [];
      assert Flat(combine, mem, addr, []) == mem;
    }
  }
}
