/** BSP_SD_ReadBlocks and BSP_SD_WriteBlocks (Drivers/BSP/Adafruit_Shield/stm32_adafruit_sd.c) against
    a card that follows the SPI protocol, with any delays and any refusals. */
module SdBlocks {
  import opened Arith
  import opened SdBus

  const UINT32 := 0x1_0000_0000

  /** The k-th block of a run of bytes. */
  function Piece(data: seq<Byte>, k: nat): (p: seq<Byte>)
    requires (k + 1) * BLOCK <= |data|
    ensures |p| == BLOCK
  {
    data[k * BLOCK..(k + 1) * BLOCK]
  }

  /** A memory whose blocks from start on are replaced by the first k blocks of the data. */
  function Replaced(mem: seq<seq<Byte>>, start: nat, data: seq<Byte>, k: nat): (r: seq<seq<Byte>>)
    requires k * BLOCK <= |data|
    ensures |r| == |mem|
  {
    seq(|mem|, b requires 0 <= b < |mem| => if start <= b < start + k then Piece(data, b - start) else mem[b])
  }

  /** n blocks from start on, one after the other. */
  function Gathered(mem: seq<seq<Byte>>, start: nat, n: nat): seq<Byte>
    requires start + n <= |mem|
  {
    if n == 0 then [] else Gathered(mem, start, n - 1) + mem[start + n - 1]
  }

  /** Reading back what was written gives the data, and no other block changed. */
  lemma {:induction false} GatherReplaced(mem: seq<seq<Byte>>, start: nat, data: seq<Byte>, n: nat, k: nat)
    requires k <= n && n * BLOCK <= |data| && start + n <= |mem|
    ensures Gathered(Replaced(mem, start, data, n), start, k) == data[..k * BLOCK]
    ensures forall b | 0 <= b < |mem| && !(start <= b < start + n) :: Replaced(mem, start, data, n)[b] == mem[b]
    decreases k
  {
    if k > 0 {
      GatherReplaced(mem, start, data, n, k - 1);
      assert data[..k * BLOCK] == data[..(k - 1) * BLOCK] + Piece(data, k - 1);
    }
  }

  /** The argument of a block command: a block number on a high-capacity card, a byte address otherwise. */
  function Address(addr: nat, offset: nat, flagSDHC: int): (r: nat)
    ensures r < UINT32
  {
    (addr + offset) % UINT32 / (if flagSDHC == 1 then BLOCK else 1)
  }

  /** The driver's flag says how the card is addressed. */
  ghost predicate Matches(c: Card, flagSDHC: int) { flagSDHC == (if c.highCapacity then 1 else 0) }

  lemma AddressNames(c: Card, addr: nat, k: nat, flagSDHC: int)
    requires Matches(c, flagSDHC) && addr + k * BLOCK < UINT32
    requires ValidAddress(c, Address(addr, k * BLOCK, flagSDHC))
    ensures 0 <= Address(addr, k * BLOCK, flagSDHC) < UINT32
    ensures BlockOf(c, Address(addr, k * BLOCK, flagSDHC)) == addr / BLOCK + k < |c.mem|
  {
    DivModIs(addr + k * BLOCK, BLOCK, addr / BLOCK + k, addr % BLOCK);
  }

  // ----- which bytes make a call succeed -----

  /** One block write, from the position on: R1 without error behind the command, an accepting data response
      behind gap, token, data and CRC, and the end of programming. */
  function WriteTurn(script: seq<Byte>, pos: nat): (bool, nat) {
    var (a, p) := AnswerAt(script, pos, R1);
    if a.r1 != 0 then (false, p)
    else if ByteAt(script, p + BLOCK + 5) % 32 != 0x05 then (false, p + BLOCK + 7)
    else (true, ReadyAt(script, p + BLOCK + 7) + 1)
  }

  /** One block read: R1 without error, and the start token in time. */
  function ReadTurn(script: seq<Byte>, pos: nat): (bool, nat) {
    var (a, p) := AnswerAt(script, pos, R1);
    if a.r1 != 0 then (false, p)
    else
      var (ok, q) := TokenAt(script, p, START_BLOCK, 0xFFFF);
      (ok, if ok then q + BLOCK + 3 else q)
  }

  datatype Way = Writing | Reading

  /** n blocks, up to the first that fails. */
  function Turns(way: Way, script: seq<Byte>, pos: nat, n: nat): (bool, nat)
    decreases n
  {
    if n == 0 then (true, pos)
    else
      var (ok, p) := Turns(way, script, pos, n - 1);
      if !ok then (false, p) else match way case Writing => WriteTurn(script, p) case Reading => ReadTurn(script, p)
  }

  /** A whole call: CMD16 without error, memory for the other direction, and all blocks. */
  function Call(way: Way, script: seq<Byte>, pos: nat, n: nat, haveMemory: bool): (bool, nat) {
    var (a, p) := AnswerAt(script, pos, R1);
    if a.r1 != 0 || !haveMemory then (false, p + 2)
    else var (ok, q) := Turns(way, script, p + 1, n); (ok, q + 1)
  }

  lemma {:induction false} TurnsFail(way: Way, script: seq<Byte>, pos: nat, k: nat, n: nat)
    requires k <= n && !Turns(way, script, pos, k).0
    ensures Turns(way, script, pos, n) == Turns(way, script, pos, k)
    decreases n
  {
    if k < n { TurnsFail(way, script, pos, k, n - 1); }
  }

  /** The command sent at a position is answered without error; end is the position behind the answer. */
  ghost predicate AnsweredZero(script: seq<Byte>, pos: nat, end: nat) { FirstAnswer(script, pos + 6, 0x00, end) }

  /** Behind two gap bytes, the token, 512 bytes of data and two of CRC, the data response is accepting; the
      byte behind that is skipped, and after some busy bytes comes 0xFF, and one byte with the card released. */
  ghost predicate TakesBlock(script: seq<Byte>, pos: nat, end: nat) {
    && ByteAt(script, pos + 517) % 32 == 5
    && end >= pos + 521 && ByteAt(script, end - 2) == 0xFF
    && forall k | pos + 519 <= k < end - 2 :: ByteAt(script, k) != 0xFF
  }

  /** The start token comes within 65534 bytes; behind it 512 bytes of data, two of CRC, and one with the card
      released. */
  ghost predicate GivesBlock(script: seq<Byte>, pos: nat, end: nat) {
    && pos + 516 <= end < pos + 516 + 65534 && ByteAt(script, end - 516) == 0xFE
    && forall k | pos <= k < end - 516 :: ByteAt(script, k) != 0xFE
  }

  /** n blocks go through, one behind the other. */
  ghost predicate BlocksGo(way: Way, script: seq<Byte>, pos: nat, n: nat, end: nat)
    decreases n
  {
    if n == 0 then pos == end
    else exists p: nat, q: nat ::
      BlocksGo(way, script, pos, n - 1, p) && AnsweredZero(script, p, q)
      && if way == Writing then TakesBlock(script, q, end) else GivesBlock(script, q, end)
  }

  /** CMD16 is answered without error, and then n blocks go through; with a released byte behind each. */
  ghost predicate CallGoes(way: Way, script: seq<Byte>, pos: nat, n: nat, end: nat) {
    exists p: nat :: AnsweredZero(script, pos, p) && end > 0 && BlocksGo(way, script, p + 1, n, end - 1)
  }

  lemma AnsweredZeroIff(script: seq<Byte>, pos: nat, end: nat)
    ensures AnsweredZero(script, pos, end) <==> AnswerAt(script, pos, R1).0.r1 == 0 && AnswerAt(script, pos, R1).1 == end
  {
    hide Polled;
    hide FirstAnswer;
    PollFinds(script, pos + 6, 0, end);
  }

  lemma {:induction false} ReadyIs(script: seq<Byte>, pos: nat)
    ensures var r := ReadyAt(script, pos);
            r > pos && ByteAt(script, r - 1) == 0xFF && forall k | pos <= k < r - 1 :: ByteAt(script, k) != 0xFF
    decreases |script| - pos
  {
    if ByteAt(script, pos) != DUMMY { ReadyIs(script, pos + 1); }
  }

  lemma TakesBlockIff(script: seq<Byte>, pos: nat, end: nat)
    ensures TakesBlock(script, pos, end)
            <==> ByteAt(script, pos + BLOCK + 5) % 32 == 0x05 && ReadyAt(script, pos + BLOCK + 7) + 1 == end
  {
    hide ByteAt;
    hide ReadyAt;
    ReadyIs(script, pos + 519);
  }

  lemma {:induction false} TokenIs(script: seq<Byte>, pos: nat, token: Byte, polls: nat)
    requires polls >= 1
    ensures var (ok, end) := TokenAt(script, pos, token, polls);
            && pos < end <= pos + polls
            && (ok ==> end < pos + polls && ByteAt(script, end - 1) == token
                       && forall k | pos <= k < end - 1 :: ByteAt(script, k) != token)
            && (!ok ==> forall k | pos <= k < pos + polls - 1 :: ByteAt(script, k) != token)
    decreases polls
  {
    if polls > 1 && ByteAt(script, pos) != token { TokenIs(script, pos + 1, token, polls - 1); }
  }

  lemma GivesBlockIff(script: seq<Byte>, pos: nat, end: nat)
    ensures GivesBlock(script, pos, end)
            <==> TokenAt(script, pos, START_BLOCK, 0xFFFF).0 && TokenAt(script, pos, START_BLOCK, 0xFFFF).1 + BLOCK + 3 == end
  {
    hide ByteAt;
    hide TokenAt;
    TokenIs(script, pos, START_BLOCK, 0xFFFF);
  }

  lemma TurnIff(way: Way, script: seq<Byte>, pos: nat, end: nat)
    ensures (if way == Writing then WriteTurn(script, pos) else ReadTurn(script, pos)) == (true, end)
            <==> exists q: nat :: AnsweredZero(script, pos, q)
                   && if way == Writing then TakesBlock(script, q, end) else GivesBlock(script, q, end)
  {
    hide AnswerAt;
    hide AnsweredZero;
    hide TakesBlock;
    hide GivesBlock;
    hide ByteAt;
    hide ReadyAt;
    hide TokenAt;
    var p := AnswerAt(script, pos, R1).1;
    AnsweredZeroIff(script, pos, p);
    TakesBlockIff(script, p, end);
    GivesBlockIff(script, p, end);
    forall q: nat | AnsweredZero(script, pos, q)
      ensures q == p
    {
      AnsweredZeroIff(script, pos, q);
    }
  }

  lemma {:induction false} BlocksGoIff(way: Way, script: seq<Byte>, pos: nat, n: nat, end: nat)
    ensures BlocksGo(way, script, pos, n, end) <==> Turns(way, script, pos, n) == (true, end)
    decreases n
  {
    hide AnsweredZero;
    hide TakesBlock;
    hide GivesBlock;
    hide WriteTurn;
    hide ReadTurn;
    if n > 0 {
      var less := n - 1;
      var (ok, m) := Turns(way, script, pos, less);
      BlocksGoIff(way, script, pos, less, m);
      forall p: nat | BlocksGo(way, script, pos, less, p)
        ensures ok && p == m
      {
        BlocksGoIff(way, script, pos, less, p);
      }
      TurnIff(way, script, m, end);
      if ok { OneTurn(way, script, pos, n - 1); }
    }
  }

  /** A call succeeds iff there is memory and all goes well on the bus. */
  lemma CallGoesIff(way: Way, script: seq<Byte>, pos: nat, n: nat, haveMemory: bool, end: nat)
    ensures Call(way, script, pos, n, haveMemory) == (true, end) <==> haveMemory && CallGoes(way, script, pos, n, end)
  {
    hide AnswerAt;
    hide AnsweredZero;
    hide BlocksGo;
    hide Turns;
    var p := AnswerAt(script, pos, R1).1;
    AnsweredZeroIff(script, pos, p);
    if end > 0 { BlocksGoIff(way, script, p + 1, n, end - 1); }
    var (ok, last) := Turns(way, script, p + 1, n);
    assert AnswerAt(script, pos, R1).0.r1 == 0 && haveMemory ==> Call(way, script, pos, n, haveMemory) == (ok, last + 1);
    if AnsweredZero(script, pos, p) && end > 0 && BlocksGo(way, script, p + 1, n, end - 1) {
      assert CallGoes(way, script, pos, n, end);
    }
    forall q: nat | AnsweredZero(script, pos, q)
      ensures q == p
    {
      AnsweredZeroIff(script, pos, q);
    }
  }

  /** Gap, start token, data and CRC of a block write. */
  method SendPayload(bus: SpiBus, piece: seq<Byte>)
    requires bus.Valid() && !bus.csHigh && |piece| == BLOCK
    modifies bus
    ensures bus.Valid() && !bus.csHigh && bus.frames == old(bus.frames) && (bus.honest ==> old(bus.honest))
    ensures bus.pos == old(bus.pos) + BLOCK + 5
    ensures bus.honest && old(bus.card.phase).Expect? ==>
      bus.card == old(bus.card).(phase := Verdict(old(bus.card.phase).block, piece))
  {
    var b := bus.Transfer(DUMMY);
    b := bus.Transfer(DUMMY);
    b := bus.Transfer(START_BLOCK);
    bus.WriteBytes(piece);
    assert [] + piece == piece;
    b := bus.Transfer(DUMMY);
    assert (piece + [DUMMY])[..BLOCK] == piece;
    b := bus.Transfer(DUMMY);
  }

  /** One pass of the loop of BSP_SD_WriteBlocks. */
  method WriteBlock(bus: SpiBus, arg: nat, piece: seq<Byte>) returns (ok: bool)
    requires bus.Valid() && arg < UINT32 && |piece| == BLOCK
    modifies bus
    ensures bus.Valid() && bus.frames == old(bus.frames) + [Frame(CMD24, arg, 0xFF)]
    ensures (bus.honest ==> old(bus.honest)) && (ok ==> bus.csHigh)
    ensures (ok, bus.pos) == WriteTurn(bus.script, old(bus.pos))
    ensures bus.honest && old(bus.card.phase) == Ready([]) ==>
      && bus.card.highCapacity == old(bus.card.highCapacity)
      && (ok ==> ValidAddress(old(bus.card), arg) && bus.card.phase == Ready([])
                 && bus.card.mem == old(bus.card.mem)[BlockOf(old(bus.card), arg) := piece])
      && (!ok ==> bus.card.mem == old(bus.card.mem))
  {
    hide Allowed;
    hide NextPhase;
    hide AnswerAt;
    hide ReadyAt;
    var r := bus.SendCmd(CMD24, arg, 0xFF, R1);
    if r.r1 != 0 { return false; }
    SendPayload(bus, piece);
    var verdict := bus.GetDataResponse();
    if verdict != 0x05 { return false; }
    bus.SetCs(true);
    var b := bus.Transfer(DUMMY);
    return true;
  }

  /** One pass of the loop of BSP_SD_ReadBlocks. */
  method ReadBlock(bus: SpiBus, arg: nat) returns (ok: bool, data: seq<Byte>)
    requires bus.Valid() && arg < UINT32
    modifies bus
    ensures bus.Valid() && bus.frames == old(bus.frames) + [Frame(CMD17, arg, 0xFF)]
    ensures (bus.honest ==> old(bus.honest)) && (ok ==> bus.csHigh && |data| == BLOCK)
    ensures (ok, bus.pos) == ReadTurn(bus.script, old(bus.pos))
    ensures bus.honest && old(bus.card.phase) == Ready([]) ==>
      && bus.card.highCapacity == old(bus.card.highCapacity) && bus.card.mem == old(bus.card.mem)
      && (ok ==> ValidAddress(old(bus.card), arg) && bus.card.phase == Ready([])
                 && data == bus.card.mem[BlockOf(old(bus.card), arg)])
  {
    hide AnswerAt;
    hide TokenAt;
    var r := bus.SendCmd(CMD17, arg, 0xFF, R1);
    if r.r1 != 0 { return false, []; }
    ok := bus.WaitData(START_BLOCK);
    if !ok { return false, []; }
    data := bus.ReadBytes(BLOCK);
    var b := bus.Transfer(DUMMY);
    b := bus.Transfer(DUMMY);
    bus.SetCs(true);
    b := bus.Transfer(DUMMY);
  }

  /** CMD16, and the release of the card behind it. */
  method SetBlockLength(bus: SpiBus) returns (ok: bool)
    requires bus.Valid()
    modifies bus
    ensures bus.Valid() && bus.csHigh && bus.frames == old(bus.frames) + [Frame(CMD16, BLOCK, 0xFF)]
    ensures bus.honest ==> old(bus.honest)
    ensures var (a, p) := AnswerAt(bus.script, old(bus.pos), R1); ok == (a.r1 == 0) && bus.pos == p + 1
    ensures bus.honest && old(bus.card.phase) == Ready([]) ==> bus.card == old(bus.card)
  {
    hide AnswerAt;
    var r := bus.SendCmd(CMD16, BLOCK, 0xFF, R1);
    bus.SetCs(true);
    var b := bus.Transfer(DUMMY);
    return r.r1 == 0;
  }

  /** BSP_SD_WriteBlocks: on success exactly the addressed blocks hold the data; on failure some first
      part of them does, and in any case no other block changes. */
  method WriteBlocks(bus: SpiBus, flagSDHC: int, data: seq<Byte>, writeAddr: nat, n: nat, haveMemory: bool)
    returns (ok: bool, ghost done: nat)
    requires bus.Valid() && |data| == n * BLOCK && writeAddr + n * BLOCK <= UINT32
    modifies bus
    ensures bus.Valid() && bus.csHigh && (bus.honest ==> old(bus.honest))
    ensures (ok, bus.pos) == Call(Writing, bus.script, old(bus.pos), n, haveMemory)
    ensures ok <==> haveMemory && CallGoes(Writing, bus.script, old(bus.pos), n, bus.pos)
    ensures done <= n && (ok ==> done == n) && (!ok ==> done < n || n == 0)
    ensures bus.honest && old(bus.card.phase) == Ready([]) && Matches(old(bus.card), flagSDHC) ==>
      && (done == 0 || writeAddr / BLOCK + done <= |bus.card.mem|)
      && bus.card.mem == Replaced(old(bus.card.mem), writeAddr / BLOCK, data, done)
      && bus.card.highCapacity == old(bus.card.highCapacity)
      && (ok ==> bus.card.phase == Ready([]))
  {
    hide Replaced;
    hide Piece;
    hide Address;
    hide Turns;
    hide AnswerAt;
    hide CallGoes;
    done := 0;
    ReplacedNone(bus.card.mem, writeAddr / BLOCK, data);
    ok := SetBlockLength(bus);
    if ok && haveMemory {
      ghost var start := bus.pos;
      NoTurns(Writing, bus.script, start);
      for k := 0 to n
        invariant bus.Valid() && (bus.honest ==> old(bus.honest)) && done == k
        invariant ok && Turns(Writing, bus.script, start, k) == (true, bus.pos)
        invariant bus.honest && old(bus.card.phase) == Ready([]) && Matches(old(bus.card), flagSDHC) ==>
          && (k == 0 || writeAddr / BLOCK + k <= |bus.card.mem|)
          && bus.card == old(bus.card).(mem := Replaced(old(bus.card.mem), writeAddr / BLOCK, data, k))
      {
        var arg := Address(writeAddr, k * BLOCK, flagSDHC);
        ghost var before := bus.card;
        OneTurn(Writing, bus.script, start, k);
        ok := WriteBlock(bus, arg, Piece(data, k));
        if !ok {
          TurnsFail(Writing, bus.script, start, k + 1, n);
          break;
        }
        if bus.honest && old(bus.card.phase) == Ready([]) && Matches(old(bus.card), flagSDHC) {
          AddressNames(before, writeAddr, k, flagSDHC);
          ReplacedStep(old(bus.card.mem), writeAddr / BLOCK, data, k);
        }
        done := k + 1;
      }
    } else {
      ok := false;
    }
    bus.SetCs(true);
    var b := bus.Transfer(DUMMY);
    CallGoesIff(Writing, bus.script, old(bus.pos), n, haveMemory, bus.pos);
  }

  lemma NoTurns(way: Way, script: seq<Byte>, pos: nat)
    ensures Turns(way, script, pos, 0) == (true, pos)
  {
  }

  lemma OneTurn(way: Way, script: seq<Byte>, pos: nat, k: nat)
    requires Turns(way, script, pos, k).0
    ensures Turns(way, script, pos, k + 1)
         == var p := Turns(way, script, pos, k).1; if way == Writing then WriteTurn(script, p) else ReadTurn(script, p)
  {
  }

  lemma ReplacedNone(mem: seq<seq<Byte>>, start: nat, data: seq<Byte>)
    ensures Replaced(mem, start, data, 0) == mem
  {
  }

  lemma ReplacedStep(mem: seq<seq<Byte>>, start: nat, data: seq<Byte>, k: nat)
    requires (k + 1) * BLOCK <= |data| && start + k < |mem|
    ensures Replaced(mem, start, data, k)[start + k := Piece(data, k)] == Replaced(mem, start, data, k + 1)
  {
  }

  /** BSP_SD_ReadBlocks: on success the bytes of exactly the addressed blocks, in order; the card's
      memory never changes. */
  method ReadBlocks(bus: SpiBus, flagSDHC: int, readAddr: nat, n: nat, haveMemory: bool)
    returns (ok: bool, data: seq<Byte>)
    requires bus.Valid() && readAddr + n * BLOCK <= UINT32
    modifies bus
    ensures bus.Valid() && bus.csHigh && (bus.honest ==> old(bus.honest))
    ensures (ok, bus.pos) == Call(Reading, bus.script, old(bus.pos), n, haveMemory)
    ensures ok <==> haveMemory && CallGoes(Reading, bus.script, old(bus.pos), n, bus.pos)
    ensures if ok || n == 0 then |data| == n * BLOCK else |data| < n * BLOCK
    ensures bus.honest && old(bus.card.phase) == Ready([]) && Matches(old(bus.card), flagSDHC) ==>
      && bus.card.mem == old(bus.card.mem) && bus.card.highCapacity == old(bus.card.highCapacity)
      && (ok && n > 0 ==> readAddr / BLOCK + n <= |bus.card.mem|
                          && data == Gathered(bus.card.mem, readAddr / BLOCK, n))
  {
    hide Address;
    hide Turns;
    hide AnswerAt;
    hide CallGoes;
    data := [];
    ok := SetBlockLength(bus);
    if ok && haveMemory {
      ghost var start := bus.pos;
      NoTurns(Reading, bus.script, start);
      for k := 0 to n
        invariant bus.Valid() && (bus.honest ==> old(bus.honest))
        invariant ok && Turns(Reading, bus.script, start, k) == (true, bus.pos)
        invariant bus.honest && old(bus.card.phase) == Ready([]) && Matches(old(bus.card), flagSDHC) ==>
          && bus.card == old(bus.card)
          && (k > 0 ==> readAddr / BLOCK + k <= |bus.card.mem| && data == Gathered(bus.card.mem, readAddr / BLOCK, k))
        invariant |data| == k * BLOCK
      {
        var piece;
        OneTurn(Reading, bus.script, start, k);
        ok, piece := ReadBlock(bus, Address(readAddr, k * BLOCK, flagSDHC));
        if !ok {
          TurnsFail(Reading, bus.script, start, k + 1, n);
          break;
        }
        if bus.honest && old(bus.card.phase) == Ready([]) && Matches(old(bus.card), flagSDHC) {
          AddressNames(old(bus.card), readAddr, k, flagSDHC);
        }
        data := data + piece;
      }
    } else {
      ok := false;
    }
    bus.SetCs(true);
    var b := bus.Transfer(DUMMY);
    CallGoesIff(Reading, bus.script, old(bus.pos), n, haveMemory, bus.pos);
  }

  lemma OneCall(way: Way, script: seq<Byte>, pos: nat, n: nat)
    ensures forall end: nat | CallGoes(way, script, pos, n, end) :: Call(way, script, pos, n, true) == (true, end)
  {
    hide Call;
    hide CallGoes;
    forall end: nat | CallGoes(way, script, pos, n, end)
      ensures Call(way, script, pos, n, true) == (true, end)
    {
      CallGoesIff(way, script, pos, n, true, end);
    }
  }

  /** Write and read both succeed iff every answer is without error, every data response accepting and every
      start token in time; then the read returns the bytes written, and no
      other block of the card has changed, whichever way the card is addressed. */
  method WriteThenRead(bus: SpiBus, flagSDHC: int, data: seq<Byte>, addr: nat, n: nat, haveMemory: bool)
    returns (ok: bool, back: seq<Byte>)
    requires bus.Valid() && |data| == n * BLOCK && addr + n * BLOCK <= UINT32
    modifies bus
    ensures bus.Valid() && bus.csHigh && (bus.honest ==> old(bus.honest))
    ensures ok <==> haveMemory && exists mid: nat ::
      CallGoes(Writing, bus.script, old(bus.pos), n, mid) && CallGoes(Reading, bus.script, mid, n, bus.pos)
    ensures ok && bus.honest && old(bus.card.phase) == Ready([]) && Matches(old(bus.card), flagSDHC) ==>
      && back == data && |bus.card.mem| == old(|bus.card.mem|)
      && forall b | 0 <= b < |bus.card.mem| && !(addr / BLOCK <= b < addr / BLOCK + n) ::
           bus.card.mem[b] == old(bus.card.mem)[b]
  {
    hide Call;
    hide CallGoes;
    OneCall(Writing, bus.script, bus.pos, n);
    ghost var done;
    back := [];
    ok, done := WriteBlocks(bus, flagSDHC, data, addr, n, haveMemory);
    if !ok { return; }
    ok, back := ReadBlocks(bus, flagSDHC, addr, n, haveMemory);
    if ok && bus.honest && old(bus.card.phase) == Ready([]) && Matches(old(bus.card), flagSDHC) && n > 0 {
      GatherReplaced(old(bus.card.mem), addr / BLOCK, data, n, n);
      assert data[..n * BLOCK] == data;
    }
  }
}
