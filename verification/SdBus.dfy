/** The SPI side of the SD driver (Drivers/BSP/Adafruit_Shield/stm32_adafruit_sd.c): chip select, byte
    exchange, SD_SendCmd, SD_ReadData, SD_WaitData and SD_GetDataResponse, against a card that answers
    anything at all, and a card that follows the SPI protocol. */
module SdBus {
  import opened Arith

  const DUMMY: Byte := 0xFF
  const START_BLOCK: Byte := 0xFE
  const BLOCK := 512

  const CMD0 := 0
  const CMD8 := 8
  const CMD16 := 16
  const CMD17 := 17
  const CMD24 := 24
  const CMD41 := 41
  const CMD55 := 55
  const CMD58 := 58

  // ----- a card that follows the protocol -----

  /** Where the card is in a transaction. */
  datatype Phase =
    | Ready(got: seq<Byte>)                         // command bytes received so far
    | Reply(cmd: int, arg: int, left: nat)          // R1 is due within left bytes
    | Fetch(block: int)                             // read: the start token is due
    | Send(block: int, i: nat)                      // read: i bytes of data and CRC sent
    | Expect(block: int)                            // write: waiting for the start token
    | Store(block: int, bytes: seq<Byte>)           // write: data and CRC bytes received so far
    | Verdict(block: int, data: seq<Byte>)          // write: the data response is due
    | Busy                                          // programming

  /** mem holds the blocks of the card; highCapacity cards are addressed by block, others by byte. */
  datatype Card = Card(mem: seq<seq<Byte>>, highCapacity: bool, phase: Phase)

  function BlockOf(c: Card, arg: int): int {
    if c.highCapacity then arg else if arg % 512 == 0 then arg / 512 else -1
  }

  predicate ValidAddress(c: Card, arg: int) { 0 <= BlockOf(c, arg) < |c.mem| }

  ghost predicate ValidCard(c: Card) {
    && (forall b | 0 <= b < |c.mem| :: |c.mem[b]| == 512)
    && match c.phase
       case Fetch(b) => 0 <= b < |c.mem|
       case Send(b, i) => 0 <= b < |c.mem| && i < 512 + 2
       case Expect(b) => 0 <= b < |c.mem|
       case Store(b, bytes) => 0 <= b < |c.mem| && |bytes| < 512 + 2
       case Verdict(b, data) => 0 <= b < |c.mem| && |data| == 512
       case _ => true
  }

  /** What a selected card may drive on its output while it receives a byte. */
  ghost predicate Allowed(c: Card, miso: Byte) {
    match c.phase
    case Ready(_) => miso == 0xFF
    case Reply(cmd, arg, left) =>
      if miso == 0xFF then left > 1
      else miso < 0x80 && (miso == 0 && (cmd == 17 || cmd == 24) ==> ValidAddress(c, arg))
    case Fetch(_) => miso == 0xFF || miso == 0xFE
    case Send(b, i) => 0 <= b < |c.mem| && i < |c.mem[b]| ==> miso == c.mem[b][i]
    case _ => true
  }

  function ArgOf(got: seq<Byte>): int
    requires |got| == 5
  {
    0x100_0000 * got[1] as int + 0x1_0000 * got[2] as int + 0x100 * got[3] as int + got[4] as int
  }

  function AfterReply(c: Card, cmd: int, arg: int, r1: Byte): Phase {
    if r1 == 0 && cmd == 17 then Fetch(BlockOf(c, arg))
    else if r1 == 0 && cmd == 24 then Expect(BlockOf(c, arg))
    else Ready([])
  }

  function NextPhase(c: Card, mosi: Byte, miso: Byte): Phase {
    match c.phase
    case Ready(got) =>
      if got == [] && !(0x40 <= mosi < 0x80) then Ready([])
      else if |got| == 5 then Reply(got[0] as int - 0x40, ArgOf(got), 8)
      else Ready(got + [mosi])
    case Reply(cmd, arg, left) =>
      if miso == 0xFF then Reply(cmd, arg, if left > 0 then left - 1 else 0) else AfterReply(c, cmd, arg, miso)
    case Fetch(b) => if miso == 0xFE then Send(b, 0) else c.phase
    case Send(b, i) => if i + 1 >= 512 + 2 then Ready([]) else Send(b, i + 1)
    case Expect(b) => if mosi == 0xFE then Store(b, []) else c.phase
    case Store(b, bytes) =>
      if |bytes| + 1 >= 512 + 2 then Verdict(b, if |bytes| >= 512 then bytes[..512] else bytes) else Store(b, bytes + [mosi])
    case Verdict(b, data) => if miso % 32 == 0x05 then Busy else Ready([])
    case Busy => if miso == 0xFF then Ready([]) else Busy
  }

  /** The card after one byte: accepted data is written to its block. */
  function Next(c: Card, mosi: Byte, miso: Byte): Card {
    var mem := if c.phase.Verdict? && miso % 32 == 0x05 && 0 <= c.phase.block < |c.mem|
               then c.mem[c.phase.block := c.phase.data] else c.mem;
    c.(mem := mem, phase := NextPhase(c, mosi, miso))
  }

  /** Raising chip select ends every transaction but programming. */
  function Deselected(c: Card): Card { if c.phase.Busy? then c else c.(phase := Ready([])) }

  lemma NextIsValid(c: Card, mosi: Byte, miso: Byte)
    requires ValidCard(c) && Allowed(c, miso)
    ensures ValidCard(Next(c, mosi, miso))
  {
  }

  // ----- the bus -----

  datatype Frame = Frame(cmd: int, arg: int, crc: int)

  /** SD_CmdAnswer_typedef */
  datatype Answer = Answer(r1: Byte, r2: Byte, r3: Byte, r4: Byte, r5: Byte)

  datatype Expected = R1 | R3R7

  // ----- what the driver makes of the bytes that come back -----

  function ByteAt(script: seq<Byte>, pos: nat): Byte { if pos < |script| then script[pos] else DUMMY }

  /** Poll for a byte that is not 0xFF, at most so many times; and the position behind it. */
  function Polled(script: seq<Byte>, pos: nat, polls: nat): (Byte, nat)
    decreases polls
  {
    if polls <= 1 || ByteAt(script, pos) != DUMMY then (ByteAt(script, pos), pos + 1) else Polled(script, pos + 1, polls - 1)
  }

  /** The answer to a command sent at a position, and the position behind it. */
  function AnswerAt(script: seq<Byte>, pos: nat, expected: Expected): (Answer, nat) {
    var (r1, p) := Polled(script, pos + 6, 8);
    if expected == R1 then (Answer(r1, DUMMY, DUMMY, DUMMY, DUMMY), p)
    else (Answer(r1, ByteAt(script, p), ByteAt(script, p + 1), ByteAt(script, p + 2), ByteAt(script, p + 3)), p + 4)
  }

  /** Poll for a token, where finding it on the last poll does not count; and the position behind. */
  function TokenAt(script: seq<Byte>, pos: nat, token: Byte, polls: nat): (bool, nat)
    decreases polls
  {
    if polls <= 1 then (false, pos + 1)
    else if ByteAt(script, pos) == token then (true, pos + 1)
    else TokenAt(script, pos + 1, token, polls - 1)
  }

  /** The position behind the first 0xFF. */
  function ReadyAt(script: seq<Byte>, pos: nat): nat
    decreases |script| - pos
  {
    if ByteAt(script, pos) == DUMMY then pos + 1 else ReadyAt(script, pos + 1)
  }

  /** R1 is the first of the eight bytes from a position on that is not 0xFF, or 0xFF if all are; end is the
      position behind it. */
  ghost predicate FirstAnswer(script: seq<Byte>, from: nat, v: Byte, end: nat) {
    && from < end <= from + 8 && v == ByteAt(script, end - 1) && (v != 0xFF || end == from + 8)
    && forall k | from <= k < end - 1 :: ByteAt(script, k) == 0xFF
  }

  lemma {:induction false} PolledIs(script: seq<Byte>, pos: nat, polls: nat)
    requires polls >= 1
    ensures var (v, end) := Polled(script, pos, polls);
            && pos < end <= pos + polls && v == ByteAt(script, end - 1) && (v != 0xFF || end == pos + polls)
            && forall k | pos <= k < end - 1 :: ByteAt(script, k) == 0xFF
    decreases polls
  {
    if !(polls <= 1 || ByteAt(script, pos) != DUMMY) { PolledIs(script, pos + 1, polls - 1); }
  }

  lemma PollFinds(script: seq<Byte>, pos: nat, v: Byte, end: nat)
    ensures Polled(script, pos, 8) == (v, end) <==> FirstAnswer(script, pos, v, end)
  {
    hide Polled;
    hide ByteAt;
    PolledIs(script, pos, 8);
  }

  class SpiBus {
    const script: seq<Byte>      // what comes back, byte by byte; afterwards the line stays high
    var pos: nat
    var csHigh: bool
    ghost var frames: seq<Frame> // commands sent
    ghost var card: Card         // the card as the protocol would have it
    ghost var honest: bool       // everything that came back is what such a card may send

    constructor (script: seq<Byte>, ghost card: Card)
      requires ValidCard(card)
      ensures this.script == script && pos == 0 && csHigh && frames == [] && this.card == card && honest
    {
      this.script, pos, csHigh, frames, this.card, honest := script, 0, true, [], card, true;
    }

    ghost predicate Valid()
      reads this
    {
      honest ==> ValidCard(card)
    }

    /** Bytes of the script not consumed yet. */
    ghost function Left(): nat
      reads this
    {
      if pos < |script| then |script| - pos else 0
    }

    /** SD_IO_CSState */
    method SetCs(high: bool)
      requires Valid()
      modifies this
      ensures Valid() && csHigh == high && pos == old(pos) && frames == old(frames) && honest == old(honest)
      ensures card == if high then Deselected(old(card)) else old(card)
    {
      csHigh := high;
      if high { card := Deselected(card); }
    }

    /** SD_IO_WriteByte */
    method Transfer(mosi: Byte) returns (miso: Byte)
      requires Valid()
      modifies this
      ensures Valid() && csHigh == old(csHigh) && frames == old(frames) && pos == old(pos) + 1
      ensures miso == ByteAt(script, old(pos))
      ensures csHigh ==> card == old(card) && honest == old(honest)
      ensures !csHigh ==> card == Next(old(card), mosi, miso) && honest == (old(honest) && Allowed(old(card), miso))
    {
      miso := if pos < |script| then script[pos] else DUMMY;
      pos := pos + 1;
      if !csHigh {
        if honest && Allowed(card, miso) { NextIsValid(card, mosi, miso); }
        honest := honest && Allowed(card, miso);
        card := Next(card, mosi, miso);
      }
    }

    /** SD_IO_WriteReadData with dummy output: read a run of bytes. */
    method ReadBytes(n: nat) returns (data: seq<Byte>)
      requires Valid()
      modifies this
      ensures Valid() && csHigh == old(csHigh) && frames == old(frames) && pos == old(pos) + n
      ensures |data| == n && (honest ==> old(honest))
      ensures honest && !csHigh && old(card.phase).Send? && old(card.phase).i + n < BLOCK + 2 ==>
        card == old(card).(phase := Send(old(card.phase).block, old(card.phase).i + n))
      ensures honest && !csHigh && old(card.phase).Send? && old(card.phase).i + n <= BLOCK ==>
        data == old(card).mem[old(card.phase).block][old(card.phase).i..old(card.phase).i + n]
    {
      data := [];
      for k := 0 to n
        invariant Valid() && csHigh == old(csHigh) && frames == old(frames) && pos == old(pos) + k
        invariant |data| == k && (honest ==> old(honest))
        invariant honest && !csHigh && old(card.phase).Send? && old(card.phase).i + k < BLOCK + 2 ==>
          card == old(card).(phase := Send(old(card.phase).block, old(card.phase).i + k))
        invariant honest && !csHigh && old(card.phase).Send? && old(card.phase).i + k <= BLOCK ==>
          data == old(card).mem[old(card.phase).block][old(card.phase).i..old(card.phase).i + k]
      {
        var b := Transfer(DUMMY);
        data := data + [b];
      }
    }

    /** SD_IO_WriteReadData with ignored input: write a run of bytes. */
    method WriteBytes(data: seq<Byte>)
      requires Valid()
      modifies this
      ensures Valid() && csHigh == old(csHigh) && frames == old(frames) && pos == old(pos) + |data| && (honest ==> old(honest))
      ensures honest && !csHigh && old(card.phase).Store? && |old(card.phase).bytes| + |data| < BLOCK + 2 ==>
        card == old(card).(phase := Store(old(card.phase).block, old(card.phase).bytes + data))
    {
      for k := 0 to |data|
        invariant Valid() && csHigh == old(csHigh) && frames == old(frames) && pos == old(pos) + k && (honest ==> old(honest))
        invariant honest && !csHigh && old(card.phase).Store? && |old(card.phase).bytes| + k < BLOCK + 2 ==>
          card == old(card).(phase := Store(old(card.phase).block, old(card.phase).bytes + data[..k]))
      {
        var miso := Transfer(data[k]);
        assert old(card.phase).Store? ==> old(card.phase).bytes + data[..k] + [data[k]] == old(card.phase).bytes + data[..k + 1];
      }
      assert data[..|data|] == data;
    }

    /** SD_ReadData: poll for a byte that is not 0xFF, eight times at most. */
    method ReadData() returns (v: Byte)
      requires Valid()
      modifies this
      ensures Valid() && csHigh == old(csHigh) && frames == old(frames) && pos > old(pos) && (honest ==> old(honest))
      ensures (v, pos) == Polled(script, old(pos), 8) && FirstAnswer(script, old(pos), v, pos)
      ensures v != DUMMY ==> old(Left()) > Left()
      ensures honest && !csHigh && old(card.phase).Reply? && old(card.phase).left == 8 ==>
        && v < 0x80 && Allowed(old(card), v)
        && card == old(card).(phase := AfterReply(old(card), old(card.phase).cmd, old(card.phase).arg, v))
    {
      var timeout := 8;
      while true
        invariant Valid() && csHigh == old(csHigh) && frames == old(frames) && (honest ==> old(honest))
        invariant 1 <= timeout <= 8 && pos == old(pos) + 8 - timeout
        invariant Polled(script, pos, timeout) == Polled(script, old(pos), 8)
        invariant honest && !csHigh && old(card.phase).Reply? && old(card.phase).left == 8 ==>
          card == old(card).(phase := Reply(old(card.phase).cmd, old(card.phase).arg, timeout))
        decreases timeout
      {
        v := Transfer(DUMMY);
        timeout := timeout - 1;
        if !(v == DUMMY && timeout != 0) { break; }
      }
      PollFinds(script, old(pos), v, pos);
    }

    /** SD_SendCmd: chip select low, six bytes, then the answer. */
    method SendCmd(cmd: int, arg: int, crc: Byte, expected: Expected) returns (r: Answer)
      requires Valid() && 0 <= cmd < 64 && 0 <= arg < 0x1_0000_0000
      modifies this
      ensures Valid() && !csHigh && frames == old(frames) + [Frame(cmd, arg, crc)] && (honest ==> old(honest))
      ensures (r, pos) == AnswerAt(script, old(pos), expected)
      ensures expected == R1 ==> FirstAnswer(script, old(pos) + 6, r.r1, pos)
      ensures expected == R3R7 ==> pos >= 4 && FirstAnswer(script, old(pos) + 6, r.r1, pos - 4) && r.r2 == ByteAt(script, pos - 4)
      ensures pos > old(pos) && (r.r1 != DUMMY ==> old(Left()) > Left())
      ensures honest && old(card.phase) == Ready([]) && expected == R1 ==>
        && r.r1 < 0x80 && (r.r1 == 0 && (cmd == CMD17 || cmd == CMD24) ==> ValidAddress(old(card), arg))
        && card == old(card).(phase := AfterReply(old(card), cmd, arg, r.r1))
    {
      hide Polled;
      hide NextPhase;
      hide FirstAnswer;
      SetCs(false);
      SendFrame(cmd, arg, crc);
      frames := frames + [Frame(cmd, arg, crc)];
      var r1 := ReadData();
      r := Answer(r1, DUMMY, DUMMY, DUMMY, DUMMY);
      if expected == R3R7 {
        var r2 := Transfer(DUMMY);
        var r3 := Transfer(DUMMY);
        var r4 := Transfer(DUMMY);
        var r5 := Transfer(DUMMY);
        r := Answer(r1, r2, r3, r4, r5);
      }
    }

    /** SD_WaitData: poll for a token. A token that arrives on the very last poll counts as a timeout. */
    method WaitData(token: Byte) returns (ok: bool)
      requires Valid()
      modifies this
      ensures Valid() && csHigh == old(csHigh) && frames == old(frames) && (honest ==> old(honest))
      ensures (ok, pos) == TokenAt(script, old(pos), token, 0xFFFF)
      ensures honest && !csHigh && old(card.phase).Fetch? && token == START_BLOCK && ok ==>
        card == old(card).(phase := Send(old(card.phase).block, 0))
      ensures honest && !csHigh && old(card.phase).Fetch? ==> card.mem == old(card.mem) && card.highCapacity == old(card.highCapacity)
    {
      ghost var all := 0xFFFF;
      var timeout := 0xFFFF;
      var v: Byte;
      while true
        invariant Valid() && csHigh == old(csHigh) && frames == old(frames) && (honest ==> old(honest))
        invariant 1 <= timeout <= 0xFFFF && TokenAt(script, pos, token, timeout) == TokenAt(script, old(pos), token, all)
        invariant honest && !csHigh && old(card.phase).Fetch? && token == START_BLOCK ==> card == old(card)
        invariant honest && !csHigh && old(card.phase).Fetch? ==>
          card.mem == old(card.mem) && card.highCapacity == old(card.highCapacity) && !card.phase.Verdict?
          && (card.phase.Fetch? || card.phase.Send? || card.phase == Ready([]))
        decreases timeout
      {
        v := Transfer(DUMMY);
        timeout := timeout - 1;
        if !(v != token && timeout != 0) { break; }
      }
      return timeout != 0;
    }

    /** SD_GetDataResponse: the verdict on a block just written, and the wait for the end of programming. */
    method GetDataResponse() returns (rvalue: Byte)
      requires Valid() && !csHigh
      modifies this
      ensures Valid() && !csHigh && frames == old(frames) && (honest ==> old(honest))
      ensures var masked := ByteAt(script, old(pos)) % 32; rvalue == if masked in {0x05, 0x0B, 0x0D} then masked else 0xFF
      ensures pos == if rvalue == 0x05 then ReadyAt(script, old(pos) + 2) else old(pos) + 2
      ensures honest && old(card.phase).Verdict? ==>
        card == old(card).(phase := Ready([]),
                           mem := if rvalue == 0x05 then old(card.mem)[old(card.phase).block := old(card.phase).data]
                                  else old(card.mem))
    {
      var response := Transfer(DUMMY);
      var busy := Transfer(DUMMY);
      rvalue := 0xFF;
      if response % 32 == 0x05 {
        rvalue := 0x05;
        SetCs(true);
        SetCs(false);
        ghost var written := card.mem;
        ghost var kind := card.highCapacity;
        while true
          invariant Valid() && !csHigh && frames == old(frames) && (honest ==> old(honest))
          invariant ReadyAt(script, pos) == ReadyAt(script, old(pos) + 2)
          invariant honest && old(card.phase).Verdict? ==>
            card.mem == written && card.highCapacity == kind && (card.phase.Busy? || card.phase == Ready([]))
          decreases Left()
        {
          var b := Transfer(DUMMY);
          if b == DUMMY { break; }
        }
      } else if response % 32 == 0x0B {
        rvalue := 0x0B;
      } else if response % 32 == 0x0D {
        rvalue := 0x0D;
      }
    }

    /** The six bytes of a command frame. */
    method SendFrame(cmd: int, arg: int, crc: Byte)
      requires Valid() && !csHigh && 0 <= cmd < 64 && 0 <= arg < 0x1_0000_0000
      modifies this
      ensures Valid() && !csHigh && frames == old(frames) && pos == old(pos) + 6 && (honest ==> old(honest))
      ensures honest && old(card.phase) == Ready([]) ==> card == old(card).(phase := Reply(cmd, arg, 8))
    {
      var frame := FrameBytes(cmd, arg, crc);
      FrameArg(cmd, arg, crc);
      for k := 0 to 6
        invariant Valid() && !csHigh && frames == old(frames) && pos == old(pos) + k && (honest ==> old(honest))
        invariant honest && old(card.phase) == Ready([]) ==>
          card == old(card).(phase := if k < 6 then Ready(frame[..k]) else Reply(cmd, arg, 8))
      {
        var miso := Transfer(frame[k]);
        assert frame[..k + 1] == frame[..k] + [frame[k]];
      }
    }
  }

  function FrameBytes(cmd: int, arg: int, crc: Byte): (f: seq<Byte>)
    requires 0 <= cmd < 64 && 0 <= arg < 0x1_0000_0000
    ensures |f| == 6
  {
    [cmd + 0x40, arg / 0x100_0000, arg / 0x1_0000 % 0x100, arg / 0x100 % 0x100, arg % 0x100,
     if crc % 2 == 0 then crc + 1 else crc]
  }

  lemma FrameArg(cmd: int, arg: int, crc: Byte)
    requires 0 <= cmd < 64 && 0 <= arg < 0x1_0000_0000
    ensures ArgOf(FrameBytes(cmd, arg, crc)[..5]) == arg
    ensures FrameBytes(cmd, arg, crc)[0] == 0x40 + cmd < 0x80
    ensures var last := FrameBytes(cmd, arg, crc)[5]; last % 2 == 1 && last / 2 == crc / 2
  {
    var a1 := arg / 0x100;
    var a2 := a1 / 0x100;
    var a3 := a2 / 0x100;
    var r0, r1, r2 := arg % 0x100, a1 % 0x100, a2 % 0x100;
    DivModIs(arg, 0x1_0000, a2, 0x100 * r1 + r0);
    DivModIs(arg, 0x100_0000, a3, 0x1_0000 * r2 + 0x100 * r1 + r0);
  }
}
