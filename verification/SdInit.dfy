/** SD_GoIdleState (Drivers/BSP/Adafruit_Shield/stm32_adafruit_sd.c): the SPI initialisation dialogue of
    section 7.2.1 of the SD Physical Layer Simplified Specification, for any card responses. */
module SdInit {
  import opened Arith
  import opened SdBus

  const MAX_TRY := 100
  const IDLE: Byte := 0x01

  /** Bit 2 of R1: illegal command. */
  predicate Illegal(r1: Byte) { r1 / 4 % 2 == 1 }

  /** Bit 30 of the OCR, which is bit 6 of its first byte. */
  function CapacityBit(r2: Byte): int { r2 / 64 % 2 }

  /** A command and what came back: R1, and the first byte of the OCR where there is one. */
  datatype Exchange = Exchange(frame: Frame, r1: Byte, r2: Byte)

  datatype Path = V1 | V2 | V2Fallback

  /** What the dialogue does next. */
  datatype Stage =
    | Reset(tries: nat)        // send CMD0
    | IfCond                   // send CMD8
    | App(path: Path)          // send CMD55
    | OpCond(path: Path)       // send ACMD41
    | Ocr                      // send CMD58
    | Initialised(flag: int)
    | Failed

  function Command(s: Stage): Frame {
    match s
    case Reset(_) => Frame(CMD0, 0, 0x95)
    case IfCond => Frame(CMD8, 0x1AA, 0x87)
    case App(_) => Frame(CMD55, 0, 0xFF)
    case OpCond(path) => Frame(CMD41, if path == V2 then 0x4000_0000 else 0, 0xFF)
    case _ => Frame(CMD58, 0, 0xFF)
  }

  /** The stage after an exchange. */
  function After(s: Stage, r1: Byte, r2: Byte): Stage {
    match s
    case Reset(tries) => if tries + 1 >= MAX_TRY then Failed else if r1 == IDLE then IfCond else Reset(tries + 1)
    case IfCond => if Illegal(r1) then App(V1) else if r1 == IDLE then App(V2) else Failed
    case App(path) => if path == V2Fallback && r1 != IDLE then Failed else OpCond(path)
    case OpCond(path) =>
      if r1 == IDLE then App(path)
      else if path == V1 then Initialised(0)
      else if path == V2 && Illegal(r1) then App(V2Fallback)
      else Ocr
    case Ocr => if r1 != 0 then Failed else Initialised(CapacityBit(r2))
    case _ => s
  }

  predicate Over(s: Stage) { s.Initialised? || s.Failed? }

  /** The exchanges lead from one stage to the other, each sending what its stage calls for. */
  ghost predicate Leads(s: Stage, d: seq<Exchange>, t: Stage)
    decreases |d|
  {
    if d == [] then s == t
    else !Over(s) && d[0].frame == Command(s) && Leads(After(s, d[0].r1, d[0].r2), d[1..], t)
  }

  lemma {:induction false} LeadsOn(s: Stage, d: seq<Exchange>, t: Stage, e: Exchange)
    requires Leads(s, d, t) && !Over(t) && e.frame == Command(t)
    ensures Leads(s, d + [e], After(t, e.r1, e.r2))
    decreases |d|
  {
    if d == [] {
      assert (d + [e])[1..] == [];
    } else {
      LeadsOn(After(s, d[0].r1, d[0].r2), d[1..], t, e);
      assert (d + [e])[1..] == d[1..] + [e];
    }
  }

  function FramesOf(d: seq<Exchange>): seq<Frame> { seq(|d|, i requires 0 <= i < |d| => d[i].frame) }

  /** What kind of answer the driver expects to a command. */
  function ExpectedOf(cmd: int): Expected { if cmd == CMD8 || cmd == CMD58 then R3R7 else R1 }

  /** The answers of the dialogue are the bytes that came back between two positions: six bytes of command,
      the answer, and one byte with the card released. */
  ghost predicate Heard(script: seq<Byte>, pos: nat, d: seq<Exchange>, end: nat)
    decreases |d|
  {
    if d == [] then pos == end
    else
      var (a, p) := AnswerAt(script, pos, ExpectedOf(d[0].frame.cmd));
      d[0].r1 == a.r1 && d[0].r2 == a.r2 && Heard(script, p + 1, d[1..], end)
  }

  lemma {:induction false} HeardOn(script: seq<Byte>, pos: nat, d: seq<Exchange>, mid: nat, e: Exchange)
    requires Heard(script, pos, d, mid)
    requires var a := AnswerAt(script, mid, ExpectedOf(e.frame.cmd)).0; e.r1 == a.r1 && e.r2 == a.r2
    ensures Heard(script, pos, d + [e], AnswerAt(script, mid, ExpectedOf(e.frame.cmd)).1 + 1)
    decreases |d|
  {
    hide AnswerAt;
    if d == [] {
      assert (d + [e])[1..] == [];
    } else {
      HeardOn(script, AnswerAt(script, pos, ExpectedOf(d[0].frame.cmd)).1 + 1, d[1..], mid, e);
      assert (d + [e])[1..] == d[1..] + [e];
    }
  }

  lemma NothingYet(script: seq<Byte>, pos: nat, d: seq<Exchange>)
    requires d == []
    ensures Leads(Reset(0), d, Reset(0)) && Heard(script, pos, d, pos) && FramesOf(d) == []
  {
  }

  class Driver {
    const bus: SpiBus
    var flagSDHC: int
    ghost var dialogue: seq<Exchange>

    constructor (bus: SpiBus)
      ensures this.bus == bus && flagSDHC == 0 && dialogue == []
    {
      this.bus, flagSDHC, dialogue := bus, 0, [];
    }

    /** The dialogue so far leads to the given stage, and its commands and answers are what went over the bus
        from the start on. */
    ghost predicate At(s: Stage, earlier: seq<Frame>, start: nat)
      reads this, bus
    {
      && bus.Valid() && bus.csHigh
      && Heard(bus.script, start, dialogue, bus.pos)
      && Leads(Reset(0), dialogue, s)
      && bus.frames == earlier + FramesOf(dialogue)
    }

    /** Send the command a stage calls for and release the card. */
    method Talk(ghost s: Stage, cmd: int, arg: int, crc: Byte, expected: Expected, ghost earlier: seq<Frame>, ghost start: nat)
      returns (r: Answer)
      requires bus.Valid() && bus.frames == earlier + FramesOf(dialogue) && Leads(Reset(0), dialogue, s)
      requires Heard(bus.script, start, dialogue, bus.pos) && expected == ExpectedOf(cmd)
      requires !Over(s) && Command(s) == Frame(cmd, arg, crc) && 0 <= cmd < 64 && 0 <= arg < 0x1_0000_0000
      modifies bus, this`dialogue
      ensures At(After(s, r.r1, r.r2), earlier, start)
      ensures old(bus.Left()) >= bus.Left() && (r.r1 != DUMMY ==> old(bus.Left()) > bus.Left())
    {
      hide AnswerAt;
      HeardOn(bus.script, start, dialogue, bus.pos, Exchange(Frame(cmd, arg, crc), AnswerAt(bus.script, bus.pos, expected).0.r1,
                                                             AnswerAt(bus.script, bus.pos, expected).0.r2));
      r := bus.SendCmd(cmd, arg, crc, expected);
      bus.SetCs(true);
      var b := bus.Transfer(DUMMY);
      LeadsOn(Reset(0), dialogue, s, Exchange(Frame(cmd, arg, crc), r.r1, r.r2));
      dialogue := dialogue + [Exchange(Frame(cmd, arg, crc), r.r1, r.r2)];
      assert FramesOf(dialogue) == FramesOf(old(dialogue)) + [Frame(cmd, arg, crc)];
    }

    /** CMD55 and ACMD41 until the card is no longer idle. */
    method WaitReady(path: Path, arg: int, ghost earlier: seq<Frame>, ghost start: nat) returns (r: Answer, ghost end: Stage)
      requires At(App(path), earlier, start) && path != V2Fallback && arg == (if path == V2 then 0x4000_0000 else 0)
      modifies bus, this`dialogue
      ensures At(end, earlier, start) && r.r1 != IDLE && end == After(OpCond(path), r.r1, r.r2)
    {
      while true
        invariant At(App(path), earlier, start)
        decreases bus.Left()
      {
        r := Talk(App(path), CMD55, 0, 0xFF, R1, earlier, start);
        r := Talk(OpCond(path), CMD41, arg, 0xFF, R1, earlier, start);
        if !(r.r1 == IDLE) { break; }
      }
      end := After(OpCond(path), r.r1, r.r2);
    }

    /** The same without the high-capacity bit, giving up when CMD55 is refused. */
    method FallBack(ghost earlier: seq<Frame>, ghost start: nat) returns (ok: bool, ghost end: Stage)
      requires At(App(V2Fallback), earlier, start)
      modifies bus, this`dialogue
      ensures At(end, earlier, start) && end == if ok then Ocr else Failed
    {
      var r: Answer;
      while true
        invariant At(App(V2Fallback), earlier, start)
        decreases bus.Left()
      {
        r := Talk(App(V2Fallback), CMD55, 0, 0xFF, R1, earlier, start);
        if r.r1 != IDLE { return false, Failed; }
        r := Talk(OpCond(V2Fallback), CMD41, 0, 0xFF, R1, earlier, start);
        if !(r.r1 == IDLE) { break; }
      }
      return true, Ocr;
    }

    /** The initialisation succeeds iff its dialogue is one of the successful ones, and the capacity flag is
        the one that dialogue tells. */
    method GoIdleState() returns (ok: bool, ghost end: Stage)
      requires bus.Valid() && dialogue == []
      modifies bus, this
      ensures At(end, old(bus.frames), old(bus.pos)) && Over(end)
      ensures ok == end.Initialised?
      ensures flagSDHC == if ok then end.flag else old(flagSDHC)
      ensures ok ==> Successful(dialogue, flagSDHC)
      ensures !ok ==> forall f :: !Successful(dialogue, f)
    {
      ok, end := Converse();
      if ok {
        SuccessfulIff(dialogue, flagSDHC);
      } else {
        forall f
          ensures !Successful(dialogue, f)
        {
          SuccessfulIff(dialogue, f);
          OneEnd(Reset(0), dialogue, end, Initialised(f));
        }
      }
    }

    /** The dialogue itself. */
    method Converse() returns (ok: bool, ghost end: Stage)
      requires bus.Valid() && dialogue == []
      modifies bus, this
      ensures At(end, old(bus.frames), old(bus.pos)) && Over(end)
      ensures ok == end.Initialised?
      ensures flagSDHC == if ok then end.flag else old(flagSDHC)
    {
      hide Leads;
      hide Heard;
      hide FramesOf;
      ghost var earlier, start := bus.frames, bus.pos;
      NothingYet(bus.script, start, dialogue);
      end := Reset(0);
      var counter := 0;
      var r: Answer;
      while true
        invariant 0 <= counter < MAX_TRY && end == Reset(counter)
        invariant bus.Valid() && bus.frames == earlier + FramesOf(dialogue) && Leads(Reset(0), dialogue, end)
        invariant Heard(bus.script, start, dialogue, bus.pos)
        invariant flagSDHC == old(flagSDHC)
        decreases MAX_TRY - counter
      {
        counter := counter + 1;
        r := Talk(end, CMD0, 0, 0x95, R1, earlier, start);
        end := After(end, r.r1, r.r2);
        if counter >= MAX_TRY { return false, end; }
        if !(r.r1 != IDLE) { break; }
      }

      r := Talk(end, CMD8, 0x1AA, 0x87, R3R7, earlier, start);
      end := After(end, r.r1, r.r2);
      if Illegal(r.r1) {
        r, end := WaitReady(V1, 0, earlier, start);
        flagSDHC := 0;
      } else if r.r1 == IDLE {
        r, end := WaitReady(V2, 0x4000_0000, earlier, start);
        if Illegal(r.r1) {
          ok, end := FallBack(earlier, start);
          if !ok { return false, end; }
        }
        r := Talk(end, CMD58, 0, 0xFF, R3R7, earlier, start);
        end := After(end, r.r1, r.r2);
        if r.r1 != 0 { return false, end; }
        flagSDHC := CapacityBit(r.r2);
      } else {
        return false, end;
      }
      return true, end;
    }
  }

  // ----- which dialogues succeed -----

  /** From a on, CMD55 and ACMD41 with the given argument, until ACMD41 is answered by anything but 01, just
      before b. */
  ghost predicate Waits(d: seq<Exchange>, a: nat, b: nat, arg: int)
    decreases |d| - a
  {
    && a + 1 < |d| && d[a].frame == Frame(55, 0, 0xFF) && d[a + 1].frame == Frame(41, arg, 0xFF)
    && if d[a + 1].r1 == 0x01 then Waits(d, a + 2, b, arg) else b == a + 2
  }

  /** The same, with every CMD55 answered 01. */
  ghost predicate Insists(d: seq<Exchange>, a: nat, b: nat)
    decreases |d| - a
  {
    && a + 1 < |d| && d[a].frame == Frame(55, 0, 0xFF) && d[a].r1 == 0x01 && d[a + 1].frame == Frame(41, 0, 0xFF)
    && if d[a + 1].r1 == 0x01 then Insists(d, a + 2, b) else b == a + 2
  }

  /** The last exchange: CMD58 answered 00, with bit 30 of the OCR behind it. */
  ghost predicate ReadsOcr(d: seq<Exchange>, a: nat, flag: int) {
    && |d| == a + 1 && d[a].frame == Frame(58, 0, 0xFF) && d[a].r1 == 0x00
    && flag == if d[a].r2 % 128 >= 64 then 1 else 0
  }

  /** CMD0 from a on, answered by anything but 01 up to i, where it is answered 01. */
  ghost predicate Resets(d: seq<Exchange>, a: nat, i: nat) {
    && a <= i < |d| && d[i].r1 == 0x01
    && (forall j | a <= j <= i :: d[j].frame == Frame(0, 0, 0x95)) && (forall j | a <= j < i :: d[j].r1 != 0x01)
  }

  /** A fallback without the high-capacity bit, and the OCR. */
  ghost predicate FallsBack(d: seq<Exchange>, a: nat, flag: int) {
    exists c: nat :: Insists(d, a, c) && ReadsOcr(d, c, flag)
  }

  /** The version-2 path: ACMD41 with the high-capacity bit, the fallback if that is refused as illegal, and
      the OCR. */
  ghost predicate VersionTwo(d: seq<Exchange>, a: nat, flag: int) {
    exists b: nat :: Waits(d, a, b, 0x4000_0000) && 0 < b <= |d|
      && if d[b - 1].r1 % 8 >= 4 then FallsBack(d, b, flag) else ReadsOcr(d, b, flag)
  }

  /** CMD8, and the path its answer leads to: illegal command, bit 2, means version 1. */
  ghost predicate Checked(d: seq<Exchange>, a: nat, flag: int) {
    && a < |d| && d[a].frame == Frame(8, 0x1AA, 0x87)
    && if d[a].r1 % 8 >= 4 then flag == 0 && Waits(d, a + 1, |d|, 0) else d[a].r1 == 0x01 && VersionTwo(d, a + 1, flag)
  }

  /** CMD0 is answered 01 within 99 tries, and the rest succeeds. */
  ghost predicate Successful(d: seq<Exchange>, flag: int) {
    Starts(d, 0, flag)
  }

  ghost predicate Starts(d: seq<Exchange>, k: nat, flag: int) {
    exists i: nat | k <= i < 99 :: Resets(d, k, i) && Checked(d, i + 1, flag)
  }

  lemma LeadsStep(s: Stage, d: seq<Exchange>, a: nat, t: Stage)
    requires a <= |d|
    ensures a == |d| ==> (Leads(s, d[a..], t) <==> s == t)
    ensures a < |d| ==> (Leads(s, d[a..], t) <==>
              !Over(s) && d[a].frame == Command(s) && Leads(After(s, d[a].r1, d[a].r2), d[a + 1..], t))
  {
    if a < |d| { assert d[a..][1..] == d[a + 1..]; }
  }

  lemma NothingAfter(s: Stage, d: seq<Exchange>, a: nat, t: Stage)
    requires a <= |d| && Over(s)
    ensures Leads(s, d[a..], t) <==> a == |d| && s == t
  {
    LeadsStep(s, d, a, t);
  }

  lemma OcrIff(d: seq<Exchange>, a: nat, flag: int)
    requires a <= |d|
    ensures Leads(Ocr, d[a..], Initialised(flag)) <==> ReadsOcr(d, a, flag)
  {
    hide Leads;
    LeadsStep(Ocr, d, a, Initialised(flag));
    if a < |d| {
      NothingAfter(After(Ocr, d[a].r1, d[a].r2), d, a + 1, Initialised(flag));
      CapacityBitIs(d[a].r2);
    }
  }

  lemma CapacityBitIs(r2: Byte)
    ensures CapacityBit(r2) == if r2 % 128 >= 64 then 1 else 0
  {
  }

  lemma IllegalIs(r1: Byte)
    ensures Illegal(r1) <==> r1 % 8 >= 4
  {
  }

  lemma {:induction false} VersionOneIff(d: seq<Exchange>, a: nat, flag: int)
    requires a <= |d|
    ensures Leads(App(V1), d[a..], Initialised(flag)) <==> flag == 0 && Waits(d, a, |d|, 0)
    decreases |d| - a
  {
    hide Leads;
    var t := Initialised(flag);
    LeadsStep(App(V1), d, a, t);
    if a < |d| {
      LeadsStep(OpCond(V1), d, a + 1, t);
      if a + 1 < |d| {
        if d[a + 1].r1 == IDLE {
          VersionOneIff(d, a + 2, flag);
        } else {
          NothingAfter(Initialised(0), d, a + 2, t);
        }
      }
    }
  }

  lemma {:induction false} FallsBackIff(d: seq<Exchange>, a: nat, flag: int)
    requires a <= |d|
    ensures Leads(App(V2Fallback), d[a..], Initialised(flag)) <==> FallsBack(d, a, flag)
    decreases |d| - a
  {
    hide Leads;
    hide ReadsOcr;
    var t := Initialised(flag);
    LeadsStep(App(V2Fallback), d, a, t);
    if a < |d| {
      if d[a].r1 != IDLE {
        NothingAfter(Failed, d, a + 1, t);
      } else {
        LeadsStep(OpCond(V2Fallback), d, a + 1, t);
        if a + 1 < |d| {
          if d[a + 1].r1 == IDLE { FallsBackIff(d, a + 2, flag); } else { OcrIff(d, a + 2, flag); }
          FallsBackStep(d, a, flag);
        }
      }
    }
  }

  lemma FallsBackStep(d: seq<Exchange>, a: nat, flag: int)
    requires a + 1 < |d|
    ensures FallsBack(d, a, flag) <==>
            && d[a].frame == Frame(55, 0, 0xFF) && d[a].r1 == 0x01 && d[a + 1].frame == Frame(41, 0, 0xFF)
            && if d[a + 1].r1 == 0x01 then FallsBack(d, a + 2, flag) else ReadsOcr(d, a + 2, flag)
  {
    hide ReadsOcr;
    if FallsBack(d, a, flag) {
      var c: nat :| Insists(d, a, c) && ReadsOcr(d, c, flag);
    }
    if d[a].frame == Frame(55, 0, 0xFF) && d[a].r1 == 0x01 && d[a + 1].frame == Frame(41, 0, 0xFF) {
      if d[a + 1].r1 == 0x01 {
        if FallsBack(d, a + 2, flag) {
          var c: nat :| Insists(d, a + 2, c) && ReadsOcr(d, c, flag);
          assert Insists(d, a, c);
        }
      } else {
        assert Insists(d, a, a + 2);
      }
    }
  }

  lemma {:induction false} VersionTwoIff(d: seq<Exchange>, a: nat, flag: int)
    requires a <= |d|
    ensures Leads(App(V2), d[a..], Initialised(flag)) <==> VersionTwo(d, a, flag)
    decreases |d| - a
  {
    hide Leads;
    hide ReadsOcr;
    hide FallsBack;
    var t := Initialised(flag);
    LeadsStep(App(V2), d, a, t);
    if a < |d| {
      LeadsStep(OpCond(V2), d, a + 1, t);
      if a + 1 < |d| {
        IllegalIs(d[a + 1].r1);
        VersionTwoStep(d, a, flag);
        if d[a + 1].r1 == IDLE {
          VersionTwoIff(d, a + 2, flag);
        } else {
          FallsBackIff(d, a + 2, flag);
          OcrIff(d, a + 2, flag);
        }
      }
    }
  }

  lemma VersionTwoStep(d: seq<Exchange>, a: nat, flag: int)
    requires a + 1 < |d|
    ensures VersionTwo(d, a, flag) <==>
            && d[a].frame == Frame(55, 0, 0xFF) && d[a + 1].frame == Frame(41, 0x4000_0000, 0xFF)
            && if d[a + 1].r1 == 0x01 then VersionTwo(d, a + 2, flag)
               else if d[a + 1].r1 % 8 >= 4 then FallsBack(d, a + 2, flag) else ReadsOcr(d, a + 2, flag)
  {
    hide ReadsOcr;
    hide FallsBack;
    if d[a].frame == Frame(55, 0, 0xFF) && d[a + 1].frame == Frame(41, 0x4000_0000, 0xFF) {
      if d[a + 1].r1 == 0x01 {
        assert forall b: nat :: Waits(d, a, b, 0x4000_0000) <==> Waits(d, a + 2, b, 0x4000_0000);
      } else {
        assert forall b: nat :: Waits(d, a, b, 0x4000_0000) <==> b == a + 2;
        assert Waits(d, a, a + 2, 0x4000_0000);
      }
    }
  }

  lemma CheckedIff(d: seq<Exchange>, a: nat, flag: int)
    requires a <= |d|
    ensures Leads(IfCond, d[a..], Initialised(flag)) <==> Checked(d, a, flag)
  {
    hide Leads;
    hide Waits;
    hide VersionTwo;
    var t := Initialised(flag);
    LeadsStep(IfCond, d, a, t);
    if a < |d| {
      IllegalIs(d[a].r1);
      VersionOneIff(d, a + 1, flag);
      VersionTwoIff(d, a + 1, flag);
      NothingAfter(Failed, d, a + 1, t);
    }
  }

  lemma {:induction false} ResetsIff(d: seq<Exchange>, k: nat, flag: int)
    requires k <= |d| && k < 100
    ensures Leads(Reset(k), d[k..], Initialised(flag)) <==> Starts(d, k, flag)
    decreases |d| - k
  {
    hide Leads;
    hide Checked;
    var t := Initialised(flag);
    LeadsStep(Reset(k), d, k, t);
    if k < |d| {
      var s := After(Reset(k), d[k].r1, d[k].r2);
      if k + 1 >= 100 {
        NothingAfter(s, d, k + 1, t);
      } else if d[k].r1 == IDLE {
        CheckedIff(d, k + 1, flag);
        if d[k].frame == Frame(0, 0, 0x95) { assert Resets(d, k, k); }
      } else {
        ResetsIff(d, k + 1, flag);
        if Starts(d, k, flag) {
          var i: nat :| k <= i < 99 && Resets(d, k, i) && Checked(d, i + 1, flag);
          assert Resets(d, k + 1, i) && d[k].frame == Frame(0, 0, 0x95);
        }
        if d[k].frame == Frame(0, 0, 0x95) && Starts(d, k + 1, flag) {
          var i: nat :| k + 1 <= i < 99 && Resets(d, k + 1, i) && Checked(d, i + 1, flag);
          assert Resets(d, k, i);
        }
      }
    }
  }

  /** The initialisation succeeds, with a flag, on exactly these dialogues. */
  lemma SuccessfulIff(d: seq<Exchange>, flag: int)
    ensures Leads(Reset(0), d, Initialised(flag)) <==> Successful(d, flag)
  {
    hide Leads;
    hide Resets;
    hide Checked;
    assert d[0..] == d;
    ResetsIff(d, 0, flag);
  }

  lemma {:induction false} OneEnd(s: Stage, d: seq<Exchange>, t: Stage, u: Stage)
    requires Leads(s, d, t)
    ensures Leads(s, d, u) <==> t == u
    decreases |d|
  {
    if d != [] { OneEnd(After(s, d[0].r1, d[0].r2), d[1..], t, u); }
  }

  /** The answers of a dialogue, read off the bus: R1 within eight bytes behind the six of the command, and
      behind CMD8 and CMD58 the byte that follows it. */
  lemma HeardIs(script: seq<Byte>, pos: nat, d: seq<Exchange>, end: nat) returns (p: nat)
    requires Heard(script, pos, d, end) && d != []
    ensures FirstAnswer(script, pos + 6, d[0].r1, p)
    ensures if d[0].frame.cmd == 8 || d[0].frame.cmd == 58 then d[0].r2 == ByteAt(script, p) && Heard(script, p + 5, d[1..], end)
            else Heard(script, p + 1, d[1..], end)
  {
    hide FirstAnswer;
    hide Polled;
    p := Polled(script, pos + 6, 8).1;
    PollFinds(script, pos + 6, Polled(script, pos + 6, 8).0, p);
  }

  // ----- what every dialogue has in common -----

  ghost function Count(d: seq<Exchange>, cmd: int): nat {
    if d == [] then 0 else (if d[0].frame.cmd == cmd then 1 else 0) + Count(d[1..], cmd)
  }

  /** Every ACMD41 comes directly behind a CMD55. */
  ghost predicate PairedFrom(d: seq<Exchange>, behindApp: bool) {
    d == [] || ((d[0].frame.cmd == CMD41 ==> behindApp) && PairedFrom(d[1..], d[0].frame.cmd == CMD55))
  }

  lemma {:induction false} PairedAlways(s: Stage, d: seq<Exchange>, t: Stage)
    requires Leads(s, d, t)
    ensures PairedFrom(d, s.OpCond?)
    decreases |d|
  {
    if d != [] {
      PairedAlways(After(s, d[0].r1, d[0].r2), d[1..], t);
      PairedWeakens(d[1..], After(s, d[0].r1, d[0].r2).OpCond?, d[0].frame.cmd == CMD55);
    }
  }

  lemma PairedWeakens(d: seq<Exchange>, p: bool, q: bool)
    requires PairedFrom(d, p) && (p ==> q)
    ensures PairedFrom(d, q)
  {
  }

  lemma {:induction false} FewResets(s: Stage, d: seq<Exchange>, t: Stage)
    requires Leads(s, d, t)
    ensures Count(d, CMD0) <= (if s.Reset? && s.tries < MAX_TRY then MAX_TRY - s.tries else if s.Reset? then 1 else 0)
    ensures Count(d, CMD8) <= (if s.Reset? || s.IfCond? then 1 else 0)
    decreases |d|
  {
    if d != [] { FewResets(After(s, d[0].r1, d[0].r2), d[1..], t); }
  }

  /** The high-capacity bit of ACMD41 is only ever set for a card that accepted CMD8. */
  ghost predicate AsksHighOnlyIf(d: seq<Exchange>, accepted: bool) {
    d == []
    || ((d[0].frame.cmd == CMD41 && d[0].frame.arg != 0 ==> accepted)
        && AsksHighOnlyIf(d[1..], accepted || (d[0].frame.cmd == CMD8 && d[0].r1 == IDLE)))
  }

  lemma {:induction false} AsksHighAlways(s: Stage, d: seq<Exchange>, t: Stage, accepted: bool)
    requires Leads(s, d, t)
    requires (s == App(V2) || s == OpCond(V2)) ==> accepted
    ensures AsksHighOnlyIf(d, accepted)
    decreases |d|
  {
    if d != [] {
      AsksHighAlways(After(s, d[0].r1, d[0].r2), d[1..], t, accepted || (d[0].frame.cmd == CMD8 && d[0].r1 == IDLE));
    }
  }

  /** How a dialogue that succeeds ends: on the version-1 path with an ACMD41 answered by anything but
      idle, otherwise with a CMD58 answered without error, whose bit 30 becomes the flag. */
  lemma {:induction false} SuccessEnds(s: Stage, d: seq<Exchange>, flag: int)
    requires Leads(s, d, Initialised(flag)) && !Over(s)
    ensures d != [] &&
            var last := d[|d| - 1];
            || (last.frame.cmd == CMD41 && last.frame.arg == 0 && last.r1 != IDLE && flag == 0)
            || (last.frame.cmd == CMD58 && last.r1 == 0 && flag == CapacityBit(last.r2))
    decreases |d|
  {
    var s1 := After(s, d[0].r1, d[0].r2);
    if d[1..] != [] { SuccessEnds(s1, d[1..], flag); }
  }

  /** Every run of the initialisation, whatever the card answers. */
  lemma EveryDialogue(d: seq<Exchange>, t: Stage)
    requires Leads(Reset(0), d, t) && Over(t)
    ensures PairedFrom(d, false)
    ensures Count(d, CMD0) <= MAX_TRY && Count(d, CMD8) <= 1
    ensures AsksHighOnlyIf(d, false)
    ensures d != [] && d[0].frame == Frame(CMD0, 0, 0x95)
    ensures t.Initialised? ==>
      var last := d[|d| - 1];
      || (last.frame.cmd == CMD41 && last.frame.arg == 0 && last.r1 != IDLE && t.flag == 0)
      || (last.frame.cmd == CMD58 && last.r1 == 0 && t.flag == CapacityBit(last.r2))
  {
    PairedAlways(Reset(0), d, t);
    FewResets(Reset(0), d, t);
    AsksHighAlways(Reset(0), d, t, false);
    if t.Initialised? { SuccessEnds(Reset(0), d, t.flag); }
  }

  // ----- the bytes that come back decide -----

  /** The bytes that come back decide the dialogue and its outcome. */
  lemma {:induction false} ScriptDecides(script: seq<Byte>, pos: nat, s: Stage, d: seq<Exchange>, t: Stage, p: nat,
                                         d': seq<Exchange>, t': Stage, p': nat)
    requires Leads(s, d, t) && Over(t) && Heard(script, pos, d, p)
    requires Leads(s, d', t') && Over(t') && Heard(script, pos, d', p')
    ensures d == d' && t == t' && p == p'
    decreases |d|
  {
    hide AnswerAt;
    if d != [] && d' != [] {
      ScriptDecides(script, AnswerAt(script, pos, ExpectedOf(d[0].frame.cmd)).1 + 1, After(s, d[0].r1, d[0].r2),
                    d[1..], t, p, d'[1..], t', p');
      assert d == [d[0]] + d[1..] && d' == [d'[0]] + d'[1..];
    }
  }

  lemma {:induction false} SilentPoll(script: seq<Byte>, pos: nat, polls: nat)
    requires pos >= |script|
    ensures Polled(script, pos, polls).0 == DUMMY && Polled(script, pos, polls).1 >= pos
    decreases polls
  {
    if polls > 1 { SilentPoll(script, pos + 1, polls - 1); }
  }

  /** A card that answers nothing from some stage on is taken for an initialised one iff CMD8 was still to
      come, or the version-1 loop was under way. */
  lemma {:induction false} SilentInitialisedIff(script: seq<Byte>, pos: nat, s: Stage, d: seq<Exchange>, t: Stage, end: nat)
    requires Leads(s, d, t) && Over(t) && !Over(s) && Heard(script, pos, d, end) && pos >= |script|
    ensures t.Initialised? <==> s.IfCond? || s == App(V1) || s == OpCond(V1)
    decreases |d|
  {
    SilentPoll(script, pos + 6, 8);
    var s1 := After(s, d[0].r1, d[0].r2);
    var p := AnswerAt(script, pos, ExpectedOf(d[0].frame.cmd)).1 + 1;
    if !Over(s1) { SilentInitialisedIff(script, p, s1, d[1..], t, end); }
  }

  /** A witness: silence after CMD0. */
  lemma SilentCardInitialised()
    ensures Leads(Reset(0), [Exchange(Frame(CMD0, 0, 0x95), IDLE, DUMMY), Exchange(Frame(CMD8, 0x1AA, 0x87), DUMMY, DUMMY),
                             Exchange(Frame(CMD55, 0, 0xFF), DUMMY, DUMMY), Exchange(Frame(CMD41, 0, 0xFF), DUMMY, DUMMY)],
                  Initialised(0))
  {
    var a, b := Exchange(Frame(CMD0, 0, 0x95), IDLE, DUMMY), Exchange(Frame(CMD8, 0x1AA, 0x87), DUMMY, DUMMY);
    var c, e := Exchange(Frame(CMD55, 0, 0xFF), DUMMY, DUMMY), Exchange(Frame(CMD41, 0, 0xFF), DUMMY, DUMMY);
    assert [a, b, c, e][1..] == [b, c, e] && [b, c, e][1..] == [c, e] && [c, e][1..] == [e] && [e][1..] == [];
    assert Leads(OpCond(V1), [e], Initialised(0));
    assert Leads(App(V1), [c, e], Initialised(0));
    assert Leads(IfCond, [b, c, e], Initialised(0));
  }
}
