/** The write side of BufferedStream (framework/src/kfw_io.cpp): nothing accepted is lost or
    reordered on its way to the base stream. */
module BufferedWrite {

  /** What the base stream does with its k-th write: take up to n bytes and succeed, or fail. */
  datatype BaseResult = Wrote(n: nat) | Failed

  type Plan = nat -> BaseResult

  datatype Ret = Ok | BaseError | Disposed

  datatype Result = Result(ret: Ret, val: nat)

  /** The base stream: the bytes it took, in order. */
  class Sink {
    const plan: Plan
    var calls: nat
    var out: string

    constructor (plan: Plan)
      ensures this.plan == plan && calls == 0 && out == ""
    {
      this.plan, calls, out := plan, 0, "";
    }

    method Write(data: string) returns (r: Result)
      modifies this
      ensures calls == old(calls) + 1
      ensures r == BaseWrite(plan, old(calls), data) && out == old(out) + data[..r.val]
    {
      r := BaseWrite(plan, calls, data);
      calls := calls + 1;
      out := out + data[..r.val];
    }
  }

  function BaseWrite(plan: Plan, call: nat, data: string): (r: Result)
    ensures r.val <= |data| && (!r.ret.Ok? ==> r.val == 0)
  {
    match plan(call)
    case Failed => Result(BaseError, 0)
    case Wrote(n) => Result(Ok, if n <= |data| then n else |data|)
  }

  // ----- specification -----

  /** Bytes at the base, bytes waiting in the buffer, and the number of base writes so far. */
  datatype State = State(out: string, pending: string, calls: nat)

  function FlushSpec(plan: Plan, s: State): (State, Ret) {
    if s.pending == "" then (s, Ok)
    else
      var r := BaseWrite(plan, s.calls, s.pending);
      if r.ret.Ok? then (State(s.out + s.pending[..r.val], "", s.calls + 1), Ok)
      else (s.(calls := s.calls + 1), r.ret)
  }

  function DirectSpec(plan: Plan, s: State, data: string): (State, Result) {
    var r := BaseWrite(plan, s.calls, data);
    (State(s.out + data[..r.val], s.pending, s.calls + 1), r)
  }

  /** cap is the size of the write buffer; without one, writes go straight to the base. */
  function WriteSpec(plan: Plan, buffered: bool, cap: nat, s: State, data: string): (State, Result) {
    if data == "" then (s, Result(Ok, 0))
    else if !buffered then DirectSpec(plan, s, data)
    else if |data| > cap then
      var (s1, ret) := FlushSpec(plan, s);
      if !ret.Ok? then (s1, Result(ret, 0)) else DirectSpec(plan, s1, data)
    else if |s.pending| + |data| > cap then
      var (s1, ret) := FlushSpec(plan, s);
      if !ret.Ok? then (s1, Result(Disposed, 0))
      else (s1.(pending := s1.pending + data), Result(Ok, |data|))
    else (s.(pending := s.pending + data), Result(Ok, |data|))
  }

  // ----- what a call does, case by case -----

  /** How many of the bytes a base write took. */
  function Took(r: BaseResult, size: nat): nat { if r.Failed? then 0 else if r.n < size then r.n else size }

  /** A flush succeeds iff there is nothing to flush or the base write succeeds; then the buffer is empty,
      otherwise as it was. */
  ghost predicate FlushDoes(plan: Plan, s: State, t: State, ret: Ret) {
    && (ret == Ok <==> s.pending == "" || plan(s.calls).Wrote?)
    && (s.pending == "" ==> t == s)
    && (s.pending != "" && plan(s.calls).Wrote? ==>
          t == State(s.out + s.pending[..Took(plan(s.calls), |s.pending|)], "", s.calls + 1))
    && (s.pending != "" && plan(s.calls).Failed? ==> t == State(s.out, s.pending, s.calls + 1) && ret == BaseError)
  }

  /** A write straight to the base, when k base writes have been made and the buffer is as in t. */
  ghost predicate GoesStraight(plan: Plan, out: string, k: nat, data: string, t: State, r: Result) {
    && t.calls == k + 1 && t.out == out + data[..Took(plan(k), |data|)]
    && r == (if plan(k).Wrote? then Result(Ok, Took(plan(k), |data|)) else Result(BaseError, 0))
  }

  /** What fits goes into the buffer and the base is left alone; what does not fit beside the bytes waiting
      takes their place once they are flushed; what is larger than the buffer goes straight to the base
      behind them; and a write fails iff a base write it needed fails. */
  ghost predicate WriteDoes(plan: Plan, buffered: bool, cap: nat, s: State, data: string, t: State, r: Result) {
    if data == "" then t == s && r == Result(Ok, 0)
    else if !buffered then t.pending == s.pending && GoesStraight(plan, s.out, s.calls, data, t, r)
    else if |s.pending| + |data| <= cap then t == State(s.out, s.pending + data, s.calls) && r == Result(Ok, |data|)
    else if s.pending != "" && plan(s.calls).Failed? then
      && t == State(s.out, s.pending, s.calls + 1)
      && r == Result(if |data| > cap then BaseError else Disposed, 0)
    else
      var out := if s.pending == "" then s.out else s.out + s.pending[..Took(plan(s.calls), |s.pending|)];
      var k := if s.pending == "" then s.calls else s.calls + 1;
      if |data| <= cap then t == State(out, data, k) && r == Result(Ok, |data|)
      else t.pending == "" && GoesStraight(plan, out, k, data, t, r)
  }

  lemma SpecDoes(plan: Plan, buffered: bool, cap: nat, s: State, data: string)
    requires |s.pending| <= cap
    ensures FlushDoes(plan, s, FlushSpec(plan, s).0, FlushSpec(plan, s).1)
    ensures WriteDoes(plan, buffered, cap, s, data, WriteSpec(plan, buffered, cap, s, data).0,
                      WriteSpec(plan, buffered, cap, s, data).1)
  {
    assert "" + data == data;
    assert s.pending[..0] == "" && data[..0] == "";
  }

  // ----- the code -----

  class BufferedStream {
    const base: Sink
    const buffered: bool      // m_write_buffer != nullptr
    const buffer: array<char>
    var usage: nat

    constructor (base: Sink, buffered: bool, buffer: array<char>)
      ensures this.base == base && this.buffered == buffered && this.buffer == buffer && usage == 0
      ensures Valid() && Now() == State(base.out, "", base.calls)
    {
      this.base, this.buffered, this.buffer, usage := base, buffered, buffer, 0;
    }

    ghost predicate Valid()
      reads this
    {
      usage <= buffer.Length
    }

    ghost function Now(): State
      requires Valid()
      reads this, base, buffer
    {
      State(base.out, buffer[..usage], base.calls)
    }

    method FlushWriteBuffer() returns (ret: Ret)
      requires Valid()
      modifies this, base
      ensures Valid() && (Now(), ret) == FlushSpec(base.plan, old(Now()))
      ensures FlushDoes(base.plan, old(Now()), Now(), ret)
    {
      SpecDoes(base.plan, buffered, buffer.Length, Now(), "");
      if usage == 0 { return Ok; }
      var r := base.Write(buffer[..usage]);
      if !r.ret.Ok? {
        assert base.out == old(base.out);
        return r.ret;
      }
      usage := 0;
      return Ok;
    }

    method Write(data: string) returns (r: Result)
      requires Valid()
      modifies this, base, buffer
      ensures Valid() && (Now(), r) == WriteSpec(base.plan, buffered, buffer.Length, old(Now()), data)
      ensures WriteDoes(base.plan, buffered, buffer.Length, old(Now()), data, Now(), r)
    {
      hide WriteDoes;
      hide FlushDoes;
      SpecDoes(base.plan, buffered, buffer.Length, Now(), data);
      if |data| == 0 { return Result(Ok, 0); }
      if !buffered {
        r := base.Write(data);
        return;
      }
      if |data| > buffer.Length {
        var ret := FlushWriteBuffer();
        if !ret.Ok? { return Result(ret, 0); }
        r := base.Write(data);
        return;
      }
      var free := buffer.Length - usage;
      if free < |data| {
        var ret := FlushWriteBuffer();
        if !ret.Ok? { return Result(Disposed, 0); }
      }
      ghost var pending := buffer[..usage];
      forall i | 0 <= i < |data| { buffer[usage + i] := data[i]; }
      usage := usage + |data|;
      assert buffer[..usage] == pending + data;
      return Result(Ok, |data|);
    }
  }

  // ----- whole runs -----

  datatype Op = Write(data: string) | Flush

  function Step(plan: Plan, buffered: bool, cap: nat, s: State, op: Op): State {
    match op
    case Write(data) => WriteSpec(plan, buffered, cap, s, data).0
    case Flush => FlushSpec(plan, s).0
  }

  /** The bytes a call reports as written. */
  function Accepted(plan: Plan, buffered: bool, cap: nat, s: State, op: Op): string {
    match op
    case Write(data) =>
      var r := WriteSpec(plan, buffered, cap, s, data).1;
      if r.ret.Ok? && r.val <= |data| then data[..r.val] else ""
    case Flush => ""
  }

  function Run(plan: Plan, buffered: bool, cap: nat, s: State, ops: seq<Op>): State
    decreases |ops|
  {
    if ops == [] then s else Run(plan, buffered, cap, Step(plan, buffered, cap, s, ops[0]), ops[1..])
  }

  function AllAccepted(plan: Plan, buffered: bool, cap: nat, s: State, ops: seq<Op>): string
    decreases |ops|
  {
    if ops == [] then ""
    else Accepted(plan, buffered, cap, s, ops[0])
         + AllAccepted(plan, buffered, cap, Step(plan, buffered, cap, s, ops[0]), ops[1..])
  }

  /** A flush now would report success although the base takes only part of the buffer. */
  predicate ShortFlush(plan: Plan, s: State) {
    s.pending != "" && var r := BaseWrite(plan, s.calls, s.pending); r.ret.Ok? && r.val < |s.pending|
  }

  /** The step flushes the buffer. */
  predicate Flushes(buffered: bool, cap: nat, s: State, op: Op) {
    match op
    case Write(data) => data != "" && buffered && (|data| > cap || |s.pending| + |data| > cap)
    case Flush => true
  }

  /** Some flush of the run is short. */
  predicate SomeShortFlush(plan: Plan, buffered: bool, cap: nat, s: State, ops: seq<Op>)
    decreases |ops|
  {
    ops != []
    && ((Flushes(buffered, cap, s, ops[0]) && ShortFlush(plan, s))
        || SomeShortFlush(plan, buffered, cap, Step(plan, buffered, cap, s, ops[0]), ops[1..]))
  }

  /** The buffer is never over its size, and unused when there is none. */
  predicate Fits(buffered: bool, cap: nat, s: State) {
    |s.pending| <= cap && (buffered || s.pending == "")
  }

  lemma FlushConserves(plan: Plan, s: State)
    ensures var (t, ret) := FlushSpec(plan, s);
            && (ret.Ok? ==> t.pending == "") && (ShortFlush(plan, s) ==> ret.Ok?)
            && (!ret.Ok? ==> t.out == s.out && t.pending == s.pending)
            && (if ShortFlush(plan, s) then |t.out| < |s.out| + |s.pending| else t.out + t.pending == s.out + s.pending)
  {
  }

  /** One step keeps every byte unless it is a short flush, and then bytes are gone. */
  lemma StepConserves(plan: Plan, buffered: bool, cap: nat, s: State, op: Op)
    requires Fits(buffered, cap, s)
    ensures var t, a := Step(plan, buffered, cap, s, op), Accepted(plan, buffered, cap, s, op);
            && Fits(buffered, cap, t)
            && (if Flushes(buffered, cap, s, op) && ShortFlush(plan, s)
                then |t.out| + |t.pending| < |s.out| + |s.pending| + |a|
                else t.out + t.pending == s.out + s.pending + a)
  {
    hide FlushSpec;
    hide ShortFlush;
    FlushConserves(plan, s);
    var t, a := Step(plan, buffered, cap, s, op), Accepted(plan, buffered, cap, s, op);
    assert t.out + (t.pending + a) == (t.out + t.pending) + a;
  }

  /** Over any run of writes and flushes, the bytes at the base followed by the buffered ones are
      all the accepted bytes in order, iff no flush was short. */
  lemma {:induction false} RunConservesIff(plan: Plan, buffered: bool, cap: nat, s: State, ops: seq<Op>)
    requires Fits(buffered, cap, s)
    ensures var t, a := Run(plan, buffered, cap, s, ops), AllAccepted(plan, buffered, cap, s, ops);
            && Fits(buffered, cap, t)
            && |t.out| + |t.pending| <= |s.out| + |s.pending| + |a|
            && (SomeShortFlush(plan, buffered, cap, s, ops) ==> |t.out| + |t.pending| < |s.out| + |s.pending| + |a|)
            && (t.out + t.pending == s.out + s.pending + a <==> !SomeShortFlush(plan, buffered, cap, s, ops))
    decreases |ops|
  {
    hide Step;
    hide Accepted;
    hide Flushes;
    hide ShortFlush;
    if ops != [] {
      StepConserves(plan, buffered, cap, s, ops[0]);
      var s1 := Step(plan, buffered, cap, s, ops[0]);
      RunConservesIff(plan, buffered, cap, s1, ops[1..]);
      var a1, a2 := Accepted(plan, buffered, cap, s, ops[0]), AllAccepted(plan, buffered, cap, s1, ops[1..]);
      assert s.out + s.pending + (a1 + a2) == s.out + s.pending + a1 + a2;
    }
  }

  /** A base that takes all or fails makes no short flush, so nothing is ever lost. */
  lemma {:induction false} HonestBaseConserves(plan: Plan, buffered: bool, cap: nat, ops: seq<Op>)
    requires forall k :: plan(k).Wrote? ==> plan(k).n >= cap
    ensures var t := Run(plan, buffered, cap, State("", "", 0), ops);
            t.out + t.pending == AllAccepted(plan, buffered, cap, State("", "", 0), ops) && |t.pending| <= cap
  {
    NoShortFlush(plan, buffered, cap, State("", "", 0), ops);
    RunConservesIff(plan, buffered, cap, State("", "", 0), ops);
    assert "" + "" + AllAccepted(plan, buffered, cap, State("", "", 0), ops)
        == AllAccepted(plan, buffered, cap, State("", "", 0), ops);
  }

  lemma {:induction false} NoShortFlush(plan: Plan, buffered: bool, cap: nat, s: State, ops: seq<Op>)
    requires Fits(buffered, cap, s) && forall k :: plan(k).Wrote? ==> plan(k).n >= cap
    ensures !SomeShortFlush(plan, buffered, cap, s, ops)
    decreases |ops|
  {
    hide Step;
    if ops != [] {
      StepConserves(plan, buffered, cap, s, ops[0]);
      NoShortFlush(plan, buffered, cap, Step(plan, buffered, cap, s, ops[0]), ops[1..]);
    }
  }
}
