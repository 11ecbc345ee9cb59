/** FixedMemoryPool (framework/src/kfw_rtos.cpp): a bump pointer, a free list threaded through the
    released blocks, and a counting semaphore that get waits on before, and release signals before,
    their locked sections. */
module MemoryPool {
  import opened Arith

  const UINT32 := 0x1_0000_0000

  /** The first word of a block holds the free-list link while the block is free. */
  const LINK_SIZE := 4

  // ----- state -----

  /** What the object holds. Blocks are named by their offset in the buffer; mem gives the first word
      of each block handed out so far, whoever wrote it last. */
  datatype Pool = Pool(block: nat, size: nat, used: nat, head: int, mem: map<int, int>, tokens: nat)

  /** Who has which block: threads past the semaphore that have not taken their block yet, blocks held
      by clients, blocks whose release has been signalled but not pushed, and the free list in order.
      stale is the list head left over when the pool was created. */
  datatype Ledger = Ledger(admitted: nat, held: set<int>, releasing: set<int>, free: seq<int>, stale: int)

  datatype State = State(p: Pool, l: Ledger)

  /** create: the buffer size is computed in 32 bits, and the free list is not reset. */
  function Create(block: nat, count: nat, head: int): State {
    State(Pool(block, (block * count) % UINT32, 0, head, map[], count), Ledger(0, {}, {}, [], head))
  }

  // ----- steps -----

  datatype Step =
    | Admit                       // get: the wait on the semaphore succeeds
    | Take                        // get: the locked section
    | Signal(b: int)              // release: the semaphore is signalled
    | Push(b: int)                // release: the locked section
    | Scribble(b: int, v: int)    // a client writes to a block it holds

  predicate Enabled(s: State, step: Step) {
    match step
    case Admit => s.p.tokens > 0
    case Take => s.l.admitted > 0
    case Signal(b) => b in s.l.held
    case Push(b) => b in s.l.releasing
    case Scribble(b, v) => b in s.l.held
  }

  /** The locked section of get would follow a free list that is empty. */
  predicate PopsEmpty(s: State) { s.p.used == s.p.size && s.l.free == [] }

  /** The block a Take hands out. */
  function Taken(p: Pool): int { if p.used != p.size then p.used else p.head }

  function TakePool(p: Pool): Pool {
    if p.used != p.size then p.(used := p.used + p.block, mem := p.mem[p.used := 0])
    else p.(head := if p.head in p.mem then p.mem[p.head] else 0)
  }

  function PushPool(p: Pool, b: int): Pool { p.(mem := p.mem[b := p.head], head := b) }

  function Do(s: State, step: Step): State {
    match step
    case Admit => State(s.p.(tokens := if s.p.tokens > 0 then s.p.tokens - 1 else 0),
                        s.l.(admitted := s.l.admitted + 1))
    case Take =>
      State(TakePool(s.p),
            s.l.(admitted := if s.l.admitted > 0 then s.l.admitted - 1 else 0, held := s.l.held + {Taken(s.p)},
                 free := if s.p.used != s.p.size || s.l.free == [] then s.l.free else s.l.free[1..]))
    case Signal(b) =>
      State(s.p.(tokens := s.p.tokens + 1), s.l.(held := s.l.held - {b}, releasing := s.l.releasing + {b}))
    case Push(b) =>
      State(PushPool(s.p, b), s.l.(releasing := s.l.releasing - {b}, free := [b] + s.l.free))
    case Scribble(b, v) => s.(p := s.p.(mem := s.p.mem[b := v]))
  }

  // ----- invariant -----

  /** The links from head run through the given blocks, in order, and end at tail. */
  ghost predicate Chain(mem: map<int, int>, head: int, blocks: seq<int>, tail: int)
    decreases |blocks|
  {
    if blocks == [] then head == tail
    else head == blocks[0] && head in mem && Chain(mem, mem[head], blocks[1..], tail)
  }

  ghost predicate Distinct(blocks: seq<int>) {
    forall i, j | 0 <= i < j < |blocks| :: blocks[i] != blocks[j]
  }

  ghost predicate IsBlock(p: Pool, b: int)
    requires p.block > 0
  {
    0 <= b < p.used && b % p.block == 0
  }

  /** The blocks handed out so far are split among clients, pending releases and the free list. */
  ghost predicate Partition(p: Pool, l: Ledger)
    requires p.block > 0
  {
    && Distinct(l.free)
    && l.held !! l.releasing
    && (forall b | b in l.free :: b !in l.held && b !in l.releasing)
    && (forall b :: IsBlock(p, b) <==> b in l.held || b in l.releasing || b in l.free)
    && (forall b | IsBlock(p, b) :: b in p.mem)
  }

  /** Blocks never handed out. */
  ghost function Untouched(p: Pool): int
    requires p.block > 0
  {
    (p.size - p.used) / p.block
  }

  ghost predicate Inv(s: State) {
    && s.p.block >= LINK_SIZE && s.p.used <= s.p.size
    && s.p.used % s.p.block == 0 && s.p.size % s.p.block == 0
    && Partition(s.p, s.l)
    && Chain(s.p.mem, s.p.head, s.l.free, s.l.stale)
    && s.p.tokens + s.l.admitted == |s.l.free| + |s.l.releasing| + Untouched(s.p)
  }

  // ----- each step keeps the invariant -----

  lemma {:induction false} ChainFrame(mem: map<int, int>, head: int, blocks: seq<int>, tail: int, b: int, v: int)
    requires Chain(mem, head, blocks, tail) && b !in blocks
    ensures Chain(mem[b := v], head, blocks, tail)
    decreases |blocks|
  {
    if blocks != [] { ChainFrame(mem, mem[head], blocks[1..], tail, b, v); }
  }

  /** One more block of room: the next multiple of the block size is still inside the buffer. */
  lemma NextBlockFits(used: nat, size: nat, block: nat)
    requires block > 0 && used % block == 0 && size % block == 0 && used < size
    ensures used + block <= size && (used + block) % block == 0
    ensures (size - used) / block == (size - (used + block)) / block + 1
  {
    var q, r := used / block, size / block;
    var d := r - q;
    assert used == block * q && size == block * r && size - used == block * d by { Distribute(block, q, r); }
    ProductAtLeast(d, block);
    assert d >= 1;
    Distribute(block, q, q + 1);
    Distribute(block, d - 1, d);
    DivModIs(used + block, block, q + 1, 0);
    DivModIs(size - used, block, d, 0);
    DivModIs(size - (used + block), block, d - 1, 0);
  }

  lemma Distribute(b: int, x: int, y: int)
    ensures b * y - b * x == b * (y - x)
  {
  }

  /** Extending the used part by one block adds exactly one block. */
  lemma OneMoreBlock(p: Pool, q: Pool, b: int)
    requires p.block > 0 && p.used % p.block == 0 && q == TakePool(p) && p.used < p.size
    ensures IsBlock(q, b) <==> IsBlock(p, b) || b == p.used
  {
    if p.used < b < p.used + p.block {
      var k := p.used / p.block;
      assert p.used == p.block * k;
      DivModIs(b, p.block, k, b - p.used);
    }
  }

  lemma BumpKeeps(s: State)
    requires Inv(s) && s.l.admitted > 0 && s.p.used != s.p.size
    ensures Inv(Do(s, Take))
  {
    var t := Do(s, Take);
    NextBlockFits(s.p.used, s.p.size, s.p.block);
    assert !IsBlock(s.p, s.p.used);
    forall b
      ensures IsBlock(t.p, b) <==> IsBlock(s.p, b) || b == s.p.used
    {
      OneMoreBlock(s.p, t.p, b);
    }
    ChainFrame(s.p.mem, s.p.head, s.l.free, s.l.stale, s.p.used, 0);
  }

  lemma PopKeeps(s: State)
    requires Inv(s) && s.l.admitted > 0 && s.p.used == s.p.size && s.l.free != []
    ensures Inv(Do(s, Take))
  {
    var t := Do(s, Take);
    var b := s.l.free[0];
    assert forall x :: x in s.l.free <==> x == b || x in s.l.free[1..];
    assert b !in s.l.free[1..];
    assert forall x :: IsBlock(t.p, x) <==> IsBlock(s.p, x);
  }

  lemma SignalKeeps(s: State, b: int)
    requires Inv(s) && b in s.l.held
    ensures Inv(Do(s, Signal(b)))
  {
    var t := Do(s, Signal(b));
    assert b !in s.l.releasing;
    assert forall x :: IsBlock(t.p, x) <==> IsBlock(s.p, x);
  }

  lemma PushKeeps(s: State, b: int)
    requires Inv(s) && b in s.l.releasing
    ensures Inv(Do(s, Push(b)))
  {
    var t := Do(s, Push(b));
    ChainFrame(s.p.mem, s.p.head, s.l.free, s.l.stale, b, s.p.head);
    assert t.l.free[1..] == s.l.free;
    assert forall x :: x in t.l.free <==> x == b || x in s.l.free;
    assert forall x :: IsBlock(t.p, x) <==> IsBlock(s.p, x);
  }

  lemma ScribbleKeeps(s: State, b: int, v: int)
    requires Inv(s) && b in s.l.held
    ensures Inv(Do(s, Scribble(b, v)))
  {
    var t := Do(s, Scribble(b, v));
    ChainFrame(s.p.mem, s.p.head, s.l.free, s.l.stale, b, v);
    assert forall x :: IsBlock(t.p, x) <==> IsBlock(s.p, x);
  }

  lemma AdmitKeeps(s: State)
    requires Inv(s) && s.p.tokens > 0
    ensures Inv(Do(s, Admit))
  {
    var t := Do(s, Admit);
    assert forall x :: IsBlock(t.p, x) <==> IsBlock(s.p, x);
  }

  /** Every step of every interleaving keeps the invariant, as long as get does not pop an empty list. */
  lemma StepKeeps(s: State, step: Step)
    requires Inv(s) && Enabled(s, step) && (step.Take? ==> !PopsEmpty(s))
    ensures Inv(Do(s, step))
  {
    match step
    case Admit => AdmitKeeps(s);
    case Take => if s.p.used != s.p.size { BumpKeeps(s); } else { PopKeeps(s); }
    case Signal(b) => SignalKeeps(s, b);
    case Push(b) => PushKeeps(s, b);
    case Scribble(b, v) => ScribbleKeeps(s, b, v);
  }

  // ----- whole runs -----

  function Run(s: State, steps: seq<Step>): State
    decreases |steps|
  {
    if steps == [] then s else Run(Do(s, steps[0]), steps[1..])
  }

  /** Every step is possible when its turn comes, and no get pops an empty list. */
  ghost predicate Proper(s: State, steps: seq<Step>)
    decreases |steps|
  {
    steps == []
    || (Enabled(s, steps[0]) && (steps[0].Take? ==> !PopsEmpty(s)) && Proper(Do(s, steps[0]), steps[1..]))
  }

  lemma {:induction false} RunKeeps(s: State, steps: seq<Step>)
    requires Inv(s) && Proper(s, steps)
    ensures Inv(Run(s, steps))
    decreases |steps|
  {
    hide *;
    UnfoldRun(s, steps);
    if steps != [] {
      StepKeeps(s, steps[0]);
      RunKeeps(Do(s, steps[0]), steps[1..]);
    }
  }

  lemma UnfoldRun(s: State, steps: seq<Step>)
    requires Proper(s, steps)
    ensures Run(s, steps) == if steps == [] then s else Run(Do(s, steps[0]), steps[1..])
    ensures steps != [] ==>
      Enabled(s, steps[0]) && (steps[0].Take? ==> !PopsEmpty(s)) && Proper(Do(s, steps[0]), steps[1..])
  {
  }

  /** create establishes the invariant iff the buffer size does not overflow 32 bits. */
  lemma CreateInvIff(block: nat, count: nat, head: int)
    requires block >= LINK_SIZE
    ensures Inv(Create(block, count, head)) <==> block * count < UINT32
  {
    var s := Create(block, count, head);
    var size := (block * count) % UINT32;
    assert forall b :: !IsBlock(s.p, b);
    assert size == block * (size / block) + size % block;
    if block * count < UINT32 {
      DivModIs(block * count, UINT32, 0, block * count);
      DivModIs(block * count, block, count, 0);
    }
  }

  /** In any reachable state, the locked section of get pops an empty list iff every token and every
      admitted get is accounted for by a release that has signalled but not yet pushed its block. */
  lemma PopsEmptyIff(s: State)
    requires Inv(s)
    ensures PopsEmpty(s) <==> |s.l.releasing| == s.p.tokens + s.l.admitted
  {
    if s.p.used < s.p.size { NextBlockFits(s.p.used, s.p.size, s.p.block); NonNegative(s.p); }
  }

  lemma NonNegative(p: Pool)
    requires p.block > 0 && p.used + p.block <= p.size
    ensures (p.size - (p.used + p.block)) / p.block >= 0
  {
  }

  /** A block a get may receive: on the free list, or never handed out. */
  ghost predicate Available(s: State, b: int)
    requires s.p.block > 0
  {
    b in s.l.free || (s.p.used <= b < s.p.size && b % s.p.block == 0)
  }

  /** The pool is a set of available blocks: Take removes one of them that nobody holds, Push adds the
      released one, and no other step changes the set. */
  lemma PoolIsSet(s: State, step: Step, b: int)
    requires Inv(s) && Enabled(s, step) && (step.Take? ==> !PopsEmpty(s))
    ensures Inv(Do(s, step))
    ensures step.Take? ==> Available(s, Taken(s.p)) && Taken(s.p) !in s.l.held && Taken(s.p) !in s.l.releasing
    ensures step.Take? ==> Taken(s.p) == if s.p.used < s.p.size then s.p.used else s.l.free[0]
    ensures Available(Do(s, step), b) <==>
            match step
            case Take => Available(s, b) && b != Taken(s.p)
            case Push(c) => Available(s, b) || b == c
            case _ => Available(s, b)
  {
    StepKeeps(s, step);
    var t := Do(s, step);
    match step
    case Take =>
      if s.p.used != s.p.size {
        NextBlockFits(s.p.used, s.p.size, s.p.block);
        OneMoreBlock(s.p, t.p, b);
        assert IsBlock(s.p, b) || !(b in s.l.free);
      } else {
        assert s.l.free == [s.l.free[0]] + s.l.free[1..];
        assert s.l.free[0] !in s.l.free[1..];
      }
    case Push(c) => assert b in t.l.free <==> b == c || b in s.l.free;
    case _ =>
  }

  // ----- when releases do not overlap gets -----

  /** Every step is possible when its turn comes, and no get enters its locked section while a release
      is between its signal and its push. */
  ghost predicate Quiet(s: State, steps: seq<Step>)
    decreases |steps|
  {
    steps == []
    || (Enabled(s, steps[0]) && (steps[0].Take? ==> s.l.releasing == {}) && Quiet(Do(s, steps[0]), steps[1..]))
  }

  lemma {:induction false} QuietIsProper(s: State, steps: seq<Step>)
    requires Inv(s) && Quiet(s, steps)
    ensures Proper(s, steps)
    decreases |steps|
  {
    if steps != [] {
      PopsEmptyIff(s);
      StepKeeps(s, steps[0]);
      QuietIsProper(Do(s, steps[0]), steps[1..]);
    }
  }

  /** Over every such run the invariant holds at the end, for a pool that was set up anew even with a
      left-over list head. */
  lemma QuietRunSafe(block: nat, count: nat, head: int, steps: seq<Step>)
    requires block >= LINK_SIZE && block * count < UINT32 && Quiet(Create(block, count, head), steps)
    ensures Proper(Create(block, count, head), steps) && Inv(Run(Create(block, count, head), steps))
  {
    hide *;
    CreateInvIff(block, count, head);
    QuietIsProper(Create(block, count, head), steps);
    RunKeeps(Create(block, count, head), steps);
  }

  /** A get that runs between the signal and the push of the only release pops the empty list. */
  lemma RaceExample(head: int)
    ensures var s := Run(Create(4, 1, head), [Admit, Take, Signal(0), Admit]);
            Proper(Create(4, 1, head), [Admit, Take, Signal(0), Admit]) && Enabled(s, Take) && PopsEmpty(s)
  {
    var s0 := Create(4, 1, head);
    var s1, steps1 := Do(s0, Admit), [Take, Signal(0), Admit];
    var s2, steps2 := Do(s1, Take), [Signal(0), Admit];
    var s3, steps3 := Do(s2, Signal(0)), [Admit];
    assert [Admit, Take, Signal(0), Admit][1..] == steps1 && steps1[1..] == steps2 && steps2[1..] == steps3;
    assert steps3[1..] == [];
    assert Proper(s3, steps3) && Run(s3, steps3) == Do(s3, Admit);
    assert Proper(s2, steps2) && Run(s2, steps2) == Do(s3, Admit);
    assert Proper(s1, steps1) && Run(s1, steps1) == Do(s3, Admit);
  }

  // ----- the object -----

  datatype Ret = Ok | InvalidOperation | Timeout

  class FixedMemoryPool {
    var created: bool
    var allocatedSize: nat
    var bufferSize: nat
    var blockSize: nat
    var freeList: int
    var mem: map<int, int>
    var sem: nat

    constructor ()
      ensures !created && freeList == 0
    {
      created, allocatedSize, bufferSize, blockSize, freeList, mem, sem := false, 0, 0, 0, 0, map[], 0;
    }

    ghost function Now(): Pool
      reads this
    {
      Pool(blockSize, bufferSize, allocatedSize, freeList, mem, sem)
    }

    method Setup(block: nat, count: nat) returns (ret: Ret)
      modifies this
      ensures old(created) ==> ret == InvalidOperation && created && Now() == old(Now())
      ensures !old(created) ==> ret == Ok && created && Now() == Create(block, count, old(freeList)).p
      ensures !old(created) ==> sem == count && freeList == old(freeList) && allocatedSize == 0 && blockSize == block
    {
      if created { return InvalidOperation; }
      created, allocatedSize, bufferSize, blockSize, mem := true, 0, (block * count) % UINT32, block, map[];
      sem := count;
      return Ok;
    }

    method Dispose()
      modifies this
      ensures !created && freeList == old(freeList)
    {
      created, sem := false, 0;
    }

    /** get with a zero timeout, whatever other threads are in the middle of: a timeout iff the semaphore is
        at zero, and otherwise a block that was available and nobody holds, unless the pending releases
        account for every token and every admitted get; then it pops an empty list. */
    method Get(ghost l: Ledger) returns (ret: Ret, b: int, ghost l': Ledger)
      requires created ==> Inv(State(Now(), l))
      modifies this
      ensures !old(created) <==> ret == InvalidOperation
      ensures ret != Ok ==> Now() == old(Now()) && l' == l
      ensures ret == Timeout <==> old(created && sem == 0)
      ensures ret == Timeout && |l.releasing| == l.admitted ==> forall x :: !Available(State(old(Now()), l), x)
      ensures ret == Ok ==> State(Now(), l') == Do(Do(State(old(Now()), l), Admit), Take) && b == Taken(old(Now()))
      ensures ret == Ok && |l.releasing| == old(sem) + l.admitted ==> PopsEmpty(State(old(Now()), l))
      ensures ret == Ok && |l.releasing| != old(sem) + l.admitted ==>
        && Inv(State(Now(), l')) && b in l'.held && b !in l.held && b !in l.releasing
        && Available(State(old(Now()), l), b)
    {
      l' := l;
      if !created { return InvalidOperation, 0, l; }
      ghost var s := State(Now(), l);
      PopsEmptyIff(s);
      if sem == 0 {
        if PopsEmpty(s) { NoneLeft(s); }
        return Timeout, 0, l;
      }
      if !PopsEmpty(s) {
        StepKeeps(s, Admit);
        PopsEmptyIff(Do(s, Admit));
        StepKeeps(Do(s, Admit), Take);
        PoolIsSet(Do(s, Admit), Take, 0);
      }
      l' := Do(Do(s, Admit), Take).l;
      sem := sem - 1;
      if allocatedSize != bufferSize {
        b := allocatedSize;
        mem := mem[allocatedSize := 0];
        allocatedSize := allocatedSize + blockSize;
      } else {
        b := freeList;
        freeList := if freeList in mem then mem[freeList] else 0;
      }
      ret := Ok;
    }

    method Release(b: int, ghost l: Ledger) returns (ret: Ret, ghost l': Ledger)
      requires created ==> Inv(State(Now(), l)) && b in l.held
      modifies this
      ensures !old(created) ==> ret == InvalidOperation && Now() == old(Now()) && l' == l
      ensures old(created) ==>
        && ret == Ok && State(Now(), l') == Do(Do(State(old(Now()), l), Signal(b)), Push(b))
        && Inv(State(Now(), l')) && Available(State(Now(), l'), b)
    {
      if !created { return InvalidOperation, l; }
      ghost var s := State(Now(), l);
      StepKeeps(s, Signal(b));
      StepKeeps(Do(s, Signal(b)), Push(b));
      l' := Do(Do(s, Signal(b)), Push(b)).l;
      sem := sem + 1;
      mem := mem[b := freeList];
      freeList := b;
      ret := Ok;
    }
  }

  lemma NoneLeft(s: State)
    requires Inv(s) && PopsEmpty(s)
    ensures forall x :: !Available(s, x)
  {
  }
}
