/** String over reference-counted buffers (framework/inc/kfw_common_string.hpp,
    framework/src/kfw_common_string.cpp). */
module RefString {

  const NULL := -1

  /** A buffer: its reference count and its characters. */
  datatype Buffer = Buffer(count: nat, text: string)

  /** Buffers not freed yet, by address; the next unused address; and the pointer of every String
      object that is alive, by object. */
  datatype World = World(heap: map<int, Buffer>, next: int, live: map<int, int>)

  datatype Op =
    | Default(x: int)               // String()
    | Construct(x: int, text: string)
    | Copy(x: int, from: int)       // String(const String &)
    | Assign(x: int, from: int)     // operator = (const String &)
    | AssignText(x: int, text: string)
    | Destroy(x: int)

  predicate Enabled(w: World, op: Op) {
    match op
    case Default(x) => x !in w.live
    case Construct(x, text) => x !in w.live
    case Copy(x, from) => x !in w.live && from in w.live
    case Assign(x, from) => x in w.live && from in w.live
    case AssignText(x, text) => x in w.live
    case Destroy(x) => x in w.live
  }

  /** A heap, or the use of a buffer that has been freed. */
  datatype Result<T> = Fine(value: T) | UseAfterFree

  function AddRef(heap: map<int, Buffer>, b: int): Result<map<int, Buffer>> {
    if b == NULL then Fine(heap)
    else if b !in heap then UseAfterFree
    else Fine(heap[b := heap[b].(count := heap[b].count + 1)])
  }

  function Release(heap: map<int, Buffer>, b: int): Result<map<int, Buffer>> {
    if b == NULL then Fine(heap)
    else if b !in heap || heap[b].count == 0 then UseAfterFree
    else if heap[b].count == 1 then Fine(heap - {b})
    else Fine(heap[b := heap[b].(count := heap[b].count - 1)])
  }

  function Pointer(w: World, x: int): int { if x in w.live then w.live[x] else NULL }

  function Do(w: World, op: Op): Result<World> {
    match op
    case Default(x) => Fine(w.(live := w.live[x := NULL]))
    case Construct(x, text) =>
      Fine(World(w.heap[w.next := Buffer(1, text)], w.next + 1, w.live[x := w.next]))
    case Copy(x, from) =>
      var h := AddRef(w.heap, Pointer(w, from));
      if h.UseAfterFree? then UseAfterFree else Fine(w.(heap := h.value, live := w.live[x := Pointer(w, from)]))
    case Assign(x, from) =>
      var h := Release(w.heap, Pointer(w, x));
      if h.UseAfterFree? then UseAfterFree
      else
        var h' := AddRef(h.value, Pointer(w, from));
        if h'.UseAfterFree? then UseAfterFree else Fine(w.(heap := h'.value, live := w.live[x := Pointer(w, from)]))
    case AssignText(x, text) =>
      var h := Release(w.heap, Pointer(w, x));
      if h.UseAfterFree? then UseAfterFree
      else Fine(World(h.value[w.next := Buffer(1, text)], w.next + 1, w.live[x := w.next]))
    case Destroy(x) =>
      var h := Release(w.heap, Pointer(w, x));
      if h.UseAfterFree? then UseAfterFree else Fine(w.(heap := h.value, live := w.live - {x}))
  }

  // ----- invariant -----

  /** The live String objects that point at a buffer. */
  function Owners(live: map<int, int>, b: int): set<int> { set x | x in live && live[x] == b }

  /** Counts are exact, and a buffer is there iff somebody points at it. */
  ghost predicate Inv(w: World) {
    && w.next >= 0
    && (forall b | b in w.heap :: 0 <= b < w.next && w.heap[b].count == |Owners(w.live, b)| >= 1)
    && (forall x | x in w.live :: w.live[x] == NULL || w.live[x] in w.heap)
  }

  ghost function Content(w: World, x: int): string
    requires Inv(w) && x in w.live
  {
    if w.live[x] == NULL then "" else w.heap[w.live[x]].text
  }

  /** The content an operation gives to its object. */
  ghost function Given(w: World, op: Op): string
    requires Inv(w) && Enabled(w, op)
  {
    match op
    case Construct(_, text) => text
    case AssignText(_, text) => text
    case Copy(_, from) => Content(w, from)
    case Assign(_, from) => Content(w, from)
    case _ => ""
  }

  lemma OwnersSet(live: map<int, int>, x: int, p: int, b: int)
    ensures Owners(live[x := p], b) == if b == p then Owners(live, b) + {x} else Owners(live, b) - {x}
  {
  }

  lemma OwnersRemove(live: map<int, int>, x: int, b: int)
    ensures Owners(live - {x}, b) == Owners(live, b) - {x}
  {
  }

  lemma Singleton(s: set<int>, x: int)
    requires x in s
    ensures |s| == 1 <==> s == {x}
  {
    if |s| == 1 {
      var rest := s - {x};
      assert |rest| == 0;
      assert s == {x} + rest;
    }
  }

  /** Assigning a String to itself uses its buffer after freeing it iff it is the only owner; no other
      operation ever touches a freed buffer. */
  lemma FaultIff(w: World, op: Op)
    requires Inv(w) && Enabled(w, op)
    ensures Do(w, op).UseAfterFree?
            <==> op.Assign? && op.x == op.from && w.live[op.x] != NULL && Owners(w.live, w.live[op.x]) == {op.x}
  {
    if op.Assign? && w.live[op.x] != NULL {
      var b := w.live[op.x];
      assert op.x in Owners(w.live, b);
      Singleton(Owners(w.live, b), op.x);
      assert w.live[op.from] == b <==> op.from in Owners(w.live, b);
    }
  }

  lemma ReleaseOf(w: World, x: int)
    requires Inv(w) && x in w.live && w.live[x] != NULL
    ensures var b := w.live[x]; var r := Release(w.heap, b);
            && b in w.heap && r.Fine?
            && (b in r.value <==> Owners(w.live, b) != {x})
            && (b in r.value ==> r.value[b].count == |Owners(w.live, b) - {x}| && r.value[b].text == w.heap[b].text)
            && (forall c | c != b :: c in r.value <==> c in w.heap)
            && (forall c | c != b && c in w.heap :: r.value[c] == w.heap[c])
  {
    var b := w.live[x];
    assert x in Owners(w.live, b);
    Singleton(Owners(w.live, b), x);
  }

  ghost function Dropped(w: World, x: int): World
    requires Inv(w) && x in w.live
  {
    if w.live[x] != NULL then ReleaseOf(w, x); w.(heap := Release(w.heap, w.live[x]).value, live := w.live[x := NULL])
    else w.(live := w.live[x := NULL])
  }

  lemma DroppedCounts(w: World, x: int, b: int)
    requires Inv(w) && x in w.live && b in Dropped(w, x).heap
    ensures 0 <= b < w.next && b in w.heap && Dropped(w, x).heap[b].text == w.heap[b].text
    ensures Dropped(w, x).heap[b].count == |Owners(w.live[x := NULL], b)| >= 1
  {
    OwnersSet(w.live, x, NULL, b);
    if w.live[x] != NULL { ReleaseOf(w, x); }
    if b == w.live[x] {
      assert x in Owners(w.live, b);
      assert Owners(w.live, b) == {x} + (Owners(w.live, b) - {x});
    } else {
      assert x !in Owners(w.live, b);
    }
  }

  lemma DroppedOthers(w: World, x: int, z: int)
    requires Inv(w) && x in w.live && z in w.live && z != x && w.live[z] != NULL
    ensures w.live[z] in Dropped(w, x).heap
  {
    assert z in Owners(w.live, w.live[z]);
    if w.live[x] != NULL { ReleaseOf(w, x); }
  }

  /** Dropping the pointer of x keeps the counts exact. */
  lemma DropKeeps(w: World, x: int)
    requires Inv(w) && x in w.live
    ensures Release(w.heap, w.live[x]).Fine?
    ensures var v := Dropped(w, x);
            && v == w.(heap := Release(w.heap, w.live[x]).value, live := w.live[x := NULL])
            && Inv(v) && forall z | z in w.live && z != x :: Content(v, z) == Content(w, z)
  {
    if w.live[x] != NULL { ReleaseOf(w, x); }
    var v := Dropped(w, x);
    forall b | b in v.heap
      ensures 0 <= b < v.next && v.heap[b].count == |Owners(v.live, b)| >= 1 && b in w.heap && v.heap[b].text == w.heap[b].text
    {
      DroppedCounts(w, x, b);
    }
    forall z | z in w.live && z != x && w.live[z] != NULL
      ensures w.live[z] in v.heap
    {
      DroppedOthers(w, x, z);
    }
  }

  /** Pointing x at a buffer that exists keeps the counts exact. */
  lemma ShareKeeps(w: World, x: int, b: int)
    requires Inv(w) && (x in w.live ==> w.live[x] == NULL) && (b == NULL || b in w.heap)
    ensures AddRef(w.heap, b).Fine?
    ensures var v := w.(heap := AddRef(w.heap, b).value, live := w.live[x := b]);
            && Inv(v) && Content(v, x) == (if b == NULL then "" else w.heap[b].text)
            && forall z | z in w.live && z != x :: Content(v, z) == Content(w, z)
  {
    var v := w.(heap := AddRef(w.heap, b).value, live := w.live[x := b]);
    forall c | c in w.heap
      ensures c in v.heap && v.heap[c].count == |Owners(v.live, c)| >= 1
    {
      SharedCounts(w, x, b, c);
    }
  }

  lemma SharedCounts(w: World, x: int, b: int, c: int)
    requires Inv(w) && (x in w.live ==> w.live[x] == NULL) && (b == NULL || b in w.heap) && c in w.heap
    ensures w.heap[c].count + (if c == b then 1 else 0) == |Owners(w.live[x := b], c)|
  {
    OwnersSet(w.live, x, b, c);
    assert x !in Owners(w.live, c);
  }

  /** Pointing x at a new buffer keeps the counts exact. */
  lemma FreshKeeps(w: World, x: int, text: string)
    requires Inv(w) && (x in w.live ==> w.live[x] == NULL)
    ensures var v := World(w.heap[w.next := Buffer(1, text)], w.next + 1, w.live[x := w.next]);
            && Inv(v) && Content(v, x) == text
            && forall z | z in w.live && z != x :: Content(v, z) == Content(w, z)
  {
    var v := World(w.heap[w.next := Buffer(1, text)], w.next + 1, w.live[x := w.next]);
    forall c | c in v.heap
      ensures v.heap[c].count == |Owners(v.live, c)| >= 1
    {
      OwnersSet(w.live, x, w.next, c);
      if c == w.next {
        assert forall y | y in w.live :: w.live[y] != w.next;
        assert Owners(w.live, c) == {};
      } else {
        assert x !in Owners(w.live, c);
      }
    }
  }

  lemma ForgetKeeps(w: World, x: int)
    requires Inv(w) && x in w.live && w.live[x] == NULL
    ensures var v := w.(live := w.live - {x});
            && Inv(v) && forall z | z in w.live && z != x :: z in v.live && Content(v, z) == Content(w, z)
  {
    forall b | b in w.heap
      ensures Owners(w.live - {x}, b) == Owners(w.live, b)
    {
      OwnersRemove(w.live, x, b);
      assert x !in Owners(w.live, b);
    }
  }

  /** Every operation that does not fault keeps the counts exact, gives its object the right content,
      and changes no other String's content. */
  lemma StepKeeps(w: World, op: Op)
    requires Inv(w) && Enabled(w, op) && Do(w, op).Fine?
    ensures var v := Do(w, op).value;
            && Inv(v)
            && v.live.Keys == (if op.Destroy? then w.live.Keys - {op.x} else w.live.Keys + {op.x})
            && (!op.Destroy? ==> Content(v, op.x) == Given(w, op))
            && forall z | z in w.live && z != op.x :: Content(v, z) == Content(w, z)
  {
    hide Owners;
    match op
    case Default(x) => ShareKeeps(w, x, NULL);
    case Construct(x, text) => FreshKeeps(w, x, text);
    case Copy(x, from) => ShareKeeps(w, x, w.live[from]);
    case Assign(x, from) => AssignKeeps(w, x, from);
    case AssignText(x, text) =>
      DropKeeps(w, x);
      var u := Dropped(w, x);
      FreshKeeps(u, x, text);
      assert u.live[x := w.next] == w.live[x := w.next];
    case Destroy(x) =>
      DropKeeps(w, x);
      var u := Dropped(w, x);
      ForgetKeeps(u, x);
      assert u.live - {x} == w.live - {x};
  }

  lemma AssignKeeps(w: World, x: int, from: int)
    requires Inv(w) && x in w.live && from in w.live && Do(w, Assign(x, from)).Fine?
    ensures var v := Do(w, Assign(x, from)).value;
            && Inv(v) && v.live.Keys == w.live.Keys && Content(v, x) == Content(w, from)
            && forall z | z in w.live && z != x :: Content(v, z) == Content(w, z)
  {
    DropKeeps(w, x);
    var u := Dropped(w, x);
    ShareKeeps(u, x, w.live[from]);
    assert u.live[x := w.live[from]] == w.live[x := w.live[from]];
    if w.live[x] != NULL { ReleaseOf(w, x); }
  }

  // ----- whole runs -----

  const EMPTY := World(map[], 0, map[])

  /** Every operation is possible when its turn comes, and no sole owner is assigned to itself. */
  ghost predicate Legal(w: World, ops: seq<Op>)
    decreases |ops|
  {
    ops == []
    || (Enabled(w, ops[0]) && Do(w, ops[0]).Fine? && Legal(Do(w, ops[0]).value, ops[1..]))
  }

  function Run(w: World, ops: seq<Op>): World
    decreases |ops|
  {
    if ops == [] then w
    else match Do(w, ops[0])
      case Fine(v) => Run(v, ops[1..])
      case UseAfterFree => w
  }

  lemma {:induction false} RunKeeps(w: World, ops: seq<Op>)
    requires Inv(w) && Legal(w, ops)
    ensures Inv(Run(w, ops))
    decreases |ops|
  {
    hide Inv;
    hide Do;
    if ops != [] {
      StepKeeps(w, ops[0]);
      RunKeeps(Do(w, ops[0]).value, ops[1..]);
    }
  }

  /** A run that faults: construct a String and assign it to itself. */
  lemma SelfAssignFaults(x: int, text: string)
    ensures Legal(EMPTY, [Construct(x, text)])
    ensures var w := Run(EMPTY, [Construct(x, text)]); Enabled(w, Assign(x, x)) && Do(w, Assign(x, x)).UseAfterFree?
  {
    var ops := [Construct(x, text)];
    assert ops[1..] == [];
    var w := Do(EMPTY, ops[0]).value;
    assert Run(EMPTY, ops) == w;
  }

  /** After any run from nothing, every count is the number of live owners, and a buffer is still there
      iff it has an owner: it is freed exactly when the last one goes. */
  lemma RunExact(ops: seq<Op>, b: int)
    requires Legal(EMPTY, ops)
    ensures var w := Run(EMPTY, ops);
            && Inv(w)
            && (b in w.heap <==> b != NULL && Owners(w.live, b) != {})
            && (b in w.heap ==> w.heap[b].count == |Owners(w.live, b)|)
  {
    hide Run;
    hide Legal;
    RunKeeps(EMPTY, ops);
    HeapIsOwned(Run(EMPTY, ops), b);
  }

  lemma HeapIsOwned(w: World, b: int)
    requires Inv(w)
    ensures b in w.heap <==> b != NULL && Owners(w.live, b) != {}
  {
    if b !in w.heap && b != NULL {
      assert forall x | x in w.live :: w.live[x] != b;
    }
  }

  // ----- the code -----

  class Strings {
    var heap: map<int, Buffer>
    var next: int
    var live: map<int, int>

    constructor ()
      ensures Now() == EMPTY
    {
      heap, next, live := map[], 0, map[];
    }

    ghost function Now(): World
      reads this
    {
      World(heap, next, live)
    }

    /** dse_string_create */
    method Create(text: string) returns (b: int)
      modifies this
      ensures b == old(next) && next == old(next) + 1 && live == old(live) && heap == old(heap)[b := Buffer(1, text)]
    {
      b := next;
      next := next + 1;
      heap := heap[b := Buffer(1, text)];
    }

    /** dse_string_addref */
    method AddRefTo(b: int)
      requires b in heap && b != NULL
      modifies this
      ensures next == old(next) && live == old(live) && Fine(heap) == AddRef(old(heap), b)
    {
      heap := heap[b := heap[b].(count := heap[b].count + 1)];
    }

    /** dse_string_release */
    method ReleaseFrom(b: int)
      requires b in heap && heap[b].count > 0 && b != NULL
      modifies this
      ensures next == old(next) && live == old(live) && Fine(heap) == Release(old(heap), b)
    {
      var newCount := heap[b].count - 1;
      if newCount == 0 { heap := heap - {b}; } else { heap := heap[b := heap[b].(count := newCount)]; }
    }

    method ConstructString(x: int, text: string)
      requires Inv(Now()) && Enabled(Now(), Construct(x, text))
      modifies this
      ensures Fine(Now()) == Do(old(Now()), Construct(x, text)) && Inv(Now())
    {
      StepKeeps(Now(), Construct(x, text));
      var b := Create(text);
      live := live[x := b];
    }

    method CopyString(x: int, from: int)
      requires Inv(Now()) && Enabled(Now(), Copy(x, from))
      modifies this
      ensures Fine(Now()) == Do(old(Now()), Copy(x, from)) && Inv(Now())
    {
      FaultIff(Now(), Copy(x, from));
      StepKeeps(Now(), Copy(x, from));
      var s := live[from];
      if s != NULL { AddRefTo(s); }
      live := live[x := s];
    }

    /** Release, copy, addref; fault says that addref would touch a buffer that is no longer there. */
    method AssignString(x: int, from: int) returns (fault: bool)
      requires Inv(Now()) && Enabled(Now(), Assign(x, from))
      modifies this
      ensures fault <==> old(x == from && live[x] != NULL && Owners(live, live[x]) == {x})
      ensures fault == Do(old(Now()), Assign(x, from)).UseAfterFree?
      ensures !fault ==> Fine(Now()) == Do(old(Now()), Assign(x, from)) && Inv(Now())
    {
      FaultIff(Now(), Assign(x, from));
      if Do(Now(), Assign(x, from)).Fine? { StepKeeps(Now(), Assign(x, from)); }
      if live[x] != NULL { ReleaseFrom(live[x]); }
      var s := live[from];
      live := live[x := s];
      if s != NULL {
        if s !in heap { return true; }
        AddRefTo(s);
      }
      fault := false;
    }

    method AssignTextTo(x: int, text: string)
      requires Inv(Now()) && Enabled(Now(), AssignText(x, text))
      modifies this
      ensures Fine(Now()) == Do(old(Now()), AssignText(x, text)) && Inv(Now())
    {
      FaultIff(Now(), AssignText(x, text));
      StepKeeps(Now(), AssignText(x, text));
      if live[x] != NULL { ReleaseFrom(live[x]); }
      var b := Create(text);
      live := live[x := b];
    }

    method DestroyString(x: int)
      requires Inv(Now()) && Enabled(Now(), Destroy(x))
      modifies this
      ensures Fine(Now()) == Do(old(Now()), Destroy(x)) && Inv(Now())
    {
      FaultIff(Now(), Destroy(x));
      StepKeeps(Now(), Destroy(x));
      if live[x] != NULL { ReleaseFrom(live[x]); }
      live := live - {x};
    }
  }
}
