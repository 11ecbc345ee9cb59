/** The two halves of the Ethernet driver joined by a wire: what goes into low_level_output comes out of
    low_level_input. */
module EthLoop {
  import opened Arith
  import opened EthRing
  import opened EthTx
  import opened EthRx

  /** The frames a receiver sees in a stream of segments, going by their first- and last-segment bits. */
  function Frames(segs: seq<Segment>, begun: seq<Byte>): seq<seq<Byte>> {
    if segs == [] then [] else
      var now := if segs[0].first then segs[0].bytes else begun + segs[0].bytes;
      if segs[0].last then [now] + Frames(segs[1..], []) else Frames(segs[1..], now)
  }

  lemma {:induction false} FramesFrom(size: nat, f: seq<Byte>, k: nat, j: nat, rest: seq<Segment>)
    requires Takes(size, f, k) && j <= k
    ensures Pos(size, j) <= |f|
    ensures Frames(Cut(size, f, k, 0, k + 1)[j..] + rest, f[..Pos(size, j)]) == [f] + Frames(rest, [])
    decreases k - j
  {
    hide Cut;
    hide Takes;
    hide Pos;
    var segs := Cut(size, f, k, 0, k + 1)[j..] + rest;
    CutAt(size, f, k, j);
    assert segs[0] == Cut(size, f, k, 0, k + 1)[j];
    if j < k {
      FramesFrom(size, f, k, j + 1, rest);
      assert segs[1..] == Cut(size, f, k, 0, k + 1)[j + 1..] + rest;
    } else {
      assert segs[1..] == rest;
    }
  }

  lemma CutAt(size: nat, f: seq<Byte>, k: nat, j: nat)
    requires Takes(size, f, k) && j <= k
    ensures Pos(size, j) <= |f|
    ensures var s := Cut(size, f, k, 0, k + 1)[j];
            && s.first == (j == 0) && s.last == (j == k)
            && (s.first ==> Pos(size, j) == 0)
            && (j < k ==> Pos(size, j + 1) <= |f| && f[..Pos(size, j)] + s.bytes == f[..Pos(size, j + 1)])
            && (j == k ==> f[..Pos(size, j)] + s.bytes == f)
            && (j == 0 ==> f[..Pos(size, j)] + s.bytes == s.bytes)
  {
    PartStarts(size, f, k, j);
    if j < k { PosMonotone(size, j + 1, k); }
  }

  /** The segments of a frame are received as that frame. */
  lemma FramesCut(size: nat, f: seq<Byte>, k: nat, rest: seq<Segment>)
    requires Takes(size, f, k)
    ensures Frames(Cut(size, f, k, 0, k + 1) + rest, []) == [f] + Frames(rest, [])
  {
    FramesFrom(size, f, k, 0, rest);
    assert Cut(size, f, k, 0, k + 1)[0..] == Cut(size, f, k, 0, k + 1);
  }

  /** A stream that begins with segs is received as these frames and then the rest. */
  ghost predicate Carries(segs: seq<Segment>, frames: seq<seq<Byte>>) {
    forall rest :: Frames(segs + rest, []) == frames + Frames(rest, [])
  }

  lemma CarriesNone()
    ensures Carries([], [])
  {
    forall rest: seq<Segment>
      ensures Frames([] + rest, []) == [] + Frames(rest, [])
    {
      assert [] + rest == rest;
    }
  }

  lemma CarriesMore(segs: seq<Segment>, frames: seq<seq<Byte>>, size: nat, f: seq<Byte>, k: nat)
    requires Carries(segs, frames) && Takes(size, f, k)
    ensures Carries(segs + Cut(size, f, k, 0, k + 1), frames + [f])
  {
    hide Cut;
    hide Frames;
    var cut := Cut(size, f, k, 0, k + 1);
    forall rest
      ensures Frames(segs + cut + rest, []) == frames + [f] + Frames(rest, [])
    {
      assert segs + cut + rest == segs + (cut + rest);
      FramesCut(size, f, k, rest);
    }
  }

  lemma CarriesAll(segs: seq<Segment>, frames: seq<seq<Byte>>)
    requires Carries(segs, frames)
    ensures Frames(segs, []) == frames
  {
    var none: seq<Segment> := [];
    assert Frames(segs + none, []) == frames + Frames(none, []);
    assert segs + none == segs;
  }

  /** Send the chains; the indices of the non-empty ones accepted
      come back, and the wire carries just these, in order. */
  method SendAll(tx: TxRing, chains: seq<seq<seq<Byte>>>) returns (accepted: seq<nat>)
    requires tx.Valid() && tx.sent == []
    requires forall i | 0 <= i < |chains| :: |Concat(chains[i])| <= Pos(tx.size, tx.n)
    modifies tx
    ensures Ascending(accepted, |chains|)
    ensures Eager(tx.n, tx.sched) ==> forall c | 0 <= c < |chains| && Concat(chains[c]) != [] :: c in accepted
    ensures Frames(tx.wire, []) == seq(|accepted|, i requires 0 <= i < |accepted| => Concat(chains[accepted[i]]))
    ensures forall i | 0 <= i < |accepted| :: Concat(chains[accepted[i]]) != []
  {
    hide *;
    accepted := [];
    ghost var frames: seq<seq<Byte>> := [];
    CarriesNone();
    AscendingNone(0);
    for c := 0 to |chains|
      invariant tx.Valid() && Carries(tx.sent, frames) && |frames| == |accepted| && Ascending(accepted, c)
      invariant forall i | 0 <= i < |accepted| :: accepted[i] < c
      invariant forall i | 0 <= i < |accepted| :: frames[i] == Concat(chains[accepted[i]]) != []
      invariant Eager(tx.n, tx.sched) ==> forall j | 0 <= j < c && Concat(chains[j]) != [] :: j in accepted
    {
      ghost var before := tx.sent;
      var err, k := tx.Output(chains[c]);
      if err.Ok? && Concat(chains[c]) != [] {
        CarriesMore(before, frames, tx.size, Concat(chains[c]), k);
        AscendingMore(accepted, c);
        accepted, frames := accepted + [c], frames + [Concat(chains[c])];
      } else {
        AscendingWider(accepted, c);
      }
    }
    tx.Drain();
    CarriesAll(tx.wire, frames);
  }

  /** Strictly increasing indices below a bound. */
  ghost predicate Ascending(s: seq<nat>, bound: nat) {
    && (forall i | 0 <= i < |s| :: s[i] < bound)
    && (forall i, j | 0 <= i < j < |s| :: s[i] < s[j])
  }

  lemma AscendingNone(bound: nat)
    ensures Ascending([], bound)
  {
  }

  lemma AscendingMore(s: seq<nat>, c: nat)
    requires Ascending(s, c)
    ensures Ascending(s + [c], c + 1) && forall i | 0 <= i < |s| :: s[i] < c
  {
  }

  lemma AscendingWider(s: seq<nat>, c: nat)
    requires Ascending(s, c)
    ensures Ascending(s, c + 1) && forall i | 0 <= i < |s| :: s[i] < c
  {
  }

  lemma AscendingIs(s: seq<nat>, bound: nat)
    requires Ascending(s, bound)
    ensures forall i | 0 <= i < |s| :: s[i] < bound
  {
  }

  /** An allocation has the length asked for, if there is one. */
  ghost predicate Fair(alloc: nat -> Option<seq<nat>>) { forall len :: alloc(len).Some? ==> Sum(alloc(len).value) == len }

  /** A pool that never runs out. */
  ghost predicate Ample(alloc: nat -> Option<seq<nat>>) { forall len :: alloc(len).Some? }

  /** Call low_level_input count times, with what the pool gives each time; from gives the index of the
      frame each delivered chain came in. */
  method ReceiveAll(rx: RxRing, count: nat, allocs: nat -> nat -> Option<seq<nat>>)
    returns (got: seq<seq<seq<Byte>>>, ghost from: seq<nat>)
    requires rx.Idle() && rx.done == [] && forall c :: Fair(allocs(c))
    modifies rx
    ensures |got| == |from| && Ascending(from, |rx.script|)
    ensures forall i | 0 <= i < |got| :: Carried(got[i], rx.script[from[i]])
    ensures Eager(rx.n, rx.sched) && (forall c :: Ample(allocs(c))) && count >= |rx.script| ==>
      forall j | 0 <= j < |rx.script| && |rx.script[j]| > 4 :: j in from
  {
    hide *;
    got, from := [], [];
    AscendingNone(0);
    for c := 0 to count
      invariant rx.Idle() && |rx.done| <= |rx.script| && rx.done == rx.script[..|rx.done|]
      invariant |got| == |from| && Ascending(from, |rx.done|) && forall i | 0 <= i < |from| :: from[i] < |rx.done|
      invariant forall i | 0 <= i < |got| :: Carried(got[i], rx.script[from[i]])
      invariant Eager(rx.n, rx.sched) && (forall i :: Ample(allocs(i))) ==>
        && (c <= |rx.done| || |rx.done| == |rx.script|)
        && forall j | 0 <= j < |rx.done| && |rx.script[j]| > 4 :: j in from
    {
      ghost var k := |rx.done|;
      FairIs(allocs(c));
      var p := rx.Input(allocs(c));
      if p.Some? {
        DeliversWhat(p.value, rx.script[k], allocs(c));
        AscendingMore(from, k);
        got, from := got + [p.value], from + [k];
      } else if |rx.done| > k {
        AmpleAt(allocs(c), |rx.script[k]| - 4);
        AscendingWider(from, k);
      }
    }
    WiderTo(from, |rx.done|, |rx.script|);
  }

  lemma WiderTo(s: seq<nat>, a: nat, b: nat)
    requires Ascending(s, a) && a <= b
    ensures Ascending(s, b)
  {
  }

  lemma FairIs(alloc: nat -> Option<seq<nat>>)
    requires Fair(alloc)
    ensures forall len :: alloc(len).Some? ==> Sum(alloc(len).value) == len
  {
  }

  lemma AmpleAt(alloc: nat -> Option<seq<nat>>, len: int)
    ensures Ample(alloc) && len >= 0 ==> alloc(len).Some?
  {
  }

  /** The chain holds the frame without its CRC. */
  ghost predicate Carried(chain: seq<seq<Byte>>, f: seq<Byte>) { 4 <= |f| && Concat(chain) == f[..|f| - 4] }

  lemma DeliversWhat(chain: seq<seq<Byte>>, f: seq<Byte>, alloc: nat -> Option<seq<nat>>)
    requires Delivers(chain, f, alloc)
    ensures Carried(chain, f)
  {
  }

  /** Whatever chains are sent, however the DMA engines behave at each moment, and whatever the pbuf pool gives
      or refuses each time: the chains delivered are some of the chains accepted, in order and byte for byte.
      With DMA engines that always do all they can every non-empty chain is accepted, and if the pool never
      runs out every accepted chain is delivered. */
  method Loopback(n: nat, size: nat, chains: seq<seq<seq<Byte>>>, crc: seq<Byte> -> seq<Byte>, calls: nat,
                  allocs: nat -> nat -> Option<seq<nat>>, txSched: nat -> nat, rxSched: nat -> nat)
    returns (accepted: seq<nat>, got: seq<seq<seq<Byte>>>, ghost from: seq<nat>)
    requires n > 0 && 0 < size < 0x2000
    requires forall i | 0 <= i < |chains| :: |Concat(chains[i])| + 4 <= Pos(size, n)
    requires (forall f :: |crc(f)| == 4) && forall c :: Fair(allocs(c))
    ensures Ascending(accepted, |chains|) && |got| == |from| && Ascending(from, |accepted|)
    ensures forall i | 0 <= i < |got| :: Concat(got[i]) == Concat(chains[accepted[from[i]]])
    ensures Eager(n, txSched) ==> forall c | 0 <= c < |chains| && Concat(chains[c]) != [] :: c in accepted
    ensures Eager(n, rxSched) && (forall c :: Ample(allocs(c))) && calls >= |accepted| ==>
      forall j | 0 <= j < |accepted| :: j in from
  {
    hide *;
    var tx := new TxRing(n, size, txSched);
    accepted := SendAll(tx, chains);
    var frames := Frames(tx.wire, []);
    var script := seq(|frames|, i requires 0 <= i < |frames| => frames[i] + crc(frames[i]));
    AscendingIs(accepted, |chains|);
    MakeAllOk(n, size, script);
    var rx := new RxRing(n, size, script, rxSched);
    got, from := ReceiveAll(rx, calls, allocs);
    AscendingIs(from, |script|);
    forall i | 0 <= i < |got|
      ensures Concat(got[i]) == Concat(chains[accepted[from[i]]])
    {
      CarriedIs(got[i], frames[from[i]], crc(frames[from[i]]));
    }
  }

  lemma CarriedIs(chain: seq<seq<Byte>>, f: seq<Byte>, crc: seq<Byte>)
    requires Carried(chain, f + crc) && |crc| == 4
    ensures Concat(chain) == f
  {
    assert (f + crc)[..|f + crc| - 4] == f;
  }

  lemma MakeAllOk(n: nat, size: nat, frames: seq<seq<Byte>>)
    requires forall i | 0 <= i < |frames| :: 4 <= |frames[i]| <= Pos(size, n)
    ensures AllOk(n, size, frames)
  {
  }
}
