/** HAL_ETH_GetReceivedFrame_IT (Drivers/STM32F7xx_HAL_Driver/Src/stm32f7xx_hal_eth.c) and low_level_input
    (src/ethernetif.c), with a DMA engine that stores incoming frames whenever it has a descriptor. */
module EthRx {
  import opened Arith
  import opened EthRing

  datatype Option<T> = None | Some(value: T)

  // ----- the frames on the wire and their segments -----

  /** The index of the last segment of a frame. */
  function LastOf(size: nat, length: nat): (k: nat)
    requires size > 0
    ensures length > 0 ==> Pos(size, k) < length <= Pos(size, k) + size
    decreases length
  {
    if length <= size then 0 else 1 + LastOf(size, length - size)
  }

  /** A frame with its four CRC bytes that the ring can hold. */
  predicate FrameOk(n: nat, size: nat, f: seq<Byte>) { 4 <= |f| <= Pos(size, n) }

  lemma LastFits(n: nat, size: nat, f: seq<Byte>)
    requires size > 0 && FrameOk(n, size, f)
    ensures LastOf(size, |f|) < n && Takes(size, f, LastOf(size, |f|))
  {
    if n <= LastOf(size, |f|) { PosMonotone(size, n, LastOf(size, |f|)); }
  }

  /** The first k segments of a frame as the DMA stores it; the last one reports the frame length. */
  function Start(size: nat, f: seq<Byte>, k: nat): (c: seq<Segment>)
    requires size > 0 && f != [] && k <= LastOf(size, |f|) + 1
    ensures |c| == k
  {
    Cut(size, f, LastOf(size, |f|), |f|, k)
  }

  function Segs(size: nat, f: seq<Byte>): (c: seq<Segment>)
    requires size > 0 && f != []
    ensures |c| == LastOf(size, |f|) + 1
  {
    Start(size, f, LastOf(size, |f|) + 1)
  }

  ghost predicate AllOk(n: nat, size: nat, frames: seq<seq<Byte>>) { forall i | 0 <= i < |frames| :: FrameOk(n, size, frames[i]) }

  function Flat(n: nat, size: nat, frames: seq<seq<Byte>>): seq<Segment>
    requires size > 0 && AllOk(n, size, frames)
  {
    if frames == [] then [] else Segs(size, frames[0]) + Flat(n, size, frames[1..])
  }

  lemma {:induction false} FlatAppend(n: nat, size: nat, frames: seq<seq<Byte>>, f: seq<Byte>)
    requires size > 0 && AllOk(n, size, frames) && FrameOk(n, size, f)
    ensures AllOk(n, size, frames + [f]) && Flat(n, size, frames + [f]) == Flat(n, size, frames) + Segs(size, f)
    decreases |frames|
  {
    hide Segs;
    if frames == [] {
      assert frames + [f] == [f] && [f][1..] == [];
    } else {
      FlatAppend(n, size, frames[1..], f);
      assert (frames + [f])[1..] == frames[1..] + [f];
    }
  }

  /** What the queue of stored segments holds: the rest of the frame being given back, whole frames, and
      the part of the next frame that has been stored. */
  ghost predicate Stream(n: nat, size: nat, lead: seq<Segment>, frames: seq<seq<Byte>>, wire: seq<seq<Byte>>, partial: nat, queue: seq<Segment>) {
    && size > 0 && AllOk(n, size, frames) && AllOk(n, size, wire)
    && (if wire == [] then partial == 0 else partial <= LastOf(size, |wire[0]|))
    && queue == lead + Flat(n, size, frames) + if wire == [] then [] else Start(size, wire[0], partial)
  }

  /** The segment the DMA stores next. */
  function NextSegment(n: nat, size: nat, wire: seq<seq<Byte>>, partial: nat): (s: Segment)
    requires size > 0 && wire != [] && FrameOk(n, size, wire[0]) && partial <= LastOf(size, |wire[0]|)
    ensures |s.bytes| <= size && s.last == (partial == LastOf(size, |wire[0]|))
  {
    var f, last := wire[0], LastOf(size, |wire[0]|);
    PartStarts(size, f, last, partial);
    Segment(partial == 0, partial == last, if partial == last then |f| else 0, Part(size, f, partial))
  }

  lemma StartGrows(n: nat, size: nat, wire: seq<seq<Byte>>, partial: nat)
    requires size > 0 && wire != [] && FrameOk(n, size, wire[0]) && partial <= LastOf(size, |wire[0]|)
    ensures Start(size, wire[0], partial + 1) == Start(size, wire[0], partial) + [NextSegment(n, size, wire, partial)]
  {
    hide Cut;
    CutGrows(size, wire[0], LastOf(size, |wire[0]|), |wire[0]|, partial);
  }

  /** One more segment stored: either the frame is not complete yet, or it now is. */
  lemma StreamGrows(n: nat, size: nat, lead: seq<Segment>, frames: seq<seq<Byte>>, wire: seq<seq<Byte>>, partial: nat, queue: seq<Segment>)
    requires Stream(n, size, lead, frames, wire, partial, queue) && wire != []
    ensures var more := queue + [NextSegment(n, size, wire, partial)];
            if partial < LastOf(size, |wire[0]|) then Stream(n, size, lead, frames, wire, partial + 1, more)
            else Stream(n, size, lead, frames + [wire[0]], wire[1..], 0, more)
  {
    hide Start;
    hide NextSegment;
    hide Flat;
    StartGrows(n, size, wire, partial);
    FlatAppend(n, size, frames, wire[0]);
    if |wire| > 1 { StartNone(size, wire[1]); }
    SegsIs(size, wire[0]);
  }

  lemma StartNone(size: nat, f: seq<Byte>)
    requires size > 0 && f != []
    ensures Start(size, f, 0) == []
  {
  }

  lemma SegsIs(size: nat, f: seq<Byte>)
    requires size > 0 && f != []
    ensures Segs(size, f) == Start(size, f, LastOf(size, |f|) + 1)
  {
  }

  /** The segment at a position of a frame. */
  lemma StartAt(size: nat, f: seq<Byte>, k: nat, s: nat)
    requires size > 0 && f != [] && s < k <= LastOf(size, |f|) + 1
    ensures Pos(size, s) <= |f|
    ensures var last := s == LastOf(size, |f|);
            Start(size, f, k)[s] == Segment(s == 0, last, if last then |f| else 0, Part(size, f, s))
  {
    PartStarts(size, f, LastOf(size, |f|), s);
  }

  /** What the scan sees at position s of the first frame. */
  lemma SegmentAt(n: nat, size: nat, frames: seq<seq<Byte>>, wire: seq<seq<Byte>>, partial: nat, queue: seq<Segment>, s: nat)
    requires n > 0 && Stream(n, size, [], frames, wire, partial, queue)
    requires s <= |queue| && (frames != [] ==> s <= LastOf(size, |frames[0]|))
    ensures s < n && (s == |queue| ==> frames == [])
    ensures s < |queue| ==> queue[s].first == (s == 0)
    ensures s < |queue| ==> queue[s].last == (frames != [] && s == LastOf(size, |frames[0]|))
    ensures s < |queue| && queue[s].last ==> queue[s].total == |frames[0]|
  {
    hide Start;
    if frames != [] {
      LastFits(n, size, frames[0]);
      SegsIs(size, frames[0]);
      StartAt(size, frames[0], LastOf(size, |frames[0]|) + 1, s);
    } else if wire != [] {
      LastFits(n, size, wire[0]);
      if s < |queue| { StartAt(size, wire[0], partial, s); }
    }
  }

  /** The pbufs have the sizes the pool gave for the frame, and hold it without its CRC. */
  predicate Delivers(chain: seq<seq<Byte>>, f: seq<Byte>, alloc: nat -> Option<seq<nat>>) {
    && 4 <= |f| && Concat(chain) == f[..|f| - 4]
    && alloc(|f| - 4).Some? && var lens := alloc(|f| - 4).value;
       |chain| == |lens| && forall i | 0 <= i < |lens| :: |chain[i]| == lens[i]
  }

  /** Where the driver is: scanning the first whole frame, or about to give back a frame it has. */
  ghost predicate Cursor(size: nat, lead: seq<Segment>, frames: seq<seq<Byte>>, scanned: nat)
    requires size > 0
  {
    if lead != [] then scanned == |lead| else (frames != [] ==> scanned <= LastOf(size, |frames[0]|))
  }

  /** A frame completed behind the cursor does not move it. */
  lemma CursorGrows(n: nat, size: nat, lead: seq<Segment>, frames: seq<seq<Byte>>, wire: seq<seq<Byte>>, partial: nat,
                    queue: seq<Segment>, scanned: nat)
    requires Stream(n, size, lead, frames, wire, partial, queue) && Cursor(size, lead, frames, scanned)
    requires scanned <= |queue| && wire != []
    ensures Cursor(size, lead, frames + [wire[0]], scanned)
  {
    hide Start;
  }

  lemma SplitFirst(a: seq<seq<Byte>>, b: seq<seq<Byte>>, c: seq<seq<Byte>>)
    requires c != []
    ensures a + b + c == a + (b + [c[0]]) + c[1..]
  {
  }

  lemma SplitMiddle(a: seq<seq<Byte>>, b: seq<seq<Byte>>, c: seq<seq<Byte>>)
    requires b != []
    ensures a + b + c == a + [b[0]] + b[1..] + c && (a + b + c)[|a|] == b[0]
  {
  }

  lemma StreamIs(n: nat, size: nat, lead: seq<Segment>, frames: seq<seq<Byte>>, wire: seq<seq<Byte>>, partial: nat, queue: seq<Segment>)
    requires Stream(n, size, lead, frames, wire, partial, queue)
    ensures size > 0 && |lead| <= |queue| && lead == queue[..|lead|]
    ensures frames != [] ==> FrameOk(n, size, frames[0])
    ensures wire != [] ==> FrameOk(n, size, wire[0]) && partial <= LastOf(size, |wire[0]|)
  {
  }

  lemma SlotHolds(slot: Slot, s: Segment, bytes: seq<Byte>)
    requires |s.bytes| <= |bytes|
    requires slot == Slot(false, s.first, s.last, |s.bytes|, s.total, Overwrite(bytes, 0, s.bytes))
    ensures SegmentOf(slot) == s
  {
  }

  lemma RoomFor(n: nat, ring: seq<Slot>, d: nat, queue: seq<Segment>)
    requires Holds(n, ring, d, queue, false)
    ensures |ring| == n && d < n && |queue| <= n && (ring[Idx(n, d, |queue|)].own <==> |queue| < n)
  {
    FreeBehind(n, ring, d, queue, false, 0);
  }

  class RxRing {
    const n: nat                       // descriptors
    const size: nat                    // bytes per buffer
    ghost const script: seq<seq<Byte>> // all frames that arrive, with their CRC bytes
    const sched: nat -> nat            // what the DMA stores at each moment it gets
    var clock: nat                     // moments so far
    var ring: seq<Slot>
    var dmaDesc: nat                   // the DMA's current descriptor
    var wire: seq<seq<Byte>>           // frames that have not been stored completely
    var partial: nat                   // segments of the first of them that have
    var rxDesc: nat                    // EthHandle.RxDesc
    var fsDesc: nat                    // RxFrameInfos: first descriptor, segments, length
    var segCount: nat
    var length: nat
    ghost var base: nat                // the first descriptor the driver owns
    ghost var queue: seq<Segment>      // what the descriptors it owns hold
    ghost var lead: seq<Segment>       // of those, the rest of the frame it has taken
    ghost var frames: seq<seq<Byte>>   // complete frames waiting
    ghost var scanned: nat             // descriptors from base to RxDesc
    ghost var done: seq<seq<Byte>>     // frames taken

    constructor (n: nat, size: nat, script: seq<seq<Byte>>, sched: nat -> nat)
      requires n > 0 && size > 0 && AllOk(n, size, script)
      ensures Idle() && this.n == n && this.size == size && this.script == script && this.sched == sched && done == []
    {
      this.n, this.size, this.script, this.sched, clock := n, size, script, sched, 0;
      ring := seq(n, _ => Slot(true, false, false, 0, 0, seq(size, _ => 0)));
      dmaDesc, wire, partial, rxDesc, fsDesc, segCount, length := 0, script, 0, 0, 0, 0, 0;
      base, queue, lead, frames, scanned, done := 0, [], [], [], 0, [];
      new;
      if script != [] { StartNone(size, script[0]); }
    }

    /** The driver owns just the descriptors that hold stored and not yet returned segments, in order. */
    ghost predicate RingOk()
      reads `ring, `dmaDesc, `base, `queue, `scanned, `rxDesc
    {
      && Holds(n, ring, base, queue, false) && dmaDesc == Idx(n, base, |queue|)
      && (forall i | 0 <= i < n :: |ring[i].bytes| == size)
      && scanned <= |queue| && rxDesc == Idx(n, base, scanned)
    }

    /** Every frame is in one place: taken, waiting, or still arriving. */
    ghost predicate StreamOk()
      reads `lead, `frames, `wire, `partial, `queue, `scanned, `done
    {
      && Stream(n, size, lead, frames, wire, partial, queue) && Cursor(size, lead, frames, scanned)
      && done + frames + wire == script
    }

    ghost predicate Core()
      reads `ring, `dmaDesc, `base, `queue, `scanned, `rxDesc, `lead, `frames, `wire, `partial, `done
    {
      RingOk() && StreamOk()
    }

    /** Between calls. */
    ghost predicate Idle()
      reads this
    {
      Core() && lead == [] && scanned == segCount && (segCount > 0 ==> fsDesc == base)
    }

    lemma RingIs()
      requires RingOk()
      ensures n > 0 && |ring| == n && base < n && |queue| <= n && dmaDesc < n && rxDesc < n && scanned <= |queue|
      ensures Holds(n, ring, base, queue, false) && dmaDesc == Idx(n, base, |queue|) && rxDesc == Idx(n, base, scanned)
      ensures forall i | 0 <= i < n :: |ring[i].bytes| == size
    {
    }

    lemma StreamOkIs()
      requires StreamOk()
      ensures Stream(n, size, lead, frames, wire, partial, queue) && size > 0 && Cursor(size, lead, frames, scanned)
      ensures done + frames + wire == script
    {
    }

    lemma MakeStream()
      requires Stream(n, size, lead, frames, wire, partial, queue) && size > 0 && Cursor(size, lead, frames, scanned)
      requires done + frames + wire == script
      ensures StreamOk()
    {
    }

    /** The DMA fills in its descriptor and passes it to the driver. */
    method StoreSlot(s: Segment)
      requires RingOk() && dmaDesc < |ring| && ring[dmaDesc].own && |s.bytes| <= size
      modifies `ring, `dmaDesc, `queue
      ensures RingOk() && queue == old(queue) + [s]
    {
      hide Holds;
      hide Overwrite;
      RingIs();
      var slot := Slot(false, s.first, s.last, |s.bytes|, s.total, Overwrite(ring[dmaDesc].bytes, 0, s.bytes));
      SlotHolds(slot, s, ring[dmaDesc].bytes);
      RoomFor(n, ring, base, queue);
      PushBack(n, ring, base, queue, false, slot);
      queue := queue + [s];
      ring := ring[dmaDesc := slot];
      dmaDesc := NextDesc(n, dmaDesc);
    }

    /** The DMA stores one segment. */
    method Store()
      requires Core() && wire != [] && dmaDesc < |ring| && ring[dmaDesc].own
      modifies `ring, `dmaDesc, `wire, `partial, `queue, `frames
      ensures Core() && old(queue) <= queue && |queue| == |old(queue)| + 1
    {
      hide *;
      CoreIs();
      StreamOkIs();
      RingIs();
      StreamIs(n, size, lead, frames, wire, partial, queue);
      StreamGrows(n, size, lead, frames, wire, partial, queue);
      CursorGrows(n, size, lead, frames, wire, partial, queue, scanned);
      SplitFirst(done, frames, wire);
      var f := wire[0];
      var next := NextSegment(n, size, wire, partial);
      StoreSlot(next);
      if next.last {
        frames, wire, partial := frames + [f], wire[1..], 0;
      } else {
        partial := partial + 1;
      }
      MakeStream();
      MakeCore();
    }

    lemma CoreIs()
      requires Core()
      ensures RingOk() && StreamOk()
    {
    }

    lemma MakeCore()
      requires RingOk() && StreamOk()
      ensures Core()
    {
    }

    /** The DMA stores up to count segments. */
    method Dma(count: nat)
      requires Core()
      modifies `ring, `dmaDesc, `wire, `partial, `queue, `frames
      ensures Core() && old(queue) <= queue && (count >= n ==> wire == [] || |queue| == n)
    {
      hide *;
      for i := 0 to count
        invariant Core() && old(queue) <= queue && |queue| >= i
      {
        CoreIs();
        RingIs();
        RoomFor(n, ring, base, queue);
        if wire == [] || !ring[dmaDesc].own { break; }
        Store();
      }
      CoreIs();
      RingIs();
    }

    /** A moment for the DMA. */
    method Tick()
      requires Core()
      modifies `ring, `dmaDesc, `wire, `partial, `queue, `frames, `clock
      ensures Core() && old(queue) <= queue && (Eager(n, sched) ==> wire == [] || |queue| == n)
    {
      hide *;
      EagerAt(n, sched, clock);
      Dma(sched(clock));
      clock := clock + 1;
    }

    // ----- HAL_ETH_GetReceivedFrame_IT -----

    /** What the descriptor at RxDesc says about the frames waiting. */
    lemma Look()
      requires Core() && lead == []
      ensures size > 0 && scanned < n && rxDesc < |ring| && (frames != [] ==> scanned <= LastOf(size, |frames[0]|))
      ensures var s := ring[rxDesc];
              if s.own then frames == [] && scanned == |queue| else
                && scanned < |queue| && s.first == (scanned == 0)
                && s.last == (frames != [] && scanned == LastOf(size, |frames[0]|))
                && (s.last ==> s.total == |frames[0]| && 4 <= |frames[0]|)
    {
      hide Holds;
      hide Stream;
      RingIs();
      StreamOkIs();
      StreamIs(n, size, lead, frames, wire, partial, queue);
      SegmentAt(n, size, frames, wire, partial, queue, scanned);
      SlotAt(n, ring, base, queue, scanned);
    }

    /** A descriptor that does not end a frame is counted. */
    method Count()
      requires Core() && lead == [] && rxDesc < |ring| && !ring[rxDesc].own && !ring[rxDesc].last
      modifies `rxDesc, `scanned
      ensures Core() && scanned == old(scanned) + 1
    {
      hide Holds;
      hide Stream;
      Look();
      RingIs();
      IdxNext(n, base, scanned);
      rxDesc := NextDesc(n, rxDesc);
      scanned := scanned + 1;
    }

    /** The descriptor that ends a frame is counted, and the frame is taken. */
    method Take()
      requires Core() && lead == [] && rxDesc < |ring| && !ring[rxDesc].own && ring[rxDesc].last
      modifies `rxDesc, `scanned, `lead, `frames, `done
      ensures Core() && old(frames) != [] && scanned == |lead| && size > 0 && old(frames)[0] != []
      ensures lead == Segs(size, old(frames)[0]) && done == old(done) + [old(frames)[0]]
    {
      hide Holds;
      hide Stream;
      hide Segs;
      Look();
      RingIs();
      IdxNext(n, base, scanned);
      StreamTake(n, size, frames, wire, partial, queue);
      SplitMiddle(done, frames, wire);
      rxDesc := NextDesc(n, rxDesc);
      scanned := scanned + 1;
      lead, done, frames := Segs(size, frames[0]), done + [frames[0]], frames[1..];
    }

    /** The frame the driver has taken, and where its descriptors are. */
    ghost predicate Taken(f: seq<Byte>)
      reads `ring, `dmaDesc, `base, `queue, `scanned, `rxDesc, `lead, `frames, `wire, `partial, `done, `segCount, `fsDesc
    {
      && Core() && size > 0 && FrameOk(n, size, f) && lead == Segs(size, f) && scanned == segCount == |lead|
      && fsDesc == base && done != [] && f == done[|done| - 1]
    }

    /** One turn of the scan. */
    method ScanStep() returns (found: bool)
      requires Idle() && rxDesc < |ring| && !ring[rxDesc].own
      modifies `rxDesc, `fsDesc, `segCount, `length, `scanned, `lead, `frames, `done
      ensures !found ==> Idle() && scanned == old(scanned) + 1 && done == old(done)
      ensures found ==> |old(done)| < |script| && done == old(done) + [script[|old(done)|]]
      ensures found ==> Taken(script[|old(done)|]) && length == |script[|old(done)|]| - 4
    {
      hide *;
      IdleIs();
      Look();
      CoreIs();
      RingIs();
      if ring[rxDesc].first && !ring[rxDesc].last {
        IdxZero(n, base);
        fsDesc, segCount := rxDesc, 1;
        Count();
        MakeIdle();
        found := false;
      } else if !ring[rxDesc].first && !ring[rxDesc].last {
        segCount := segCount + 1;
        Count();
        MakeIdle();
        found := false;
      } else {
        segCount := segCount + 1;
        if segCount == 1 {
          IdxZero(n, base);
          fsDesc := rxDesc;
        }
        length := ring[rxDesc].total - 4;
        StreamOkIs();
        StreamIs(n, size, lead, frames, wire, partial, queue);
        SplitMiddle(done, frames, wire);
        Take();
        MakeTaken(script[|old(done)|]);
        found := true;
      }
    }

    /** A frame is found if one is complete; it is the next frame that arrived, and its length is reported
        without the CRC. */
    method GetReceivedFrame() returns (ok: bool)
      requires Idle()
      modifies this
      ensures !ok ==> Idle() && frames == [] && done == old(done) && (Eager(n, sched) ==> wire == [])
      ensures ok ==> |old(done)| < |script| && done == old(done) + [script[|old(done)|]]
      ensures ok ==> Taken(script[|old(done)|]) && length == |script[|old(done)|]| - 4
    {
      hide *;
      IdleIs();
      var counter := 0;
      Tick();
      MakeIdle();
      Look();
      while !ring[rxDesc].own && counter < n
        invariant Idle() && done == old(done)
        invariant counter <= scanned < n && rxDesc < |ring| && (ring[rxDesc].own ==> frames == [] && scanned == |queue|)
        invariant Eager(n, sched) ==> wire == [] || |queue| == n
      {
        counter := counter + 1;
        ok := ScanStep();
        if ok { return; }
        IdleIs();
        Tick();
        MakeIdle();
        Look();
      }
      ok := false;
    }

    lemma IdleIs()
      requires Idle()
      ensures Core() && lead == [] && scanned == segCount && (segCount > 0 ==> fsDesc == base)
    {
    }

    lemma MakeIdle()
      requires Core() && lead == [] && scanned == segCount && (segCount > 0 ==> fsDesc == base)
      ensures Idle()
    {
    }

    lemma MakeTaken(f: seq<Byte>)
      requires Core() && size > 0 && FrameOk(n, size, f) && f != [] && lead == Segs(size, f) && scanned == segCount == |lead|
      requires fsDesc == base && done != [] && f == done[|done| - 1]
      ensures Taken(f)
    {
    }

    // ----- low_level_input -----

    /** The copy loop: at descriptor k of the frame, offset bytes into its buffer. */
    ghost predicate Reading(f: seq<Byte>, k: nat, d: nat, offset: nat)
      reads `ring, `dmaDesc, `base, `queue, `scanned, `rxDesc, `lead, `frames, `wire, `partial, `done, `segCount, `fsDesc
    {
      Taken(f) && k <= LastOf(size, |f|) && base < n && k < n && d == Idx(n, base, k) && offset <= size
    }

    lemma TakenIs(f: seq<Byte>)
      requires Taken(f)
      ensures Core() && size > 0 && FrameOk(n, size, f) && f != [] && lead == Segs(size, f) && scanned == segCount == |lead|
      ensures fsDesc == base && done != [] && f == done[|done| - 1]
    {
    }

    /** The buffers hold the frame. */
    lemma ReadAt(f: seq<Byte>, k: nat, d: nat, offset: nat, c: nat)
      requires Reading(f, k, d, offset) && offset + c <= size && Pos(size, k) + offset + c <= |f|
      ensures d < |ring| && |ring[d].bytes| == size
      ensures ring[d].bytes[offset..offset + c] == f[Pos(size, k) + offset..Pos(size, k) + offset + c]
    {
      hide Holds;
      hide Stream;
      hide Pos;
      hide Segs;
      hide Part;
      RingIs();
      StreamIs(n, size, lead, frames, wire, partial, queue);
      SlotAt(n, ring, base, queue, k);
      SegsIs(size, f);
      StartAt(size, f, |lead|, k);
      assert lead[k] == queue[k];
      BytesAt(ring[d], f, size, k, offset, c);
    }

    /** Let the DMA run, then copy from the current buffer. */
    method CopyOut(ghost f: seq<Byte>, ghost k: nat, d: nat, offset: nat, c: nat) returns (data: seq<Byte>)
      requires Reading(f, k, d, offset) && offset + c <= size && Pos(size, k) + offset + c <= |f|
      modifies `ring, `dmaDesc, `wire, `partial, `queue, `frames, `clock
      ensures Reading(f, k, d, offset) && data == f[Pos(size, k) + offset..Pos(size, k) + offset + c]
    {
      hide *;
      ReadingIs(f, k, d, offset);
      TakenIs(f);
      Tick();
      MakeTaken(f);
      MakeReading(f, k, d, offset);
      ReadAt(f, k, d, offset, c);
      data := ring[d].bytes[offset..offset + c];
    }

    lemma ReadingIs(f: seq<Byte>, k: nat, d: nat, offset: nat)
      requires Reading(f, k, d, offset)
      ensures Taken(f) && size > 0 && k <= LastOf(size, |f|) && base < n && k < n && d == Idx(n, base, k) && offset <= size
    {
    }

    lemma MakeReading(f: seq<Byte>, k: nat, d: nat, offset: nat)
      requires Taken(f) && size > 0 && k <= LastOf(size, |f|) && base < n && k < n && d == Idx(n, base, k) && offset <= size
      ensures Reading(f, k, d, offset)
    {
    }

    lemma NextReading(f: seq<Byte>, k: nat, d: nat, offset: nat)
      requires Reading(f, k, d, offset) && Pos(size, k) + size < |f|
      ensures d < n && Reading(f, k + 1, NextDesc(n, d), 0) && Pos(size, k + 1) == Pos(size, k) + size
    {
      hide Core;
      PosAtMost(size, LastOf(size, |f|) + 1, k);
      LastFits(n, size, f);
      IdxNext(n, base, k);
    }

    /** The loop over one pbuf. */
    method FillPbuf(want: nat, ghost f: seq<Byte>, ghost k0: nat, d0: nat, offset0: nat)
      returns (payload: seq<Byte>, ghost k: nat, d: nat, offset: nat)
      requires Reading(f, k0, d0, offset0) && Pos(size, k0) + offset0 + want <= |f|
      modifies `ring, `dmaDesc, `wire, `partial, `queue, `frames, `clock
      ensures Reading(f, k, d, offset) && Pos(size, k) + offset == Pos(size, k0) + offset0 + want
      ensures payload == f[Pos(size, k0) + offset0..Pos(size, k0) + offset0 + want]
    {
      hide *;
      ghost var pos := Pos(size, k0) + offset0;
      ReadingIs(f, k0, d0, offset0);
      k, d, offset, payload := k0, d0, offset0, [];
      var left: nat := want;
      while left + offset > size
        invariant Reading(f, k, d, offset) && offset <= size && size > 0 && left <= want
        invariant Pos(size, k) + offset == pos + (want - left) && payload == f[pos..pos + (want - left)]
        decreases left + offset
      {
        var c: nat := size - offset;
        var data := CopyOut(f, k, d, offset, c);
        payload := payload + data;
        ReadOn(f, pos, want - left, c);
        NextReading(f, k, d, offset);
        k, d, left, offset := k + 1, NextDesc(n, d), left - c, 0;
      }
      var data := CopyOut(f, k, d, offset, left);
      payload := payload + data;
      ReadOn(f, pos, want - left, left);
      offset := offset + left;
      MakeReadingMore(f, k, d, offset - left, offset);
    }

    lemma MakeReadingMore(f: seq<Byte>, k: nat, d: nat, offset: nat, more: nat)
      requires Reading(f, k, d, offset) && more <= size
      ensures Reading(f, k, d, more)
    {
    }

    /** The first descriptor of the frame goes back to the DMA. */
    method Give(d: nat)
      requires Core() && lead != [] && scanned == |lead| && d == base
      modifies `ring, `base, `queue, `lead, `scanned
      ensures Core() && lead == old(lead)[1..] && scanned == |lead| && d < n && base == NextDesc(n, d)
    {
      hide Holds;
      hide Stream;
      hide Idx;
      hide NextDesc;
      RingIs();
      StreamOkIs();
      StreamIs(n, size, lead, frames, wire, partial, queue);
      PopFront(n, ring, base, queue, false, ring[d].(own := true));
      IdxShift(n, base, |queue| - 1);
      IdxShift(n, base, scanned - 1);
      StreamDrop(n, size, lead, frames, wire, partial, queue);
      ring := ring[d := ring[d].(own := true)];
      base, queue, lead, scanned := NextDesc(n, base), queue[1..], lead[1..], scanned - 1;
    }

    /** All the descriptors of the frame go back, while the DMA may already be filling them again. */
    method Release(ghost f: seq<Byte>)
      requires Taken(f)
      modifies `ring, `base, `queue, `lead, `scanned, `segCount, `dmaDesc, `wire, `partial, `frames, `clock
      ensures Idle()
    {
      hide *;
      TakenIs(f);
      var d := fsDesc;
      for i := 0 to segCount
        invariant Core() && segCount == old(segCount) && |lead| == segCount - i && scanned == |lead| && d == base
      {
        Give(d);
        d := NextDesc(n, d);
        Tick();
      }
      segCount := 0;
      MakeIdle();
    }

    /** Copy the frame into the pbufs. */
    method CopyChain(lens: seq<nat>, ghost f: seq<Byte>) returns (chain: seq<seq<Byte>>)
      requires Taken(f) && Sum(lens) + 4 == |f|
      modifies `ring, `dmaDesc, `wire, `partial, `queue, `frames, `clock
      ensures Taken(f) && Concat(chain) == f[..|f| - 4]
      ensures |chain| == |lens| && forall i | 0 <= i < |lens| :: |chain[i]| == lens[i]
    {
      hide *;
      ghost var k := 0;
      var d, offset: nat := fsDesc, 0;
      FirstReading(f);
      SumAll(lens);
      ConcatEmpty();
      chain := [];
      for i := 0 to |lens|
        invariant Reading(f, k, d, offset) && |chain| == i && Pos(size, k) + offset + Sum(lens[i..]) + 4 == |f|
        invariant Concat(chain) == f[..Pos(size, k) + offset]
        invariant forall j | 0 <= j < i :: |chain[j]| == lens[j]
      {
        SumStep(lens, i);
        ghost var pos := Pos(size, k) + offset;
        var payload;
        payload, k, d, offset := FillPbuf(lens[i], f, k, d, offset);
        ConcatSnoc(chain, payload);
        ReadOn(f, 0, pos, lens[i]);
        chain := chain + [payload];
      }
      SumNone(lens);
      ReadingIs(f, k, d, offset);
    }

    lemma FirstReading(f: seq<Byte>)
      requires Taken(f)
      ensures Reading(f, 0, fsDesc, 0) && Pos(size, 0) == 0
    {
      hide Stream;
      RingIs();
      IdxZero(n, base);
    }

    /** low_level_input delivers the frames in the order they arrived, each once and without its CRC, in
        pbufs of the sizes the pool gave. It delivers nothing only when no frame is complete, when the
        frame is empty or when the pool has no pbufs; in the last two cases the frame is gone, and its
        descriptors are back with the DMA all the same. */
    method Input(alloc: nat -> Option<seq<nat>>) returns (p: Option<seq<seq<Byte>>>)
      requires Idle() && forall len :: alloc(len).Some? ==> Sum(alloc(len).value) == len
      modifies this
      ensures Idle()
      ensures done == old(done) ==> frames == [] && p == None && (Eager(n, sched) ==> done == script)
      ensures done != old(done) ==> |old(done)| < |script| && done == old(done) + [script[|old(done)|]]
      ensures done != old(done) && p.None? ==> |done[|old(done)|]| == 4 || alloc(|done[|old(done)|]| - 4) == None
      ensures done != old(done) && p.Some? ==> Delivers(p.value, done[|old(done)|], alloc)
    {
      hide *;
      var ok := GetReceivedFrame();
      if !ok {
        IdleIs();
        CoreIs();
        StreamOkIs();
        return None;
      }
      ghost var f := script[|old(done)|];
      TakenIs(f);
      FrameOkIs(n, size, f);
      p := None;
      if length > 0 {
        var lens := alloc(length);
        if lens.Some? {
          var chain := CopyChain(lens.value, f);
          p := Some(chain);
          DeliversIs(chain, f, alloc);
        }
      }
      Release(f);
    }
  }

  lemma DeliversIs(chain: seq<seq<Byte>>, f: seq<Byte>, alloc: nat -> Option<seq<nat>>)
    requires 4 <= |f| && Concat(chain) == f[..|f| - 4] && alloc(|f| - 4).Some?
    requires |chain| == |alloc(|f| - 4).value|
    requires forall i | 0 <= i < |chain| :: |chain[i]| == alloc(|f| - 4).value[i]
    ensures Delivers(chain, f, alloc)
  {
  }

  lemma FrameOkIs(n: nat, size: nat, f: seq<Byte>)
    requires FrameOk(n, size, f)
    ensures 4 <= |f| <= Pos(size, n)
  {
  }

  function Sum(lens: seq<nat>): nat { if lens == [] then 0 else lens[0] + Sum(lens[1..]) }

  lemma SumAll(lens: seq<nat>)
    ensures Sum(lens[0..]) == Sum(lens)
  {
    assert lens[0..] == lens;
  }

  lemma SumNone(lens: seq<nat>)
    ensures Sum(lens[|lens|..]) == 0
  {
  }

  lemma SumStep(lens: seq<nat>, i: nat)
    requires i < |lens|
    ensures Sum(lens[i..]) == lens[i] + Sum(lens[i + 1..])
  {
    assert lens[i..][1..] == lens[i + 1..];
  }

  lemma ConcatEmpty()
    ensures Concat([]) == []
  {
  }

  lemma ConcatSnoc(chain: seq<seq<Byte>>, payload: seq<Byte>)
    ensures Concat(chain + [payload]) == Concat(chain) + payload
  {
    ConcatAppend(chain, [payload]);
    assert [payload][1..] == [];
  }

  lemma ReadOn(f: seq<Byte>, pos: nat, had: nat, c: nat)
    requires pos + had + c <= |f|
    ensures f[pos..pos + had] + f[pos + had..pos + had + c] == f[pos..pos + (had + c)]
  {
  }

  lemma SliceOfPrefix(bytes: seq<Byte>, n: nat, offset: nat, c: nat)
    requires offset + c <= n <= |bytes|
    ensures bytes[..n][offset..offset + c] == bytes[offset..offset + c]
  {
  }

  lemma PartSlice(f: seq<Byte>, a: nat, b: nat, offset: nat, c: nat)
    requires a + offset + c <= b <= |f|
    ensures f[a..b][offset..offset + c] == f[a + offset..a + offset + c]
  {
    var part := f[a..b];
    forall j | offset <= j < offset + c
      ensures part[j] == f[a + j]
    {
    }
  }

  lemma PrefixOf(slot: Slot)
    ensures var b := SegmentOf(slot).bytes; |b| <= |slot.bytes| && slot.bytes[..|b|] == b
  {
  }

  lemma BytesAt(slot: Slot, f: seq<Byte>, size: nat, k: nat, offset: nat, c: nat)
    requires |slot.bytes| == size && Pos(size, k) <= |f| && SegmentOf(slot).bytes == Part(size, f, k)
    requires offset + c <= size && Pos(size, k) + offset + c <= |f|
    ensures slot.bytes[offset..offset + c] == f[Pos(size, k) + offset..Pos(size, k) + offset + c]
  {
    hide Pos;
    var part := Part(size, f, k);
    PrefixOf(slot);
    assert |part| >= offset + c;
    PartSlice(f, Pos(size, k), Pos(size, k) + |part|, offset, c);
    SliceOfPrefix(slot.bytes, |part|, offset, c);
  }

  lemma StreamDrop(n: nat, size: nat, lead: seq<Segment>, frames: seq<seq<Byte>>, wire: seq<seq<Byte>>, partial: nat, queue: seq<Segment>)
    requires Stream(n, size, lead, frames, wire, partial, queue) && lead != []
    ensures queue != [] && Stream(n, size, lead[1..], frames, wire, partial, queue[1..])
  {
    hide Start;
    hide Flat;
  }

  lemma SlotAt(n: nat, ring: seq<Slot>, d: nat, queue: seq<Segment>, s: nat)
    requires Holds(n, ring, d, queue, false) && s < n
    ensures |ring| == n && d < n && (ring[Idx(n, d, s)].own <==> s >= |queue|)
    ensures s < |queue| ==> SegmentOf(ring[Idx(n, d, s)]) == queue[s]
  {
  }

  lemma StreamTake(n: nat, size: nat, frames: seq<seq<Byte>>, wire: seq<seq<Byte>>, partial: nat, queue: seq<Segment>)
    requires Stream(n, size, [], frames, wire, partial, queue) && frames != []
    ensures size > 0 && frames[0] != [] && Stream(n, size, Segs(size, frames[0]), frames[1..], wire, partial, queue)
  {
    hide Segs;
    hide Start;
  }
}
