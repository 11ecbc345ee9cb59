/** low_level_output (src/ethernetif.c) and HAL_ETH_TransmitFrame
    (Drivers/STM32F7xx_HAL_Driver/Src/stm32f7xx_hal_eth.c), with a DMA engine that takes descriptors off
    the ring at any moment in between. */
module EthTx {
  import opened Arith
  import opened EthRing

  datatype Err = Ok | Busy

  class TxRing {
    const n: nat                     // descriptors
    const size: nat                  // bytes per buffer, within the 13 bits of TBS1
    const sched: nat -> nat          // what the DMA sends at each moment it gets
    var clock: nat                   // moments so far
    var ring: seq<Slot>
    var txDesc: nat                  // EthHandle.TxDesc
    var dmaDesc: nat                 // the DMA's current descriptor
    ghost var queue: seq<Segment>    // handed over and not yet sent
    var wire: seq<Segment>           // sent
    ghost var sent: seq<Segment>     // everything ever handed over

    constructor (n: nat, size: nat, sched: nat -> nat)
      requires n > 0 && 0 < size < 0x2000
      ensures Valid() && this.n == n && this.size == size && this.sched == sched && sent == [] && wire == []
    {
      this.n, this.size, this.sched, clock := n, size, sched, 0;
      ring := seq(n, _ => Slot(false, false, false, 0, 0, seq(size, _ => 0)));
      txDesc, dmaDesc, queue, wire, sent := 0, 0, [], [], [];
    }

    /** The descriptors the DMA owns are those from its own to the driver's position; they hold the
        queued segments, and nothing handed over has been lost. */
    ghost predicate Valid()
      reads this
    {
      && 0 < size < 0x2000 && Holds(n, ring, dmaDesc, queue, true) && txDesc == Idx(n, dmaDesc, |queue|)
      && (forall i | 0 <= i < n :: |ring[i].bytes| == size)
      && wire + queue == sent
    }

    /** The DMA sends up to count queued segments. */
    method Dma(count: nat)
      requires Valid()
      modifies this
      ensures Valid() && txDesc == old(txDesc) && sent == old(sent) && |queue| <= |old(queue)| && |ring| == |old(ring)| == n
      ensures forall i | 0 <= i < n :: ring[i].bytes == old(ring)[i].bytes
      ensures count >= |old(queue)| ==> queue == []
    {
      for k := 0 to count
        invariant Valid() && txDesc == old(txDesc) && sent == old(sent) && |queue| <= |old(queue)|
        invariant forall i | 0 <= i < n :: ring[i].bytes == old(ring)[i].bytes
        invariant |queue| + k <= |old(queue)| || queue == []
      {
        FrontOwn(n, ring, dmaDesc, queue, true);
        if !ring[dmaDesc].own { break; }
        Send();
      }
    }

    /** A moment for the DMA. */
    method Tick()
      requires Valid()
      modifies this
      ensures Valid() && txDesc == old(txDesc) && sent == old(sent) && |queue| <= |old(queue)| && |ring| == |old(ring)| == n
      ensures forall i | 0 <= i < n :: ring[i].bytes == old(ring)[i].bytes
      ensures Eager(n, sched) ==> queue == []
    {
      hide Holds;
      HoldsIs(n, ring, dmaDesc, queue, true);
      EagerAt(n, sched, clock);
      Dma(sched(clock));
      clock := clock + 1;
    }

    /** The DMA sends all there is. */
    method Drain()
      requires Valid()
      modifies this
      ensures Valid() && sent == old(sent) && wire == sent
    {
      hide Holds;
      HoldsIs(n, ring, dmaDesc, queue, true);
      Dma(n);
    }

    /** One descriptor goes out and back to the driver. */
    method Send()
      requires Valid() && ring[dmaDesc].own
      modifies this
      ensures Valid() && txDesc == old(txDesc) && sent == old(sent) && old(queue) != []
      ensures queue == old(queue)[1..] && wire == old(wire) + [old(queue)[0]]
      ensures forall i | 0 <= i < n :: ring[i].bytes == old(ring)[i].bytes
    {
      hide Holds;
      FrontOwn(n, ring, dmaDesc, queue, true);
      PopFront(n, ring, dmaDesc, queue, true, ring[dmaDesc].(own := false));
      IdxShift(n, dmaDesc, |queue| - 1);
      assert queue == [queue[0]] + queue[1..];
      var segment := SegmentOf(ring[dmaDesc]);
      ring := ring[dmaDesc := ring[dmaDesc].(own := false)];
      dmaDesc := NextDesc(n, dmaDesc);
      wire := wire + [segment];
      queue := queue[1..];
    }

    /** memcpy into the buffer of a descriptor whose OWN bit is clear. */
    method CopyIn(d: nat, offset: nat, data: seq<Byte>)
      requires Valid() && d < n && !ring[d].own && offset + |data| <= size
      modifies this`ring
      ensures Valid() && ring == old(ring)[d := old(ring)[d].(bytes := Overwrite(old(ring)[d].bytes, offset, data))]
    {
      Rewrite(n, ring, dmaDesc, queue, true, d, Overwrite(ring[d].bytes, offset, data));
      ring := ring[d := ring[d].(bytes := Overwrite(ring[d].bytes, offset, data))];
    }

    /** Where low_level_output stands: k descriptors past TxDesc, the frame laid out up to byte pos, which
        is offset bytes into the current buffer; it never moves on without more to copy. */
    ghost predicate Begun(frame: seq<Byte>, k: nat, d: nat, offset: nat, pos: nat)
      reads this
    {
      && Valid() && txDesc < n && Laid(n, size, ring, txDesc, frame, k, offset) && d == Idx(n, txDesc, k)
      && pos == Pos(size, k) + offset && |frame| <= Pos(size, n) && (k > 0 ==> Pos(size, k) < |frame|)
    }

    /** ... and the current descriptor and those before it are free. */
    ghost predicate At(frame: seq<Byte>, k: nat, d: nat, offset: nat, pos: nat)
      reads this
    {
      Begun(frame, k, d, offset, pos) && |queue| + k < n
    }

    lemma BegunIs(frame: seq<Byte>, k: nat, d: nat, offset: nat, pos: nat)
      requires Begun(frame, k, d, offset, pos)
      ensures Valid() && offset <= size && d < n && size > 0 && txDesc < n && k < n && pos <= |frame|
    {
    }

    /** Let the DMA run, then look at the OWN bit. */
    method Check(ghost frame: seq<Byte>, ghost k: nat, d: nat, ghost offset: nat, ghost pos: nat) returns (free: bool)
      requires Begun(frame, k, d, offset, pos)
      modifies this
      ensures Begun(frame, k, d, offset, pos) && txDesc == old(txDesc) && sent == old(sent) && |queue| <= |old(queue)|
      ensures free == (|queue| + k < n) && (Eager(n, sched) ==> free)
      ensures free ==> At(frame, k, d, offset, pos)
    {
      hide Laid;
      hide Holds;
      ghost var before := ring;
      HoldsIs(n, ring, dmaDesc, queue, true);
      LaidIs(n, size, before, txDesc, frame, k, offset);
      Tick();
      HoldsIs(n, ring, dmaDesc, queue, true);
      LaidSameBytes(n, size, before, ring, txDesc, frame, k, offset);
      FreeBehind(n, ring, dmaDesc, queue, true, k);
      free := !ring[d].own;
    }

    method CopyChunk(ghost frame: seq<Byte>, ghost k: nat, d: nat, offset: nat, ghost pos: nat, data: seq<Byte>)
      requires At(frame, k, d, offset, pos) && offset + |data| <= size
      requires pos + |data| <= |frame| && data == frame[pos..pos + |data|]
      modifies this`ring
      ensures At(frame, k, d, offset + |data|, pos + |data|)
    {
      FreeBehind(n, ring, dmaDesc, queue, true, k);
      LaidFill(n, size, ring, txDesc, frame, k, offset, data);
      CopyIn(d, offset, data);
    }

    /** Fill up the current buffer and move to the next descriptor, if the DMA has let go of it. */
    method FillAndAdvance(ghost frame: seq<Byte>, ghost k: nat, d: nat, offset: nat, ghost pos: nat, data: seq<Byte>)
      returns (free: bool)
      requires At(frame, k, d, offset, pos) && offset + |data| == size
      requires pos + |data| < |frame| && data == frame[pos..pos + |data|]
      modifies this
      ensures d < n && Begun(frame, k + 1, NextDesc(n, d), 0, pos + |data|)
      ensures txDesc == old(txDesc) && sent == old(sent) && |queue| <= |old(queue)|
      ensures free == (|queue| + (k + 1) < n) && (Eager(n, sched) ==> free)
      ensures free ==> At(frame, k + 1, NextDesc(n, d), 0, pos + |data|)
    {
      hide *;
      CopyChunk(frame, k, d, offset, pos, data);
      AtAdvance(frame, k, d, pos + |data|);
      free := Check(frame, k + 1, NextDesc(n, d), 0, pos + |data|);
    }

    lemma AtAdvance(frame: seq<Byte>, k: nat, d: nat, pos: nat)
      requires At(frame, k, d, size, pos) && pos < |frame|
      ensures d < n && Begun(frame, k + 1, NextDesc(n, d), 0, pos)
    {
      LaidAdvance(n, size, ring, txDesc, frame, k);
    }

    lemma AtIs(frame: seq<Byte>, k: nat, d: nat, offset: nat, pos: nat)
      requires At(frame, k, d, offset, pos)
      ensures Begun(frame, k, d, offset, pos)
    {
    }

    /** The loop over one pbuf: fill buffers and move on to the next descriptor while the rest of the
        payload does not fit, then copy the rest. */
    method CopyPbuf(payload: seq<Byte>, ghost frame: seq<Byte>, ghost k0: nat, d0: nat, offset0: nat, ghost pos: nat)
      returns (free: bool, ghost k: nat, d: nat, offset: nat)
      requires At(frame, k0, d0, offset0, pos)
      requires pos + |payload| <= |frame| && payload == frame[pos..pos + |payload|]
      modifies this
      ensures txDesc == old(txDesc) && sent == old(sent) && |queue| <= |old(queue)|
      ensures free ==> At(frame, k, d, offset, pos + |payload|)
      ensures !free ==> Begun(frame, k, d, offset, Pos(size, k)) && |queue| + k >= n && k > 0 && !Eager(n, sched)
    {
      hide *;
      AtIs(frame, k0, d0, offset0, pos);
      BegunIs(frame, k0, d0, offset0, pos);
      k, d, offset := k0, d0, offset0;
      var left: nat, poff: nat := |payload|, 0;
      while left + offset > size
        invariant left + poff == |payload| && offset <= size && size > 0
        invariant At(frame, k, d, offset, pos + poff)
        invariant txDesc == old(txDesc) && sent == old(sent) && |queue| <= |old(queue)|
        decreases left + offset
      {
        SliceOf(payload, frame, pos, poff, poff + (size - offset));
        free := FillAndAdvance(frame, k, d, offset, pos + poff, payload[poff..poff + (size - offset)]);
        left, poff, offset := left - (size - offset), poff + (size - offset), 0;
        k, d := k + 1, NextDesc(n, d);
        if !free { BegunPos(frame, k, d, offset, pos + poff); return; }
      }
      SliceOf(payload, frame, pos, poff, |payload|);
      CopyChunk(frame, k, d, offset, pos + poff, payload[poff..|payload|]);
      offset := offset + left;
      free := true;
    }

    lemma BegunPos(frame: seq<Byte>, k: nat, d: nat, offset: nat, pos: nat)
      requires Begun(frame, k, d, offset, pos)
      ensures pos == Pos(size, k) + offset
    {
    }

    // ----- HAL_ETH_TransmitFrame -----

    /** Fill in a descriptor, set its OWN bit and move TxDesc on. */
    method HandOver(first: bool, last: bool, len: nat)
      requires Valid() && |queue| < n && len <= size
      modifies this
      ensures Valid() && old(txDesc) < n && txDesc == NextDesc(n, old(txDesc)) && |queue| == |old(queue)| + 1 && |ring| == |old(ring)| == n
      ensures sent == old(sent) + [Segment(first, last, 0, old(ring)[old(txDesc)].bytes[..len])]
      ensures forall i | 0 <= i < n :: ring[i].bytes == old(ring)[i].bytes
    {
      hide Holds;
      HoldsIs(n, ring, dmaDesc, queue, true);
      var slot := ring[txDesc].(own := true, first := first, last := last, len := len % 0x2000, total := 0);
      PushBack(n, ring, dmaDesc, queue, true, slot);
      ring := ring[txDesc := slot];
      txDesc := NextDesc(n, txDesc);
      queue, sent := queue + [SegmentOf(slot)], sent + [SegmentOf(slot)];
    }

    lemma AtTakes(frame: seq<Byte>, k: nat, d: nat, offset: nat)
      requires At(frame, k, d, offset, |frame|)
      ensures Valid() && txDesc < n && |ring| == n && |queue| + k < n && !ring[txDesc].own
      ensures Laid(n, size, ring, txDesc, frame, k, offset) && Pos(size, k) + offset == |frame|
      ensures frame != [] ==> Takes(size, frame, k)
    {
      FreeBehind(n, ring, dmaDesc, queue, true, 0);
    }

    /** The loop over the descriptors of a frame; the DMA may already be sending the first of them. */
    method TransmitSegments(ghost frame: seq<Byte>, ghost k: nat, ghost offset: nat, length: nat, bufcount: nat)
      requires Valid() && txDesc < n && |queue| + k < n && length == |frame| && bufcount == k + 1
      requires Laid(n, size, ring, txDesc, frame, k, offset) && Pos(size, k) + offset == |frame| && Takes(size, frame, k)
      modifies this
      ensures Valid() && sent == old(sent) + Cut(size, frame, k, 0, k + 1)
    {
      hide *;
      ghost var d0 := txDesc;
      ghost var start := ring;
      LaidIs(n, size, start, d0, frame, k, offset);
      LastSizeIs(size, frame, k, offset);
      CutNone(size, frame, k, 0);
      IdxZero(n, d0);
      for i := 0 to bufcount
        invariant Valid() && |ring| == n && txDesc == Idx(n, d0, i) && |queue| + (bufcount - i) <= n
        invariant sent == old(sent) + Cut(size, frame, k, 0, i)
        invariant forall j | 0 <= j < n :: ring[j].bytes == start[j].bytes
      {
        Tick();
        LaidPart(n, size, start, d0, frame, k, offset, i);
        HandOver(i == 0, i == bufcount - 1, if i == bufcount - 1 then LastSize(size, length, bufcount) else size);
        CutGrows(size, frame, k, 0, i);
        IdxNext(n, d0, i);
      }
    }

    /** All the descriptors of a frame go over to the DMA, in order, with the segment bits and sizes of
        its segments. */
    method TransmitFrame(ghost frame: seq<Byte>, ghost k: nat, ghost d: nat, ghost offset: nat, length: nat)
      returns (ok: bool)
      requires Begun(frame, k, d, offset, length) && length == |frame|
      requires length > 0 ==> At(frame, k, d, offset, length)
      modifies this
      ensures Valid() && ok == (frame != [])
      ensures if ok then Takes(size, frame, k) && sent == old(sent) + Cut(size, frame, k, 0, k + 1) else sent == old(sent)
    {
      hide Holds;
      hide Laid;
      hide Pos;
      BegunIs(frame, k, d, offset, length);
      if frame != [] { AtTakes(frame, k, d, offset); }
      if length == 0 || ring[txDesc].own { return false; }
      var bufcount := BufCount(size, length);
      BufCountIs(size, frame, k);
      if bufcount == 1 {
        PosIs(size, 0);
        LaidPart(n, size, ring, txDesc, frame, k, offset, 0);
        CutNone(size, frame, k, 0);
        CutGrows(size, frame, k, 0, 0);
        HandOver(true, true, length);
      } else {
        TransmitSegments(frame, k, offset, length, bufcount);
      }
      ok := true;
    }

    // ----- low_level_output -----

    lemma Begin(frame: seq<Byte>)
      requires Valid() && |frame| <= Pos(size, n)
      ensures Begun(frame, 0, txDesc, 0, 0) && |queue| <= n
    {
    }

    lemma Refused(frame: seq<Byte>, k: nat, d: nat, offset: nat, pos: nat, q: nat)
      requires Begun(frame, k, d, offset, pos) && |queue| <= q <= n && |queue| + k >= n
      ensures Valid() && (q == n || Pos(size, n - q) < |frame|)
    {
      hide Holds;
      hide Laid;
      if q < n { PosMonotone(size, n - q, k); }
    }

    /** Either the frame could not be placed, and the DMA has been given nothing, or the DMA has been given
        its segments and no more. The frame is refused only when the descriptors that were free on entry
        cannot hold it, or none was, and never with a DMA that always sends all it has. */
    method Output(chain: seq<seq<Byte>>) returns (err: Err, ghost k: nat)
      requires Valid() && |Concat(chain)| <= Pos(size, n)
      modifies this
      ensures Valid()
      ensures err.Busy? ==> sent == old(sent) && !Eager(n, sched)
      ensures err.Busy? ==> |old(queue)| == n || (|old(queue)| < n && Pos(size, n - |old(queue)|) < |Concat(chain)|)
      ensures err.Ok? && Concat(chain) == [] ==> sent == old(sent)
      ensures err.Ok? && Concat(chain) != [] ==>
        Takes(size, Concat(chain), k) && sent == old(sent) + Cut(size, Concat(chain), k, 0, k + 1)
    {
      hide *;
      ghost var frame := Concat(chain);
      var d: nat, offset: nat, length: nat := txDesc, 0, 0;
      k := 0;
      Begin(frame);
      ConcatNone(chain);
      for i := 0 to |chain|
        invariant Begun(frame, k, d, offset, length) && length == |Concat(chain[..i])|
        invariant i > 0 ==> At(frame, k, d, offset, length)
        invariant txDesc == old(txDesc) && sent == old(sent) && |queue| <= |old(queue)|
      {
        var free := Check(frame, k, d, offset, length);
        if !free { Refused(frame, k, d, offset, length, |old(queue)|); return Busy, k; }
        ConcatPart(chain, i);
        free, k, d, offset := CopyPbuf(chain[i], frame, k, d, offset, length);
        if !free { Refused(frame, k, d, offset, Pos(size, k), |old(queue)|); return Busy, k; }
        length := length + |chain[i]|;
        AtIs(frame, k, d, offset, length);
      }
      assert chain[..|chain|] == chain;
      var _ := TransmitFrame(frame, k, d, offset, length);
      err := Ok;
    }
  }

  lemma ConcatPart(chain: seq<seq<Byte>>, i: nat)
    requires i < |chain|
    ensures Concat(chain[..i + 1]) == Concat(chain[..i]) + chain[i]
    ensures |Concat(chain[..i])| + |chain[i]| <= |Concat(chain)|
    ensures chain[i] == Concat(chain)[|Concat(chain[..i])|..|Concat(chain[..i])| + |chain[i]|]
  {
    ConcatAppend(chain[..i], chain[i..]);
    assert chain == chain[..i] + chain[i..];
    ConcatAppend(chain[..i], [chain[i]]);
    assert chain[..i + 1] == chain[..i] + [chain[i]];
    assert Concat(chain[i..]) == chain[i] + Concat(chain[i..][1..]);
  }

  lemma ConcatNone(chain: seq<seq<Byte>>)
    ensures Concat(chain[..0]) == []
  {
  }

  lemma SliceOf(part: seq<Byte>, whole: seq<Byte>, pos: nat, a: nat, b: nat)
    requires pos + |part| <= |whole| && part == whole[pos..pos + |part|] && a <= b <= |part|
    ensures |part[a..b]| == b - a && part[a..b] == whole[pos + a..pos + a + (b - a)]
  {
    forall i | 0 <= i < b - a
      ensures part[a..b][i] == whole[pos + a + i]
    {
      assert part[a + i] == whole[pos..pos + |part|][a + i];
    }
  }
}
