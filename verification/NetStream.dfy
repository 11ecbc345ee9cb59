/** The read side of a connection: Socket::recv_from over lwIP netbufs (framework/src/kfw_net.cpp),
    BufferedStream::read over it (framework/src/kfw_io.cpp), and read_line over that
    (framework/src/kfw_web.cpp). Bytes are characters. */
module NetStream {

  const UINT32 := 0x1_0000_0000

  /** uint32_t arithmetic. */
  function Wrap32(a: int): nat { a % UINT32 }

  function Min(a: nat, b: nat): nat { if a <= b then a else b }

  // ----- netbufs -----

  /** A netbuf is a chain of fragments; netbuf_data shows the first one. */
  datatype Netbuf = Netbuf(first: string, more: seq<string>)

  function Join(parts: seq<string>): string {
    if parts == [] then "" else parts[0] + Join(parts[1..])
  }

  /** Everything the peer sent. */
  function Arrived(bufs: seq<Netbuf>): string {
    if bufs == [] then "" else bufs[0].first + Join(bufs[0].more) + Arrived(bufs[1..])
  }

  /** What can be read through netbuf_data alone. */
  function Visible(bufs: seq<Netbuf>): string {
    if bufs == [] then "" else bufs[0].first + Visible(bufs[1..])
  }

  function Lengths(bufs: seq<Netbuf>): seq<nat> {
    if bufs == [] then [] else [|bufs[0].first|] + Lengths(bufs[1..])
  }

  lemma {:induction false} VisibleIsShorter(bufs: seq<Netbuf>)
    ensures |Visible(bufs)| <= |Arrived(bufs)|
    ensures |Visible(bufs)| == |Arrived(bufs)| ==> forall i | 0 <= i < |bufs| :: Join(bufs[i].more) == ""
  {
    if bufs != [] { VisibleIsShorter(bufs[1..]); }
  }

  /** Reading through netbuf_data loses nothing iff no netbuf has bytes beyond its first fragment. */
  lemma {:induction false} VisibleIsAllIff(bufs: seq<Netbuf>)
    ensures Visible(bufs) == Arrived(bufs) <==> forall i | 0 <= i < |bufs| :: Join(bufs[i].more) == ""
  {
    if bufs != [] {
      VisibleIsAllIff(bufs[1..]);
      VisibleIsShorter(bufs);
    }
  }

  // ----- Socket::recv_from -----

  /** Bytes left per netbuf after one receive of at most n bytes. */
  function AfterReceive(pending: seq<nat>, n: nat): seq<nat>
    requires pending != []
  {
    if pending[0] <= n then pending[1..] else [pending[0] - n] + pending[1..]
  }

  class Socket {
    const incoming: seq<Netbuf>
    var next: nat          // netbufs taken by netconn_recv
    var recvBuf: int       // index of the netbuf being read, -1 for none
    var offset: nat        // bytes already read from it
    var deleted: seq<int>  // arguments of netbuf_delete, in order

    constructor (incoming: seq<Netbuf>)
      ensures Valid() && fresh(this) && this.incoming == incoming
      ensures Stream() == Visible(incoming) && Pending() == Lengths(incoming)
    {
      this.incoming, next, recvBuf, offset, deleted := incoming, 0, -1, 0, [];
    }

    /** Every netbuf taken so far was deleted exactly once, in order, except the one being read. */
    ghost predicate Valid()
      reads this
    {
      && next <= |incoming|
      && (recvBuf == -1 || (recvBuf == next - 1 >= 0 && offset <= |incoming[recvBuf].first|))
      && |deleted| == (if recvBuf < 0 then next else next - 1)
      && forall i | 0 <= i < |deleted| :: deleted[i] == i
    }

    /** The bytes still to come. */
    ghost function Stream(): string
      requires Valid()
      reads this
    {
      (if recvBuf < 0 then "" else incoming[recvBuf].first[offset..]) + Visible(incoming[next..])
    }

    /** The same, as bytes left per netbuf. */
    ghost function Pending(): seq<nat>
      requires Valid()
      reads this
    {
      (if recvBuf < 0 then [] else [|incoming[recvBuf].first| - offset]) + Lengths(incoming[next..])
    }

    /** netconn_recv: take the next netbuf, or fail when there is none. */
    method Take() returns (ok: bool)
      requires Valid() && recvBuf == -1
      modifies this
      ensures Valid() && Stream() == old(Stream()) && Pending() == old(Pending())
      ensures ok == (recvBuf != -1) == (old(Pending()) != [])
    {
      if next == |incoming| { return false; }
      offset := 0;
      recvBuf := next;
      next := next + 1;
      assert incoming[next - 1..][1..] == incoming[next..];
      return true;
    }

    /** Copy from the netbuf being read, and delete it when it is used up. */
    method Consume(size: nat) returns (data: string)
      requires Valid() && recvBuf != -1 && size > 0
      modifies this
      ensures Valid() && old(Stream()) == data + Stream()
      ensures old(Pending()) != [] && |data| == Min(size, old(Pending())[0])
      ensures Pending() == AfterReceive(old(Pending()), size)
    {
      hide Visible;
      hide Lengths;
      var first := incoming[recvBuf].first;
      var copy := Min(size, |first| - offset);
      data := first[offset..offset + copy];
      assert first[offset..] == data + first[offset + copy..];
      offset := offset + copy;
      if offset == |first| {
        deleted := deleted + [recvBuf];
        recvBuf := -1;
      }
    }

    method Receive(size: nat) returns (ok: bool, data: string)
      requires Valid()
      modifies this
      ensures Valid() && old(Stream()) == data + Stream()
      ensures size == 0 ==> ok && data == "" && Pending() == old(Pending())
      ensures size > 0 ==> ok == (old(Pending()) != [])
      ensures size > 0 && ok ==> |data| == Min(size, old(Pending())[0]) && Pending() == AfterReceive(old(Pending()), size)
      ensures !ok ==> data == "" && Pending() == old(Pending())
    {
      hide Stream;
      hide Pending;
      hide AfterReceive;
      ok, data := true, "";
      var remain := size;
      while remain > 0
        invariant Valid() && data == "" && ok && remain == size
        invariant Stream() == old(Stream()) && Pending() == old(Pending())
        decreases if recvBuf < 0 then 1 else 0
      {
        if recvBuf != -1 {
          data := Consume(size);
          break;
        } else {
          ok := Take();
          if !ok { break; }
        }
      }
    }
  }

  // ----- BufferedStream::read -----

  /** What one call of read does, in counts: success, the count it returns, the bytes it really
      copied to the caller, bytes left in the buffer, and bytes left per netbuf. */
  datatype Counts = Counts(ok: bool, val: nat, copied: nat, buffered: nat, pending: seq<nat>)

  function Total(pending: seq<nat>): nat {
    if pending == [] then 0 else 1 + pending[0] + Total(pending[1..])
  }

  lemma AfterReceiveShrinks(pending: seq<nat>, n: nat)
    requires pending != [] && n > 0
    ensures Total(AfterReceive(pending, n)) < Total(pending)
  {
  }

  /** The loop of read: size asked for, remain as its 32-bit counter, copied so far. */
  function ReadCounts(room: nat, size: nat, buffered: nat, remain: nat, copied: nat, pending: seq<nat>): Counts
    requires size > 0
    decreases Total(pending), buffered
  {
    if remain == 0 then Counts(true, size, copied, buffered, pending)
    else if buffered > 0 then
      var c := Min(size, buffered);
      ReadCounts(room, size, buffered - c, Wrap32(remain - c), copied + c, pending)
    else if remain > room then
      if pending == [] then Counts(false, 0, copied, 0, pending)
      else
        var c := Min(remain, pending[0]);
        Counts(true, c, copied + c, 0, AfterReceive(pending, remain))
    else if pending == [] then Counts(false, Wrap32(size - remain), copied, 0, pending)
    else
      AfterReceiveShrinks(pending, room);
      ReadCounts(room, size, Min(room, pending[0]), remain, copied, AfterReceive(pending, room))
  }

  class BufferedStream {
    const base: Socket
    const buf: array<char>
    var rp: nat
    var wp: nat

    constructor (base: Socket, buf: array<char>)
      requires base.Valid()
      ensures Valid() && this.base == base && this.buf == buf && Logical() == base.Stream() && rp == wp
    {
      this.base, this.buf, rp, wp := base, buf, 0, 0;
    }

    ghost predicate Valid()
      reads this, base
    {
      base.Valid() && rp <= wp <= buf.Length
    }

    /** The bytes a reader has not seen yet: buffered ones first. */
    ghost function Logical(): string
      requires Valid()
      reads this, base, buf
    {
      buf[rp..wp] + base.Stream()
    }

    /** Bypass the empty buffer. */
    method ReceiveDirect(size: nat) returns (ok: bool, data: string)
      requires Valid() && rp == wp && size > 0
      modifies base
      ensures Valid() && old(Logical()) == data + Logical()
      ensures ok == (old(base.Pending()) != [])
      ensures ok ==> |data| == Min(size, old(base.Pending())[0]) && base.Pending() == AfterReceive(old(base.Pending()), size)
      ensures !ok ==> data == "" && base.Pending() == old(base.Pending())
    {
      ok, data := base.Receive(size);
    }

    method Refill() returns (ok: bool)
      requires Valid() && rp == wp && buf.Length > 0
      modifies this, base, buf
      ensures Valid() && Logical() == old(Logical())
      ensures ok == (old(base.Pending()) != [])
      ensures rp <= wp && (ok ==> wp - rp == Min(buf.Length, old(base.Pending())[0]))
      ensures ok ==> base.Pending() == AfterReceive(old(base.Pending()), buf.Length)
      ensures !ok ==> rp == wp && base.Pending() == old(base.Pending())
    {
      var data;
      ok, data := base.Receive(buf.Length);
      if ok {
        forall i | 0 <= i < |data| { buf[i] := data[i]; }
        rp, wp := 0, |data|;
        assert buf[rp..wp] == data;
      }
    }

    /** Copy bytes out of the buffer, at most as many as the caller originally asked for. */
    method CopyOut(size: nat) returns (data: string)
      requires Valid() && rp < wp
      modifies this
      ensures Valid() && old(Logical()) == data + Logical() && base.Pending() == old(base.Pending())
      ensures rp <= wp && |data| == Min(size, old(wp - rp)) && wp - rp == old(wp - rp) - |data|
    {
      var copy := size;
      if copy > wp - rp { copy := wp - rp; }
      assert buf[rp..wp] == buf[rp..rp + copy] + buf[rp + copy..wp];
      data := buf[rp..rp + copy];
      rp := rp + copy;
    }

    /** written is what was copied to the caller's memory, from its start on; val is the count returned.
        Bytes are never lost or reordered, and the counts are those of ReadCounts. */
    method Read(size: nat) returns (ok: bool, val: nat, written: string)
      requires Valid() && size < UINT32 && buf.Length < UINT32
      modifies this, base, buf
      ensures Valid() && old(Logical()) == written + Logical()
      ensures size == 0 ==> ok && val == 0 && written == ""
      ensures size > 0 ==>
        Counts(ok, val, |written|, wp - rp, base.Pending())
        == ReadCounts(buf.Length, size, old(wp - rp), size, 0, old(base.Pending()))
    {
      hide *;
      ok, written := true, "";
      ghost var all := Logical();
      if size == 0 { return true, 0, ""; }
      var remain: nat := size;
      ValidIs();
      ghost var goal := ReadCounts(buf.Length, size, wp - rp, size, 0, base.Pending());
      while remain > 0
        invariant Valid() && base.Valid() && rp <= wp && ok && all == written + Logical()
        invariant ReadCounts(buf.Length, size, wp - rp, remain, |written|, base.Pending()) == goal
        decreases Total(base.Pending()), wp - rp
      {
        UnfoldReadCounts(buf.Length, size, wp - rp, remain, |written|, base.Pending());
        if wp - rp > 0 {
          var data := CopyOut(size);
          Shift(all, written, data, Logical());
          written := written + data;
          remain := Wrap32(remain - |data|);
        } else if remain > buf.Length {
          var data;
          ok, data := ReceiveDirect(remain);
          Shift(all, written, data, Logical());
          written := written + data;
          return ok, |data|, written;
        } else {
          if base.Pending() != [] { AfterReceiveShrinks(base.Pending(), buf.Length); }
          ok := Refill();
          if !ok { break; }
        }
        ValidIs();
      }
      UnfoldReadCounts(buf.Length, size, wp - rp, 1, |written|, base.Pending());
      val := Wrap32(size - remain);
    }

    lemma ValidIs()
      requires Valid()
      ensures base.Valid() && rp <= wp <= buf.Length
    {
    }
  }

  lemma UnfoldReadCounts(room: nat, size: nat, buffered: nat, remain: nat, copied: nat, pending: seq<nat>)
    requires size > 0 && remain > 0
    ensures buffered > 0 ==> Min(size, buffered) > 0
    ensures size < UINT32 ==> Wrap32(size - 0) == size
    ensures ReadCounts(room, size, buffered, remain, copied, pending)
            == if buffered > 0 then
                 ReadCounts(room, size, buffered - Min(size, buffered), Wrap32(remain - Min(size, buffered)),
                            copied + Min(size, buffered), pending)
               else if remain > room then
                 if pending == [] then Counts(false, 0, copied, 0, pending)
                 else Counts(true, Min(remain, pending[0]), copied + Min(remain, pending[0]), 0, AfterReceive(pending, remain))
               else if pending == [] then Counts(false, Wrap32(size - remain), copied, 0, pending)
               else ReadCounts(room, size, Min(room, pending[0]), remain, copied, AfterReceive(pending, room))
    ensures ReadCounts(room, size, buffered, 0, copied, pending) == Counts(true, size, copied, buffered, pending)
  {
  }

  lemma Shift(all: string, a: string, b: string, c: string)
    requires all == a + (b + c)
    ensures all == (a + b) + c
  {
  }
}
