/** SntpClientService::do_sync (framework/src/kfw_net_ntp.cpp): four SNTP exchanges, their averaged
    clock offset, and how close that brings the clock to the server's. */
module Sntp {
  import opened Arith
  import Calendar

  const NTP_UTC_OFFSET := 2208988800
  const UINT32 := 0x1_0000_0000

  const PACKET := 48

  // ----- decoding -----

  /** Big-endian 32-bit word. */
  function Word(data: seq<Byte>, i: nat): (w: nat)
    requires i + 4 <= |data|
    ensures w < UINT32
  {
    0x100_0000 * data[i] as int + 0x1_0000 * data[i + 1] as int + 0x100 * data[i + 2] as int + data[i + 3] as int
  }

  /** An NTP timestamp in whole milliseconds since 1970, the fraction truncated. */
  function Millis(sec: nat, frac: nat): int {
    (sec - NTP_UTC_OFFSET) * 1000 + frac * 1000 / UINT32
  }

  /** The instant the timestamp denotes, in milliseconds since 1970: NTP counts seconds from 1900-01-01
      (section 3 of RFC 4330). */
  ghost function Instant(sec: nat, frac: nat): real {
    ((Calendar.DayNumber(Calendar.Date(1900, 1, 1)) * 86400 + sec) * 1000) as real + (frac * 1000) as real / 4294967296.0
  }

  /** The source's constant is the number of seconds from 1900-01-01 to 1970-01-01 in the calendar. */
  lemma NtpEpoch()
    ensures Calendar.DayNumber(Calendar.Date(1900, 1, 1)) * 86400 == -NTP_UTC_OFFSET
  {
    DaysBack(1901);
    assert Calendar.DaysBeforeYear(1900) == Calendar.DaysBeforeYear(1901) - 365;
  }

  lemma {:induction false} DaysBack(y: int)
    requires 1901 <= y <= 1970
    ensures Calendar.DaysBeforeYear(y) == -365 * (1970 - y) - (492 - (y - 1) / 4)
    decreases 1970 - y
  {
    if y < 1970 { DaysBack(y + 1); }
  }

  lemma InstantIs(sec: nat, frac: nat)
    ensures Instant(sec, frac) == ((sec - NTP_UTC_OFFSET) * 1000) as real + (frac * 1000) as real / UINT32 as real
  {
    NtpEpoch();
  }

  /** The offset of one exchange, from the client's times and the server's packet. */
  function Offset(sent: int, data: seq<Byte>, received: int): int
    requires |data| == PACKET
  {
    var srvRecv := Millis(Word(data, 32), Word(data, 36));
    var srvSend := Millis(Word(data, 40), Word(data, 44));
    Quot(srvRecv - sent, 2) - Quot(received - srvSend, 2)
  }

  /** A 32-bit word, most significant byte first. */
  function BigEndian(w: nat): (b: seq<Byte>)
    requires w < UINT32
    ensures |b| == 4
  {
    [w / 0x100_0000, w / 0x1_0000 % 0x100, w / 0x100 % 0x100, w % 0x100]
  }

  lemma WordAt(before: seq<Byte>, w: nat, after: seq<Byte>)
    requires w < UINT32
    ensures Word(before + BigEndian(w) + after, |before|) == w
  {
    var d := before + BigEndian(w) + after;
    forall i | 0 <= i < 4
      ensures d[|before| + i] == BigEndian(w)[i]
    {
    }
    var a1 := w / 0x100;
    var a2 := a1 / 0x100;
    var a3 := a2 / 0x100;
    DivModIs(w, 0x1_0000, a2, 0x100 * (a1 % 0x100) + w % 0x100);
    DivModIs(w, 0x100_0000, a3, 0x1_0000 * (a2 % 0x100) + 0x100 * (a1 % 0x100) + w % 0x100);
  }

  /** A reply is 32 bytes of other fields, then the time the server received the request, then the time it
      sent the reply (section 4 of RFC 4330). */
  function Packet(head: seq<Byte>, recvSec: nat, recvFrac: nat, sendSec: nat, sendFrac: nat): seq<Byte>
    requires |head| == 32 && recvSec < UINT32 && recvFrac < UINT32 && sendSec < UINT32 && sendFrac < UINT32
  {
    head + BigEndian(recvSec) + BigEndian(recvFrac) + BigEndian(sendSec) + BigEndian(sendFrac)
  }

  /** The four words are read from where the packet has them. */
  lemma PacketWords(head: seq<Byte>, recvSec: nat, recvFrac: nat, sendSec: nat, sendFrac: nat)
    requires |head| == 32 && recvSec < UINT32 && recvFrac < UINT32 && sendSec < UINT32 && sendFrac < UINT32
    ensures var d := Packet(head, recvSec, recvFrac, sendSec, sendFrac);
            && |d| == PACKET && Word(d, 32) == recvSec && Word(d, 36) == recvFrac
            && Word(d, 40) == sendSec && Word(d, 44) == sendFrac
  {
    hide BigEndian;
    hide Word;
    var a, b, c, e := BigEndian(recvSec), BigEndian(recvFrac), BigEndian(sendSec), BigEndian(sendFrac);
    var d := Packet(head, recvSec, recvFrac, sendSec, sendFrac);
    WordAt(head, recvSec, b + c + e);
    WordAt(head + a, recvFrac, c + e);
    WordAt(head + a + b, sendSec, e);
    WordAt(head + a + b + c, sendFrac, []);
    assert d == head + a + (b + c + e) && d == (head + a) + b + (c + e) && d == (head + a + b + c) + e + [];
  }

  /** The offset is half the time from sending to the server's receipt, less half the time from the
      server's reply to its receipt. */
  lemma OffsetOfPacket(sent: int, head: seq<Byte>, recvSec: nat, recvFrac: nat, sendSec: nat, sendFrac: nat, received: int)
    requires |head| == 32 && recvSec < UINT32 && recvFrac < UINT32 && sendSec < UINT32 && sendFrac < UINT32
    ensures var d := Packet(head, recvSec, recvFrac, sendSec, sendFrac);
            && |d| == PACKET
            && Offset(sent, d, received)
               == Quot(Millis(recvSec, recvFrac) - sent, 2) + Quot(Millis(sendSec, sendFrac) - received, 2)
  {
    hide Word;
    PacketWords(head, recvSec, recvFrac, sendSec, sendFrac);
  }

  function Average(offsets: seq<int>): int
    requires |offsets| == 4
  {
    Quot(offsets[0], 4) + Quot(offsets[1], 4) + Quot(offsets[2], 4) + Quot(offsets[3], 4)
  }

  // ----- the exchange loop -----

  /** What the k-th pass meets: a failing send, a failing receive, or a reply that fills the receive
      buffer up to its length. */
  datatype Exchange = SendFails(err: int) | ReceiveFails(err: int) | Reply(sent: int, packet: seq<Byte>, received: int)

  type Network = nat -> Exchange

  /** The receive buffer keeps its old bytes behind a short packet. */
  function Overlay(data: seq<Byte>, packet: seq<Byte>): (r: seq<Byte>)
    requires |data| == PACKET
    ensures |r| == PACKET
  {
    if |packet| >= PACKET then packet[..PACKET] else packet + data[|packet|..]
  }

  datatype SyncResult = Synced(exchanges: nat, offsets: seq<int>) | GaveUp(exchanges: nat, err: int)

  /** The loop from pass k on, with the offsets and the number of errors so far. */
  function Sync(net: Network, data: seq<Byte>, k: nat, offsets: seq<int>, errors: nat): SyncResult
    requires |data| == PACKET && |offsets| < 4 && errors < 3
    decreases 7 - |offsets| - errors
  {
    match net(k)
    case Reply(sent, packet, received) =>
      var data' := Overlay(data, packet);
      var offsets' := offsets + [Offset(sent, data', received)];
      if |offsets'| >= 4 then Synced(k + 1, offsets') else Sync(net, data', k + 1, offsets', errors)
    case SendFails(err) => if errors + 1 >= 3 then GaveUp(k + 1, err) else Sync(net, data, k + 1, offsets, errors + 1)
    case ReceiveFails(err) => if errors + 1 >= 3 then GaveUp(k + 1, err) else Sync(net, data, k + 1, offsets, errors + 1)
  }

  datatype Ret = Ok | Error(err: int)

  /** The static clock of Rtc. */
  class Rtc {
    var time: int
    var isSynced: bool

    method Sync(t: int)
      modifies this
      ensures time == t && isSynced
    {
      time, isSynced := t, true;
    }
  }

  /** do_sync: on success the clock moves by the average of four offsets, otherwise it is left alone.
      At the end of the loop the clock shows rtc.time. */
  method DoSync(rtc: Rtc, dns: Ret, client: Ret, net: Network, buffer: array<Byte>) returns (ret: Ret, ghost result: SyncResult)
    requires buffer.Length == PACKET
    modifies rtc, buffer
    ensures dns.Error? ==> ret == dns && rtc.time == old(rtc.time) && rtc.isSynced == old(rtc.isSynced)
    ensures dns.Ok? && client.Error? ==> ret == client && rtc.time == old(rtc.time) && rtc.isSynced == old(rtc.isSynced)
    ensures dns.Ok? && client.Ok? ==>
      && result == Sync(net, old(buffer[..]), 0, [], 0)
      && (result.GaveUp? ==> ret == Error(result.err) && rtc.time == old(rtc.time) && rtc.isSynced == old(rtc.isSynced))
      && (result.Synced? ==> ret == Ok && |result.offsets| == 4 && rtc.isSynced
                             && rtc.time == old(rtc.time) + Average(result.offsets))
  {
    hide Offset;
    hide Overlay;
    hide Quot;
    result := GaveUp(0, 0);
    if dns.Error? { return dns, result; }
    if client.Error? { return client, result; }
    var okCnt, errorCnt, k := 0, 0, 0;
    var offsets := new int[4];
    ghost var goal := Sync(net, buffer[..], 0, [], 0);
    assert offsets[..0] == [];
    while true
      invariant 0 <= okCnt < 4 && 0 <= errorCnt < 3 && 0 <= k
      invariant Sync(net, buffer[..], k, offsets[..okCnt], errorCnt) == goal
      invariant rtc.time == old(rtc.time) && rtc.isSynced == old(rtc.isSynced)
      decreases 7 - okCnt - errorCnt
    {
      var e := net(k);
      k := k + 1;
      if !e.Reply? {
        errorCnt := errorCnt + 1;
        if errorCnt >= 3 { return Error(e.err), goal; }
        continue;
      }
      Receive(buffer, e.packet);
      ghost var before := offsets[..okCnt];
      offsets[okCnt] := Offset(e.sent, buffer[..], e.received);
      okCnt := okCnt + 1;
      assert offsets[..okCnt] == before + [Offset(e.sent, buffer[..], e.received)];
      if okCnt >= 4 { break; }
    }
    assert offsets[..4] == offsets[..];
    result := goal;
    var average := Quot(offsets[0], 4) + Quot(offsets[1], 4) + Quot(offsets[2], 4) + Quot(offsets[3], 4);
    rtc.Sync(rtc.time + average);
    ret := Ok;
  }

  method Receive(buffer: array<Byte>, packet: seq<Byte>)
    requires buffer.Length == PACKET
    modifies buffer
    ensures buffer[..] == Overlay(old(buffer[..]), packet)
    ensures forall i | 0 <= i < 48 :: buffer[i] == if i < |packet| then packet[i] else old(buffer[i])
  {
    forall i | 0 <= i < |packet| && i < PACKET { buffer[i] := packet[i]; }
  }

  // ----- how often it tries, and when it gives up -----

  /** Failing exchanges among the passes from to from + n - 1. */
  ghost function Errors(net: Network, from: nat, n: nat): nat
    decreases n
  {
    if n == 0 then 0 else (if net(from).Reply? then 0 else 1) + Errors(net, from + 1, n - 1)
  }

  lemma {:induction false} ErrorsAtMost(net: Network, from: nat, n: nat)
    ensures Errors(net, from, n) <= n
    decreases n
  {
    if n > 0 { ErrorsAtMost(net, from + 1, n - 1); }
  }

  lemma {:induction false} SyncCounts(net: Network, data: seq<Byte>, k: nat, offsets: seq<int>, errors: nat)
    requires |data| == PACKET && |offsets| < 4 && errors < 3
    ensures var r, left := Sync(net, data, k, offsets, errors), 6 - |offsets| - errors;
            && k < r.exchanges <= k + left
            && (r.GaveUp? <==> errors + Errors(net, k, left) >= 3)
            && (r.Synced? ==> |r.offsets| == 4)
    decreases 7 - |offsets| - errors
  {
    hide Offset;
    hide Overlay;
    var left := 6 - |offsets| - errors;
    ErrorsAtMost(net, k + 1, left - 1);
    match net(k)
    case Reply(sent, packet, received) =>
      var data' := Overlay(data, packet);
      if |offsets| < 3 { SyncCounts(net, data', k + 1, offsets + [Offset(sent, data', received)], errors); }
    case _ =>
      if errors < 2 { SyncCounts(net, data, k + 1, offsets, errors + 1); }
  }

  /** At most six exchanges take place, and the call fails iff at least three of the first six fail,
      that is, iff a third error comes before the fourth success. */
  lemma GivesUpIff(net: Network, data: seq<Byte>)
    requires |data| == PACKET
    ensures var r := Sync(net, data, 0, [], 0);
            1 <= r.exchanges <= 6 && (r.GaveUp? <==> Errors(net, 0, 6) >= 3)
  {
    hide Sync;
    hide Errors;
    SyncCounts(net, data, 0, [], 0);
  }

  /** The error returned is that of the third failing exchange, which is the last one made. */
  lemma {:induction false} GivesUpWith(net: Network, data: seq<Byte>, k: nat, offsets: seq<int>, errors: nat)
    requires |data| == PACKET && |offsets| < 4 && errors < 3
    ensures var r := Sync(net, data, k, offsets, errors);
            r.GaveUp? ==>
              && r.exchanges > k && !net(r.exchanges - 1).Reply? && r.err == net(r.exchanges - 1).err
              && errors + Errors(net, k, r.exchanges - k) == 3
    decreases 7 - |offsets| - errors
  {
    hide Offset;
    hide Overlay;
    match net(k)
    case Reply(sent, packet, received) =>
      var data' := Overlay(data, packet);
      if |offsets| < 3 { GivesUpWith(net, data', k + 1, offsets + [Offset(sent, data', received)], errors); }
    case _ =>
      if errors < 2 { GivesUpWith(net, data, k + 1, offsets, errors + 1); } else { assert Errors(net, k, 1) == 1; }
  }

  // ----- accuracy -----

  lemma MultipleOfEight(frac: nat, q: int, r: int, k: int)
    requires frac * 1000 == UINT32 * q + r && 0 <= r < UINT32 && k == frac * 125 - 536870912 * q
    ensures r == 8 * k && r <= UINT32 - 8
  {
  }

  lemma RealParts(n: int, q: int, r: int)
    requires n == UINT32 * q + r
    ensures n as real / UINT32 as real == q as real + r as real / UINT32 as real
  {
    assert n as real == UINT32 as real * q as real + r as real;
  }

  /** Decoding loses less than a millisecond, in steps of 2^-29. */
  lemma DecodingLoss(sec: nat, frac: nat)
    requires frac < UINT32
    ensures 0.0 <= Instant(sec, frac) - Millis(sec, frac) as real <= 1.0 - 1.0 / 536870912.0
  {
    InstantIs(sec, frac);
    var q, r := frac * 1000 / UINT32, frac * 1000 % UINT32;
    MultipleOfEight(frac, q, r, frac * 125 - 536870912 * q);
    RealParts(frac * 1000, q, r);
  }

  lemma HalfLoss(a: int)
    ensures -0.5 <= Quot(a, 2) as real - a as real / 2.0 <= 0.5
  {
  }

  lemma QuarterLoss(a: int)
    ensures -0.75 <= Quot(a, 4) as real - a as real / 4.0 <= 0.75
  {
  }

  /** Time the request travelled, when the server's clock is t ahead of the client's. */
  ghost function OutDelay(sent: int, data: seq<Byte>, t: real): real
    requires |data| == PACKET
  {
    Instant(Word(data, 32), Word(data, 36)) - (sent as real + t)
  }

  /** Time the reply travelled. */
  ghost function BackDelay(data: seq<Byte>, received: int, t: real): real
    requires |data| == PACKET
  {
    received as real + t - Instant(Word(data, 40), Word(data, 44))
  }

  ghost function Asymmetry(sent: int, data: seq<Byte>, received: int, t: real): real
    requires |data| == PACKET
  {
    OutDelay(sent, data, t) - BackDelay(data, received, t)
  }

  /** What decoding the two timestamps of a packet loses is at most loss, in milliseconds each. */
  ghost predicate LosesAtMost(data: seq<Byte>, loss: real)
    requires |data| == PACKET
  {
    && Instant(Word(data, 32), Word(data, 36)) - Millis(Word(data, 32), Word(data, 36)) as real <= loss
    && Instant(Word(data, 40), Word(data, 44)) - Millis(Word(data, 40), Word(data, 44)) as real <= loss
  }

  /** One offset is the true one, shifted by half the asymmetry of the delays, within -1 - loss to 1 ms. */
  lemma OffsetError(sent: int, data: seq<Byte>, received: int, t: real, loss: real)
    requires |data| == PACKET && LosesAtMost(data, loss)
    ensures -1.0 - loss
         <= Offset(sent, data, received) as real - t - Asymmetry(sent, data, received, t) / 2.0
         <= 1.0
  {
    hide Millis;
    hide Instant;
    hide Word;
    hide Quot;
    var sr, ss := Millis(Word(data, 32), Word(data, 36)), Millis(Word(data, 40), Word(data, 44));
    DecodingLoss(Word(data, 32), Word(data, 36));
    DecodingLoss(Word(data, 40), Word(data, 44));
    HalfLoss(sr - sent);
    HalfLoss(received - ss);
    assert (sr - sent) as real == sr as real - sent as real;
    assert (received - ss) as real == received as real - ss as real;
  }

  /** Every reply is a whole packet whose delays differ by at most m. */
  ghost predicate Honest(net: Network, t: real, m: real, loss: real) {
    forall k :: net(k).Reply? ==>
      var e := net(k);
      |e.packet| == PACKET && LosesAtMost(e.packet, loss) && -m <= Asymmetry(e.sent, e.packet, e.received, t) <= m
  }

  ghost predicate Near(offset: int, t: real, m: real, loss: real) {
    -1.0 - loss - m / 2.0 <= offset as real - t <= 1.0 + m / 2.0
  }

  lemma {:induction false} OffsetsNear(net: Network, data: seq<Byte>, k: nat, offsets: seq<int>, errors: nat, t: real, m: real,
                                       loss: real)
    requires |data| == PACKET && |offsets| < 4 && errors < 3 && Honest(net, t, m, loss)
    requires forall i | 0 <= i < |offsets| :: Near(offsets[i], t, m, loss)
    ensures var r := Sync(net, data, k, offsets, errors);
            r.Synced? ==> |r.offsets| == 4 && forall i | 0 <= i < 4 :: Near(r.offsets[i], t, m, loss)
    decreases 7 - |offsets| - errors
  {
    hide Offset;
    hide Asymmetry;
    hide LosesAtMost;
    match net(k)
    case Reply(sent, packet, received) =>
      OffsetError(sent, packet, received, t, loss);
      var data' := Overlay(data, packet);
      assert data' == packet;
      var offsets' := offsets + [Offset(sent, data', received)];
      if |offsets'| < 4 { OffsetsNear(net, data', k + 1, offsets', errors, t, m, loss); }
    case _ =>
      if errors < 2 { OffsetsNear(net, data, k + 1, offsets, errors + 1, t, m, loss); }
  }

  /** Against a server whose clock is t ahead, with delays that differ by at most m either way, the
      averaged offset misses t by at most m / 2 + 4 ms above and m / 2 + 4 + loss ms below. */
  lemma SyncAccurate(net: Network, data: seq<Byte>, t: real, m: real, loss: real)
    requires |data| == PACKET && Honest(net, t, m, loss)
    ensures var r := Sync(net, data, 0, [], 0);
            r.Synced? ==>
              |r.offsets| == 4 && -4.0 - loss - m / 2.0 <= Average(r.offsets) as real - t <= 4.0 + m / 2.0
  {
    hide Sync;
    hide Honest;
    hide Quot;
    OffsetsNear(net, data, 0, [], 0, t, m, loss);
    var r := Sync(net, data, 0, [], 0);
    if r.Synced? {
      QuarterLoss(r.offsets[0]);
      QuarterLoss(r.offsets[1]);
      QuarterLoss(r.offsets[2]);
      QuarterLoss(r.offsets[3]);
    }
  }

  // ----- both bounds are reached -----

  /** A packet that carries one timestamp in both places. */
  function Stamped(stamp: seq<Byte>): (data: seq<Byte>)
    requires |stamp| == 8
    ensures |data| == PACKET
  {
    seq(32, _ => 0) + stamp + stamp
  }

  lemma StampedWords(stamp: seq<Byte>)
    requires |stamp| == 8
    ensures var d := Stamped(stamp);
            && Word(d, 32) == Word(d, 40) == Word(stamp, 0) && Word(d, 36) == Word(d, 44) == Word(stamp, 4)
  {
  }

  /** What decoding a timestamp loses, in milliseconds. */
  ghost function LossOf(stamp: seq<Byte>): real
    requires |stamp| == 8
  {
    Instant(Word(stamp, 0), Word(stamp, 4)) - Millis(Word(stamp, 0), Word(stamp, 4)) as real
  }

  /** For every timestamp there are replies, with equal delays and odd time differences ahead of the
      client, for which the error is the lower bound for that timestamp's loss. */
  lemma LowerBoundReached(net: Network, data: seq<Byte>, stamp: seq<Byte>)
    requires |data| == PACKET && |stamp| == 8
    requires var s := Millis(Word(stamp, 0), Word(stamp, 4)); forall k :: net(k) == Reply(s - 5, Stamped(stamp), s - 3)
    ensures var t := 4.0 + LossOf(stamp);
            var r := Sync(net, data, 0, [], 0);
            && Honest(net, t, 0.0, LossOf(stamp))
            && r.Synced? && |r.offsets| == 4 && Average(r.offsets) as real - t == -4.0 - LossOf(stamp)
  {
    hide Stamped;
    hide Millis;
    hide Instant;
    hide Word;
    hide Sync;
    var s := Millis(Word(stamp, 0), Word(stamp, 4));
    StampedWords(stamp);
    FourEqual(net, data, s - 5, Stamped(stamp), s - 3, 3);
  }

  /** Whatever the network does within its bounds, the average misses by at most 4 + m / 2 ms. */
  ghost predicate WithinFour(loss: real) {
    forall net: Network, data: seq<Byte>, t: real, m: real | |data| == PACKET && Honest(net, t, m, loss) ::
      FourClose(Sync(net, data, 0, [], 0), t, m)
  }

  ghost predicate FourClose(r: SyncResult, t: real, m: real) {
    r.Synced? ==> |r.offsets| == 4 && -4.0 - m / 2.0 <= Average(r.offsets) as real - t <= 4.0 + m / 2.0
  }

  /** The least loss that is not zero: losses come in steps of 2^-29. */
  const LEAST_LOSS := 1.0 / 536870912.0

  lemma LossSteps(sec: nat, frac: nat)
    requires frac < UINT32
    ensures var l := Instant(sec, frac) - Millis(sec, frac) as real; l == 0.0 || l >= LEAST_LOSS
  {
    InstantIs(sec, frac);
    var q, r := frac * 1000 / UINT32, frac * 1000 % UINT32;
    MultipleOfEight(frac, q, r, frac * 125 - 536870912 * q);
    RealParts(frac * 1000, q, r);
  }

  lemma NoLoss(net: Network, t: real, m: real, loss: real)
    requires Honest(net, t, m, loss) && loss < LEAST_LOSS
    ensures Honest(net, t, m, 0.0)
  {
    hide Instant;
    hide Millis;
    hide Word;
    hide Asymmetry;
    forall k | net(k).Reply?
      ensures |net(k).packet| == PACKET && LosesAtMost(net(k).packet, 0.0)
    {
      var p := net(k).packet;
      LossSteps(Word(p, 32), Word(p, 36));
      LossSteps(Word(p, 40), Word(p, 44));
    }
  }

  /** The 4 ms bound holds iff decoding cannot lose anything. */
  lemma FourMillisIff(loss: real)
    requires loss >= 0.0
    ensures WithinFour(loss) <==> loss < LEAST_LOSS
  {
    hide Sync;
    hide Honest;
    hide Average;
    if loss < LEAST_LOSS {
      forall net: Network, data: seq<Byte>, t: real, m: real | |data| == PACKET && Honest(net, t, m, loss)
        ensures FourClose(Sync(net, data, 0, [], 0), t, m)
      {
        NoLoss(net, t, m, loss);
        SyncAccurate(net, data, t, m, 0.0);
      }
    } else {
      LeastLossBreaks(loss);
    }
  }

  /** A fraction of 115964117 / 2^32 s is 27 ms and the least loss. */
  lemma LeastLossBreaks(loss: real)
    requires loss >= LEAST_LOSS
    ensures !WithinFour(loss)
  {
    hide Sync;
    hide Honest;
    hide Average;
    hide Stamped;
    var stamp: seq<Byte> := [131, 170, 126, 128, 6, 233, 120, 213];
    LeastLossStamp(stamp);
    var s := Millis(Word(stamp, 0), Word(stamp, 4));
    var net: Network := (k: nat) => Reply(s - 5, Stamped(stamp), s - 3);
    var data := Stamped(stamp);
    LowerBoundReached(net, data, stamp);
    HonestWeakens(net, 4.0 + LossOf(stamp), 0.0, LossOf(stamp), loss);
    assert !FourClose(Sync(net, data, 0, [], 0), 4.0 + LossOf(stamp), 0.0);
  }

  lemma LeastLossStamp(stamp: seq<Byte>)
    requires stamp == [131, 170, 126, 128, 6, 233, 120, 213]
    ensures LossOf(stamp) == LEAST_LOSS
  {
    assert Word(stamp, 0) == 2208988800 && Word(stamp, 4) == 115964117;
    InstantIs(2208988800, 115964117);
  }

  lemma HonestWeakens(net: Network, t: real, m: real, a: real, b: real)
    requires Honest(net, t, m, a) && a <= b
    ensures Honest(net, t, m, b)
  {
    hide Asymmetry;
    hide Instant;
    hide Millis;
    hide Word;
  }

  /** For the loss of any one timestamp: the bound holds iff that timestamp is decoded exactly. */
  lemma StampWithinFourIff(stamp: seq<Byte>)
    requires |stamp| == 8
    ensures WithinFour(LossOf(stamp)) <==> LossOf(stamp) == 0.0
  {
    hide WithinFour;
    hide Instant;
    hide Millis;
    hide Word;
    DecodingLoss(Word(stamp, 0), Word(stamp, 4));
    LossSteps(Word(stamp, 0), Word(stamp, 4));
    FourMillisIff(LossOf(stamp));
  }

  /** After a successful do_sync the clock shows the server's time, which is t ahead, within the bounds. */
  method SyncToServer(rtc: Rtc, dns: Ret, client: Ret, net: Network, buffer: array<Byte>, ghost t: real, ghost m: real,
                      ghost loss: real)
    returns (ret: Ret)
    requires buffer.Length == PACKET && Honest(net, t, m, loss)
    modifies rtc, buffer
    ensures ret.Ok? ==>
      rtc.isSynced && -4.0 - loss - m / 2.0 <= rtc.time as real - (old(rtc.time) as real + t) <= 4.0 + m / 2.0
    ensures !ret.Ok? ==> rtc.time == old(rtc.time) && rtc.isSynced == old(rtc.isSynced)
    ensures dns.Ok? && client.Ok? ==> (ret.Ok? <==> Errors(net, 0, 6) < 3)
  {
    hide *;
    SyncAccurate(net, buffer[..], t, m, loss);
    GivesUpIff(net, buffer[..]);
    ghost var result;
    ret, result := DoSync(rtc, dns, client, net, buffer);
  }

  /** The mirror image: replies behind the client for which the error is 4 ms less the timestamp's loss, so
      that a timestamp decoded exactly reaches the upper bound. */
  lemma UpperBoundReached(net: Network, data: seq<Byte>, stamp: seq<Byte>)
    requires |data| == PACKET && |stamp| == 8
    requires var s := Millis(Word(stamp, 0), Word(stamp, 4)); forall k :: net(k) == Reply(s + 3, Stamped(stamp), s + 5)
    ensures var t := -4.0 + LossOf(stamp);
            var r := Sync(net, data, 0, [], 0);
            && Honest(net, t, 0.0, LossOf(stamp))
            && r.Synced? && |r.offsets| == 4 && Average(r.offsets) as real - t == 4.0 - LossOf(stamp)
  {
    hide Stamped;
    hide Millis;
    hide Instant;
    hide Word;
    hide Sync;
    var s := Millis(Word(stamp, 0), Word(stamp, 4));
    StampedWords(stamp);
    FourEqual(net, data, s + 3, Stamped(stamp), s + 5, -3);
  }

  lemma FourEqual(net: Network, data: seq<Byte>, sent: int, packet: seq<Byte>, received: int, offset: int)
    requires |data| == PACKET && |packet| == PACKET && Offset(sent, packet, received) == offset
    requires forall k :: net(k) == Reply(sent, packet, received)
    ensures Sync(net, data, 0, [], 0) == Synced(4, [offset, offset, offset, offset])
  {
    hide Offset;
    assert Overlay(data, packet) == packet && Overlay(packet, packet) == packet;
    assert Sync(net, packet, 3, [offset, offset, offset], 0) == Synced(4, [offset, offset, offset, offset]);
    assert [offset, offset] + [offset] == [offset, offset, offset];
    assert Sync(net, packet, 2, [offset, offset], 0) == Synced(4, [offset, offset, offset, offset]);
    assert [offset] + [offset] == [offset, offset] && [] + [offset] == [offset];
    assert Sync(net, packet, 1, [offset], 0) == Synced(4, [offset, offset, offset, offset]);
  }
}
