/** read_line (framework/src/kfw_web.cpp) over StringBuffer (framework/src/kfw_text.cpp) and a
    buffered connection: the line depends only on the bytes, not on how they arrive. */
module ReadLine {
  import opened NetStream
  import opened ReadExact

  const CR := '\r'
  const LF := '\n'

  /** The guard of StringBuffer::append compares the length with minus the capacity, as uint32_t. */
  function AppendLimit(capacity: nat): nat
    requires capacity < UINT32
  {
    (UINT32 - capacity) % UINT32
  }

  class StringBuffer {
    const capacity: nat
    var data: string  // what the append calls stored, from the start of the allocation on

    constructor (capacity: nat)
      requires capacity < UINT32
      ensures this.capacity == capacity && data == ""
    {
      this.capacity, data := capacity, "";
    }

    method Clear()
      modifies this
      ensures data == ""
    {
      data := "";
    }

    method Append(ch: char) returns (ok: bool)
      requires capacity < UINT32
      modifies this
      ensures ok == Admits(capacity, |old(data)|)
      ensures data == if ok then old(data) + [ch] else old(data)
    {
      if |data| > AppendLimit(capacity) { return false; }
      data := data + [ch];
      return true;
    }
  }

  predicate Admits(capacity: nat, length: nat)
    requires capacity < UINT32
  {
    length <= AppendLimit(capacity)
  }

  /** The guard keeps every append inside the allocation iff the capacity is over two gigabytes. */
  lemma AppendGuardIff(capacity: nat)
    requires capacity < UINT32
    ensures (forall length: nat | Admits(capacity, length) :: length < capacity) <==> capacity > 0x8000_0000
  {
    assert Admits(capacity, AppendLimit(capacity));
  }

  // ----- the line, as a function of the bytes -----

  datatype Line = Line(ok: bool, text: string, rest: string)

  /** One byte of input; when there is none left the previous byte is seen again. */
  function Next(input: string, stale: char): char { if input == "" then stale else input[0] }

  function Tail(input: string): string { if input == "" then "" else input[1..] }

  /** What read_line does with a byte stream: acc is the line so far, limit the append guard. */
  function LineOf(limit: nat, input: string, stale: char, acc: string): Line
    decreases limit + 1 - |acc|
  {
    var b, input1 := Next(input, stale), Tail(input);
    if b != CR then
      if |acc| > limit then Line(false, acc, input1) else LineOf(limit, input1, b, acc + [b])
    else
      var b2, input2 := Next(input1, b), Tail(input1);
      if b2 == LF then Line(true, acc, input2)
      else if |acc| > limit then Line(false, acc, input2)
      else if |acc| + 1 > limit then Line(false, acc + [b], input2)
      else LineOf(limit, input2, b2, acc + [b, b2])
  }

  /** With a read buffer, a one-byte read delivers a byte unless everything has been delivered. */
  lemma {:induction false} OneByteCounts(room: nat, buffered: nat, pending: seq<nat>)
    requires 0 < room < UINT32
    ensures var c := ReadCounts(room, 1, buffered, 1, 0, pending);
            c.copied == 1 || (c.copied == 0 && c.buffered == 0 && c.pending == [])
    decreases |pending|
  {
    if buffered > 0 {
      assert ReadCounts(room, 1, buffered - 1, 0, 1, pending).copied == 1;
    } else if pending != [] && pending[0] == 0 {
      OneByteCounts(room, 0, pending[1..]);
    } else if pending != [] {
      var avail := Min(room, pending[0]);
      assert ReadCounts(room, 1, avail, 1, 0, AfterReceive(pending, room))
          == ReadCounts(room, 1, avail - 1, 0, 1, AfterReceive(pending, room));
    }
  }

  /** One-byte read: read_line looks at the buffer whether or not the read succeeded. */
  method ReadByte(s: BufferedStream, stale: char) returns (b: char)
    requires s.Valid() && 0 < s.buf.Length < UINT32
    modifies s, s.base, s.buf
    ensures s.Valid()
    ensures b == Next(old(s.Logical()), stale) && s.Logical() == Tail(old(s.Logical()))
  {
    ghost var room, buffered, pending := s.buf.Length, s.wp - s.rp, s.base.Pending();
    var ok, val, written := s.Read(1);
    OneByteCounts(room, buffered, pending);
    b := if written == "" then stale else written[0];
  }

  /** The bytes of a line do not depend on the netbufs, the read buffer or the fill levels. */
  method ReadLine(s: BufferedStream, line: StringBuffer, junk: char) returns (ok: bool)
    requires s.Valid() && 0 < s.buf.Length < UINT32 && line.capacity < UINT32
    modifies s, s.base, s.buf, line
    ensures s.Valid()
    ensures Line(ok, line.data, s.Logical()) == LineOf(AppendLimit(line.capacity), old(s.Logical()), junk, "")
    ensures |line.data| <= line.capacity <==> line.capacity > 0x8000_0000 || HoldsLine(old(s.Logical()), line.capacity)
  {
    hide *;
    ReadLineInBoundsIff(line.capacity, s.Logical(), junk);
    line.Clear();
    var buf := junk;
    ghost var limit := AppendLimit(line.capacity);
    ghost var goal := LineOf(limit, s.Logical(), junk, "");
    while true
      invariant s.Valid() && LineOf(limit, s.Logical(), buf, line.data) == goal
      decreases limit + 1 - |line.data|
    {
      ghost var acc := line.data;
      UnfoldLineOf(limit, s.Logical(), buf, acc);
      AdmitsIs(line.capacity, |acc|);
      AdmitsIs(line.capacity, |acc| + 1);
      buf := ReadByte(s, buf);
      var b := buf;
      if b == CR {
        buf := ReadByte(s, buf);
        var b2 := buf;
        if b2 == LF { break; }
        ok := line.Append(b);
        if !ok { return; }
        ok := line.Append(b2);
        if !ok { return; }
        assert line.data == acc + [b, b2];
      } else {
        ok := line.Append(b);
        if !ok { return; }
      }
    }
    ok := true;
  }

  lemma AdmitsIs(capacity: nat, length: nat)
    requires capacity < UINT32
    ensures Admits(capacity, length) <==> length <= AppendLimit(capacity)
  {
  }

  lemma UnfoldLineOf(limit: nat, input: string, stale: char, acc: string)
    ensures LineOf(limit, input, stale, acc)
            == var b, input1 := Next(input, stale), Tail(input);
               if b != CR then
                 if |acc| > limit then Line(false, acc, input1) else LineOf(limit, input1, b, acc + [b])
               else
                 var b2, input2 := Next(input1, b), Tail(input1);
                 if b2 == LF then Line(true, acc, input2)
                 else if |acc| > limit then Line(false, acc, input2)
                 else if |acc| + 1 > limit then Line(false, acc + [b], input2)
                 else LineOf(limit, input2, b2, acc + [b, b2])
  {
  }

  // ----- which lines come back -----

  /** Cut into single bytes and CR-led pairs, the text has no CR LF pair and no CR left over. */
  predicate Balanced(text: string) {
    if text == "" then true
    else if text[0] != CR then Balanced(text[1..])
    else |text| >= 2 && text[1] != LF && Balanced(text[2..])
  }

  const CRLF := [CR, LF]

  lemma {:induction false} CrFreeIsBalanced(text: string)
    requires CR !in text
    ensures Balanced(text)
    decreases |text|
  {
    if text != "" { CrFreeIsBalanced(text[1..]); }
  }

  lemma {:induction false} LineOfGrows(limit: nat, input: string, stale: char, acc: string)
    ensures acc <= LineOf(limit, input, stale, acc).text
    decreases limit + 1 - |acc|
  {
    var b, input1 := Next(input, stale), Tail(input);
    if b != CR {
      if |acc| <= limit { LineOfGrows(limit, input1, b, acc + [b]); }
    } else {
      var b2, input2 := Next(input1, b), Tail(input1);
      if b2 != LF && |acc| + 1 <= limit { LineOfGrows(limit, input2, b2, acc + [b, b2]); }
    }
  }

  lemma StepPlain(limit: nat, input: string, stale: char, acc: string)
    requires input != "" && input[0] != CR && |acc| <= limit
    ensures LineOf(limit, input, stale, acc) == LineOf(limit, input[1..], input[0], acc + [input[0]])
  {
  }

  lemma StepPair(limit: nat, input: string, stale: char, acc: string)
    requires |input| >= 2 && input[0] == CR && input[1] != LF && |acc| + 1 <= limit
    ensures LineOf(limit, input, stale, acc) == LineOf(limit, input[2..], input[1], acc + [CR, input[1]])
  {
    assert input[1..][1..] == input[2..];
  }

  lemma StepEnd(limit: nat, input: string, stale: char, acc: string)
    requires |input| >= 2 && input[0] == CR && input[1] == LF
    ensures LineOf(limit, input, stale, acc) == Line(true, acc, input[2..])
  {
    assert input[1..][1..] == input[2..];
  }

  /** A balanced text followed by CR LF is read back, and the stream is left just behind it. */
  lemma {:induction false} BalancedReadsBack(limit: nat, text: string, rest: string, stale: char, acc: string)
    requires Balanced(text) && |acc| + |text| <= limit + 1
    ensures LineOf(limit, text + CRLF + rest, stale, acc) == Line(true, acc + text, rest)
    decreases |text|
  {
    hide LineOf;
    var input := text + CRLF + rest;
    if text == "" {
      assert input == CRLF + rest && input[2..] == rest;
      StepEnd(limit, input, stale, acc);
    } else if text[0] != CR {
      StepPlain(limit, input, stale, acc);
      assert input[1..] == text[1..] + CRLF + rest;
      BalancedReadsBack(limit, text[1..], rest, text[0], acc + [text[0]]);
      assert acc + [text[0]] + text[1..] == acc + text;
    } else {
      StepPair(limit, input, stale, acc);
      assert input[2..] == text[2..] + CRLF + rest;
      BalancedReadsBack(limit, text[2..], rest, text[1], acc + [CR, text[1]]);
      assert acc + [CR, text[1]] + text[2..] == acc + text;
    }
  }

  lemma {:induction false} UnbalancedIsMisread(limit: nat, text: string, rest: string, stale: char, acc: string)
    requires !Balanced(text) && |acc| + |text| <= limit + 1
    ensures LineOf(limit, text + CRLF + rest, stale, acc) != Line(true, acc + text, rest)
    decreases |text|
  {
    hide LineOf;
    var input := text + CRLF + rest;
    if text[0] != CR {
      StepPlain(limit, input, stale, acc);
      assert input[1..] == text[1..] + CRLF + rest;
      UnbalancedIsMisread(limit, text[1..], rest, text[0], acc + [text[0]]);
      assert acc + [text[0]] + text[1..] == acc + text;
    } else if |text| == 1 {
      LoneCrIsMisread(limit, input, stale, acc);
    } else if text[1] == LF {
      StepEnd(limit, input, stale, acc);
    } else {
      StepPair(limit, input, stale, acc);
      assert input[2..] == text[2..] + CRLF + rest;
      UnbalancedIsMisread(limit, text[2..], rest, text[1], acc + [CR, text[1]]);
      assert acc + [CR, text[1]] + text[2..] == acc + text;
    }
  }

  lemma LoneCrIsMisread(limit: nat, input: string, stale: char, acc: string)
    requires |input| >= 2 && input[0] == CR && input[1] == CR
    ensures var r := LineOf(limit, input, stale, acc); r.ok ==> |r.text| >= |acc| + 2
  {
    if |acc| + 1 <= limit {
      StepPair(limit, input, stale, acc);
      LineOfGrows(limit, input[2..], CR, acc + [CR, CR]);
    }
  }

  /** Of the texts the append guard admits, exactly the balanced ones come back as the line. */
  lemma ReadsBackIff(limit: nat, text: string, rest: string, junk: char)
    requires |text| <= limit + 1
    ensures LineOf(limit, text + CRLF + rest, junk, "") == Line(true, text, rest) <==> Balanced(text)
  {
    assert "" + text == text;
    if Balanced(text) { BalancedReadsBack(limit, text, rest, junk, ""); } else { UnbalancedIsMisread(limit, text, rest, junk, ""); }
  }

  // ----- when read_line returns at all -----

  lemma {:induction false} StaleNeverEnds(limit: nat, stale: char, acc: string)
    ensures !LineOf(limit, "", stale, acc).ok
    decreases limit + 1 - |acc|
  {
    if stale != CR {
      if |acc| <= limit { StaleNeverEnds(limit, stale, acc + [stale]); }
    } else if |acc| + 1 <= limit {
      StaleNeverEnds(limit, CR, acc + [CR, CR]);
    }
  }

  lemma FullNeverAppends(limit: nat, input: string, stale: char, acc: string)
    requires LineOf(limit, input, stale, acc).ok
    ensures Next(input, stale) != CR ==> |acc| <= limit
    ensures Next(input, stale) == CR && Next(Tail(input), CR) != LF ==> |acc| + 1 <= limit
  {
  }

  lemma {:induction false} OkMeansLine(limit: nat, input: string, stale: char, acc: string) returns (text: string)
    requires LineOf(limit, input, stale, acc).ok && |acc| <= limit + 1
    ensures Balanced(text) && |acc| + |text| <= limit + 1
    ensures input == text + CRLF + LineOf(limit, input, stale, acc).rest
    ensures LineOf(limit, input, stale, acc).text == acc + text
    decreases |input|
  {
    hide LineOf;
    FullNeverAppends(limit, input, stale, acc);
    if input == "" {
      StaleNeverEnds(limit, stale, acc);
    } else if input[0] != CR {
      StepPlain(limit, input, stale, acc);
      var t := OkMeansLine(limit, input[1..], input[0], acc + [input[0]]);
      text := [input[0]] + t;
      assert text[1..] == t;
    } else if |input| == 1 {
      LoneCrNeverEnds(limit, input, stale, acc);
    } else if input[1] == LF {
      StepEnd(limit, input, stale, acc);
      text := "";
    } else {
      StepPair(limit, input, stale, acc);
      var t := OkMeansLine(limit, input[2..], input[1], acc + [CR, input[1]]);
      text := [CR, input[1]] + t;
      assert text[2..] == t;
    }
  }

  lemma LoneCrNeverEnds(limit: nat, input: string, stale: char, acc: string)
    requires |input| == 1 && input[0] == CR
    ensures !LineOf(limit, input, stale, acc).ok
  {
    assert Tail(input) == "" && Tail("") == "";
    if |acc| + 1 <= limit { StaleNeverEnds(limit, CR, acc + [CR, CR]); }
  }

  /** read_line succeeds iff the stream holds a balanced line with its CR LF inside the append guard;
      otherwise it stores one byte more than the guard allows before it gives up. */
  lemma ReadLineOkIff(limit: nat, input: string, junk: char)
    ensures LineOf(limit, input, junk, "").ok
            <==> exists text, rest :: input == text + CRLF + rest && Balanced(text) && |text| <= limit + 1
    ensures !LineOf(limit, input, junk, "").ok ==> |LineOf(limit, input, junk, "").text| == limit + 1
  {
    if LineOf(limit, input, junk, "").ok {
      var text := OkMeansLine(limit, input, junk, "");
    } else {
      FailedLineFills(limit, input, junk, "");
    }
    forall text, rest | input == text + CRLF + rest && Balanced(text) && |text| <= limit + 1
      ensures LineOf(limit, input, junk, "").ok
    {
      BalancedReadsBack(limit, text, rest, junk, "");
    }
  }

  /** The stream begins with a line of at most so many bytes. */
  ghost predicate HoldsLine(input: string, bytes: nat) {
    exists text, rest :: input == text + CRLF + rest && Balanced(text) && |text| <= bytes
  }

  /** read_line stays inside the allocation iff that is over two gigabytes or the line fits it: of any
      longer line, and of anything without a line, it stores more than there is room for. */
  lemma ReadLineInBoundsIff(capacity: nat, input: string, junk: char)
    requires capacity < UINT32
    ensures |LineOf(AppendLimit(capacity), input, junk, "").text| <= capacity
            <==> capacity > 0x8000_0000 || HoldsLine(input, capacity)
  {
    hide LineOf;
    hide Balanced;
    var limit := AppendLimit(capacity);
    var l := LineOf(limit, input, junk, "");
    if l.ok {
      var text := OkMeansLine(limit, input, junk, "");
      assert "" + text == text;
      assert |l.text| <= capacity ==> HoldsLine(input, capacity);
    } else {
      FailedLineFills(limit, input, junk, "");
    }
    if capacity <= 0x8000_0000 && HoldsLine(input, capacity) {
      var text, rest :| input == text + CRLF + rest && Balanced(text) && |text| <= capacity;
      BalancedReadsBack(limit, text, rest, junk, "");
      assert "" + text == text;
    }
  }

  /** A witness for the buffer the listener uses: 1025 plain bytes before the CR LF. */
  lemma LongLineOverruns(rest: string, junk: char)
    ensures var l := LineOf(AppendLimit(1024), seq(1025, _ => 'a') + CRLF + rest, junk, "");
            l.ok && |l.text| == 1025
  {
    hide LineOf;
    hide Balanced;
    var text := seq(1025, _ => 'a');
    CrFreeIsBalanced(text);
    BalancedReadsBack(AppendLimit(1024), text, rest, junk, "");
    assert "" + text == text;
  }

  lemma {:induction false} FailedLineFills(limit: nat, input: string, stale: char, acc: string)
    requires !LineOf(limit, input, stale, acc).ok && |acc| <= limit + 1
    ensures |LineOf(limit, input, stale, acc).text| == limit + 1
    decreases limit + 1 - |acc|
  {
    var b, input1 := Next(input, stale), Tail(input);
    if b != CR {
      if |acc| <= limit { FailedLineFills(limit, input1, b, acc + [b]); }
    } else {
      var b2, input2 := Next(input1, b), Tail(input1);
      if |acc| + 1 <= limit { FailedLineFills(limit, input2, b2, acc + [b, b2]); }
    }
  }

  /** The first n bytes that read_line sees: the stream, and then its last byte again and again. */
  function Seen(input: string, stale: char, n: nat): string {
    if n == 0 then "" else [Next(input, stale)] + Seen(Tail(input), Next(input, stale), n - 1)
  }

  lemma {:induction false} SeenIs(input: string, stale: char, n: nat, i: nat)
    requires i < n
    ensures |Seen(input, stale, n)| == n
    ensures Seen(input, stale, n)[i] == if i < |input| then input[i] else if input == "" then stale else input[|input| - 1]
    decreases n
  {
    if n > 1 { SeenIs(Tail(input), Next(input, stale), n - 1, if i == 0 then 0 else i - 1); }
  }

  /** A line that fails has stored the first bytes seen, up to one more than the guard value. */
  lemma {:induction false} FailedLineText(limit: nat, input: string, stale: char, acc: string)
    requires !LineOf(limit, input, stale, acc).ok && |acc| <= limit + 1
    ensures LineOf(limit, input, stale, acc).text == acc + Seen(input, stale, limit + 1 - |acc|)
    decreases limit + 1 - |acc|
  {
    var n := limit + 1 - |acc|;
    var b, input1 := Next(input, stale), Tail(input);
    if b != CR {
      if |acc| <= limit {
        FailedLineText(limit, input1, b, acc + [b]);
        assert acc + [b] + Seen(input1, b, n - 1) == acc + ([b] + Seen(input1, b, n - 1));
      }
    } else {
      var b2, input2 := Next(input1, b), Tail(input1);
      if |acc| + 1 <= limit {
        FailedLineText(limit, input2, b2, acc + [b, b2]);
        assert acc + [b, b2] + Seen(input2, b2, n - 2) == acc + ([b] + ([b2] + Seen(input2, b2, n - 2)));
      } else if |acc| == limit {
        assert Seen(input1, b, 0) == "";
      }
    }
  }
}
