/** ConstStringRef, UInt32 and Int32 (framework/src/kfw_common.cpp): scanning, trimming,
    comparing and decimal numbers. Strings are sequences of 8-bit characters. */
module Text {
  import opened Arith

  // ----- index_of -----

  /** Least index from start on that holds ch, or -1. */
  function IndexOf(s: string, ch: char, start: nat): (p: int)
    ensures -1 <= p < |s|
    ensures p >= 0 ==> start <= p && s[p] == ch && ch !in s[start..p]
    ensures p < 0 ==> start >= |s| || ch !in s[start..]
    decreases |s| - start
  {
    if start >= |s| then -1
    else if s[start] == ch then start
    else
      var p := IndexOf(s, ch, start + 1);
      assert s[start..] == [s[start]] + s[start + 1..];
      assert p >= 0 ==> s[start..p] == [s[start]] + s[start + 1..p];
      p
  }

  method ScanFor(s: string, ch: char, start: nat) returns (p: int)
    ensures p == IndexOf(s, ch, start)
  {
    p := start;
    while p < |s|
      invariant start <= p && IndexOf(s, ch, p) == IndexOf(s, ch, start)
    {
      if s[p] == ch { return; }
      p := p + 1;
    }
    p := -1;
  }

  lemma {:induction false} IndexOfIs(s: string, ch: char, start: nat, p: nat)
    requires start <= p < |s| && s[p] == ch && ch !in s[start..p]
    ensures IndexOf(s, ch, start) == p
    decreases p - start
  {
    if start < p {
      assert s[start] == s[start..p][0];
      assert s[start..p] == [s[start]] + s[start + 1..p];
      IndexOfIs(s, ch, start + 1, p);
    }
  }

  // ----- trim -----

  predicate AllSpaces(s: string) { forall i | 0 <= i < |s| :: s[i] == ' ' }

  predicate Trimmed(s: string) { s == "" || (s[0] != ' ' && s[|s| - 1] != ' ') }

  function TrimLeft(s: string): string {
    if s != "" && s[0] == ' ' then TrimLeft(s[1..]) else s
  }

  function TrimRight(s: string): string {
    if s != "" && s[|s| - 1] == ' ' then TrimRight(s[..|s| - 1]) else s
  }

  function Trim(s: string): string { TrimRight(TrimLeft(s)) }

  lemma {:induction false} TrimLeftIs(s: string, h: nat)
    requires h <= |s| && AllSpaces(s[..h]) && (h == |s| || s[h] != ' ')
    ensures TrimLeft(s) == s[h..]
    decreases |s|
  {
    if h > 0 {
      assert s[..h][0] == ' ';
      assert s[1..][..h - 1] == s[..h][1..];
      TrimLeftIs(s[1..], h - 1);
    }
  }

  lemma {:induction false} TrimRightIs(s: string, e: nat)
    requires e <= |s| && AllSpaces(s[e..]) && (e == 0 || s[e - 1] != ' ')
    ensures TrimRight(s) == s[..e]
    decreases |s|
  {
    if e < |s| {
      assert s[e..][|s| - 1 - e] == ' ';
      assert forall i | 0 <= i < |s| - 1 - e :: s[..|s| - 1][e..][i] == s[e..][i];
      TrimRightIs(s[..|s| - 1], e);
      assert s[..|s| - 1][..e] == s[..e];
    } else {
      assert s[..e] == s;
    }
  }

  /** Trimming strips exactly the spaces around a text that neither starts nor ends with one. */
  lemma TrimIs(left: string, core: string, right: string)
    requires AllSpaces(left) && AllSpaces(right) && Trimmed(core)
    ensures Trim(left + core + right) == core
  {
    var s := left + core + right;
    if core == "" {
      assert AllSpaces(s[..|s|]);
      TrimLeftIs(s, |s|);
      assert s[|s|..] == "";
    } else {
      assert s[..|left|] == left;
      TrimLeftIs(s, |left|);
      var t := s[|left|..];
      assert t == core + right && t[|core|..] == right && t[..|core|] == core;
      TrimRightIs(t, |core|);
    }
  }

  /** The two scans of ConstStringRef::trim. */
  method TrimScan(s: string) returns (r: string)
    ensures r == Trim(s)
    ensures Trimmed(r)
  {
    if |s| == 0 {
      TrimIs("", "", "");
      return s;
    }
    var h := 0;
    while h < |s|
      invariant h <= |s| && AllSpaces(s[..h])
    {
      if s[h] != ' ' { break; }
      h := h + 1;
    }
    if h == |s| {
      TrimIs(s, "", "");
      assert s + "" + "" == s && s[..h] == s;
      return "";
    }
    var e := |s|;
    while e > 0
      invariant h < e <= |s| && AllSpaces(s[e..])
    {
      if s[e - 1] != ' ' { break; }
      e := e - 1;
    }
    TrimIs(s[..h], s[h..e], s[e..]);
    assert s[..h] + s[h..e] + s[e..] == s;
    return s[h..e];
  }

  // ----- compare_ignore_case -----

  function Lower(c: char): char { if 'A' <= c <= 'Z' then c - 'A' + 'a' else c }

  /** Exactly the letters A to Z change, each to its small letter. */
  lemma LowerTable(c: char)
    ensures var big, small := "ABCDEFGHIJKLMNOPQRSTUVWXYZ", "abcdefghijklmnopqrstuvwxyz";
            if 'A' <= c <= 'Z' then big[c as int - 65] == c && Lower(c) == small[c as int - 65] else Lower(c) == c
  {
    if 'A' <= c <= 'Z' { LowerLetter(c as int - 65); }
  }

  lemma LowerLetter(i: nat)
    requires i < 26
    ensures "ABCDEFGHIJKLMNOPQRSTUVWXYZ"[i] == (65 + i) as char && "abcdefghijklmnopqrstuvwxyz"[i] == (97 + i) as char
  {
  }

  predicate SameIgnoringCase(a: string, b: string) {
    |a| == |b| && forall i | 0 <= i < |a| :: Lower(a[i]) == Lower(b[i])
  }

  /** Shorter texts come first, and texts of one length are ordered by their first difference. */
  method CompareIgnoreCase(a: string, b: string) returns (cmp: int)
    ensures cmp == 0 <==> SameIgnoringCase(a, b)
    ensures |a| != |b| ==> cmp == |a| - |b|
    ensures |a| == |b| && cmp != 0 ==>
      exists i | 0 <= i < |a| :: cmp == Lower(a[i]) as int - Lower(b[i]) as int && SameIgnoringCase(a[..i], b[..i])
  {
    cmp := |a| - |b|;
    if cmp != 0 { return; }
    for i := 0 to |a|
      invariant cmp == 0 && forall j | 0 <= j < i :: Lower(a[j]) == Lower(b[j])
    {
      var x, y := a[i], b[i];
      if 'A' <= x <= 'Z' { x := x - 'A' + 'a'; }
      if 'A' <= y <= 'Z' { y := y - 'A' + 'a'; }
      cmp := x as int - y as int;
      if cmp != 0 { return; }
    }
  }

  // ----- decimal numbers -----

  const UINT32 := 0x1_0000_0000

  predicate Digit(c: char) { '0' <= c <= '9' }

  predicate Digits(s: string) { s != "" && forall i | 0 <= i < |s| :: Digit(s[i]) }

  function DigitValue(c: char): nat
    requires Digit(c)
  {
    c as int - '0' as int
  }

  function DigitChar(n: nat): (c: char)
    requires n < 10
    ensures Digit(c) && DigitValue(c) == n
  {
    '0' + n as char
  }

  /** The number a string of digits stands for. */
  function Value(s: string): nat
    requires forall i | 0 <= i < |s| :: Digit(s[i])
  {
    if s == "" then 0 else 10 * Value(s[..|s| - 1]) + DigitValue(s[|s| - 1])
  }

  /** Decimal notation without leading zeros. */
  function Decimal(n: nat): (s: string)
    ensures Digits(s)
  {
    if n < 10 then [DigitChar(n)] else Decimal(n / 10) + [DigitChar(n % 10)]
  }

  /** The ten digits are the ones everybody writes. */
  lemma DigitTable(n: nat)
    requires n < 10
    ensures Decimal(n) == ["0123456789"[n]]
    ensures Digits(["0123456789"[n]]) && Value(["0123456789"[n]]) == n
  {
    var s := ["0123456789"[n]];
    assert s[..0] == "";
    assert Value("") == 0;
  }

  /** A digit counts ten times as much as the digit behind it. */
  lemma {:induction false} ValuePlaces(a: string, b: string)
    requires forall i | 0 <= i < |a| :: Digit(a[i])
    requires forall i | 0 <= i < |b| :: Digit(b[i])
    ensures Value(a + b) == Value(a) * Pow10(|b|) + Value(b)
    decreases |b|
  {
    if b == "" {
      assert a + b == a;
    } else {
      var c := b[..|b| - 1];
      ValuePlaces(a, c);
      assert (a + b)[..|a + b| - 1] == a + c;
      TenTimes(Value(a), Pow10(|c|));
    }
  }

  lemma TenTimes(v: nat, p: nat)
    ensures 10 * (v * p) == v * (10 * p)
  {
  }

  /** A witness: the number is written with its first digit first. */
  lemma TwentyThree()
    ensures Decimal(23) == "23" && Value("23") == 23
  {
    DigitTable(2);
    DigitTable(3);
    ValuePlaces("2", "3");
    assert "2" + "3" == "23";
  }

  datatype Parsed = Ok(val: nat) | FormatError

  /** UInt32::parse: 32-bit accumulation of the digits. */
  method ParseUInt32(s: string) returns (r: Parsed)
    ensures r == (if Digits(s) then Ok(Value(s) % UINT32) else FormatError)
    ensures r == FormatError <==> s == "" || exists i | 0 <= i < |s| :: s[i] < '0' || s[i] > '9'
  {
    if |s| == 0 { return FormatError; }
    var acc: nat, p := 0, 0;
    while p != |s|
      invariant 0 <= p <= |s|
      invariant forall i | 0 <= i < p :: Digit(s[i])
      invariant acc == Value(s[..p]) % UINT32
    {
      var ch := s[p];
      if ch < '0' || ch > '9' { return FormatError; }
      var n := ch as int - '0' as int;
      assert s[..p + 1][..p] == s[..p];
      AccumulateMod(Value(s[..p]), n);
      acc := (acc * 10 + n) % UINT32;
      p := p + 1;
    }
    assert s[..|s|] == s;
    return Ok(acc);
  }

  lemma AccumulateMod(v: nat, n: nat)
    ensures ((v % UINT32) * 10 + n) % UINT32 == (10 * v + n) % UINT32
  {
    var q, r := v / UINT32, v % UINT32;
    var m := (r * 10 + n) / UINT32;
    DivModIs(10 * v + n, UINT32, 10 * q + m, (r * 10 + n) % UINT32);
  }

  lemma {:induction false} ValueOfDecimal(n: nat)
    ensures Value(Decimal(n)) == n
  {
    if n >= 10 {
      ValueOfDecimal(n / 10);
      var s := Decimal(n);
      assert s[..|s| - 1] == Decimal(n / 10);
    } else {
      assert Decimal(n)[..0] == "";
    }
  }

  predicate Canonical(s: string) { Digits(s) && (|s| == 1 || s[0] != '0') }

  lemma {:induction false} CanonicalPositive(s: string)
    requires Digits(s) && s[0] != '0'
    ensures Value(s) > 0
    decreases |s|
  {
    if |s| > 1 { CanonicalPositive(s[..|s| - 1]); }
  }

  lemma {:induction false} DecimalIsCanonical(n: nat)
    ensures Canonical(Decimal(n))
    ensures n > 0 ==> Decimal(n)[0] != '0'
  {
    if n >= 10 { DecimalIsCanonical(n / 10); }
  }

  lemma {:induction false} DecimalOfValue(s: string)
    requires Canonical(s)
    ensures Decimal(Value(s)) == s
    decreases |s|
  {
    var t, d := s[..|s| - 1], DigitValue(s[|s| - 1]);
    if |s| == 1 {
      assert t == "" && Value(s) == d;
    } else {
      CanonicalPositive(t);
      DecimalOfValue(t);
      DivModIs(Value(s), 10, Value(t), d);
      assert s == t + [s[|s| - 1]];
    }
  }

  /** Printing what was parsed restores the text iff it has no leading zeros and fits 32 bits. */
  lemma PrintParsedIff(s: string)
    requires Digits(s)
    ensures Decimal(Value(s) % UINT32) == s <==> Canonical(s) && Value(s) < UINT32
  {
    hide Value;
    hide Decimal;
    if Canonical(s) && Value(s) < UINT32 {
      DecimalOfValue(s);
    } else if Decimal(Value(s) % UINT32) == s {
      DecimalIsCanonical(Value(s) % UINT32);
      ValueOfDecimal(Value(s) % UINT32);
    }
  }

  lemma {:induction false} DecimalLength(n: nat, k: nat, bound: nat)
    requires n < bound && bound == Pow10(k) && k >= 1
    ensures |Decimal(n)| <= k
    decreases k
  {
    if n >= 10 {
      assert k > 1;
      DecimalLength(n / 10, k - 1, Pow10(k - 1));
    }
  }

  function Pow10(k: nat): nat { if k == 0 then 1 else 10 * Pow10(k - 1) }

  lemma TenDigits()
    ensures Pow10(10) == 10_000_000_000
  {
    assert Pow10(2) == 100 && Pow10(4) == 10_000 && Pow10(6) == 1_000_000 && Pow10(8) == 100_000_000;
  }

  /** The digit loop shared by both to_string functions: least significant digit first. */
  method DigitsReversed(value: nat, buf: array<char>) returns (len: nat)
    requires value < UINT32 && buf.Length >= 10
    modifies buf
    ensures 1 <= len <= 10 && len == |Decimal(value)|
    ensures forall i | 0 <= i < len :: buf[i] == Decimal(value)[len - 1 - i]
  {
    TenDigits();
    DecimalLength(value, 10, Pow10(10));
    var v: nat := value;
    len := 0;
    ghost var goal := Decimal(value);
    while true
      invariant len + |Decimal(v)| == |goal| && Decimal(v) == goal[..|Decimal(v)|]
      invariant forall i | 0 <= i < len :: buf[i] == goal[|goal| - 1 - i]
      decreases v, |goal| - len
    {
      buf[len] := DigitChar(v % 10);
      len := len + 1;
      if v < 10 { break; }
      v := v / 10;
    }
  }

  /** Copy the digits, most significant first, to the caller's buffer. */
  method CopyReversed(buf: array<char>, len: nat, out: array<char>)
    requires len <= buf.Length && len <= out.Length && buf != out
    modifies out
    ensures forall i | 0 <= i < len :: out[i] == buf[len - 1 - i]
    ensures forall i | len <= i < out.Length :: out[i] == old(out[i])
  {
    for i := 0 to len
      invariant forall j | 0 <= j < i :: out[j] == buf[len - 1 - j]
      invariant forall j | len <= j < out.Length :: out[j] == old(out[j])
    {
      out[i] := buf[len - i - 1];
    }
  }

  /** UInt32::to_string: the decimal digits, or an error that leaves the buffer alone. */
  method PrintUInt32(value: nat, out: array<char>) returns (ok: bool, len: nat)
    requires value < UINT32
    modifies out
    ensures ok == (|Decimal(value)| <= out.Length)
    ensures ok ==> len == |Decimal(value)| && out[..len] == Decimal(value)
    ensures !ok ==> len == 0 && out[..] == old(out[..])
    ensures forall i | len <= i < out.Length :: out[i] == old(out[i])
  {
    var buf := new char[10];
    len := DigitsReversed(value, buf);
    if len > out.Length { return false, 0; }
    CopyReversed(buf, len, out);
    ok := true;
  }

  /** Signed decimal notation. */
  function SignedDecimal(value: int): string {
    if value < 0 then "-" + Decimal(-value) else Decimal(value)
  }

  /** What Int32::to_string reports and stores: its room check counts the digits but not the sign. */
  datatype Printed = Printed(ok: bool, stored: string)

  function ToString(value: int, room: nat): Printed {
    if |Decimal(if value < 0 then -value else value)| > room then Printed(false, "") else Printed(true, SignedDecimal(value))
  }

  /** Int32::to_string; out is the memory from the buffer on, and goes on behind the room of the buffer. */
  method PrintInt32(value: int, out: array<char>, room: nat) returns (ok: bool, len: nat)
    requires -0x8000_0000 < value < 0x8000_0000 && room < out.Length
    modifies out
    ensures len <= out.Length && Printed(ok, out[..len]) == ToString(value, room)
    ensures forall i | len <= i < out.Length :: out[i] == old(out[i])
  {
    hide Decimal;
    var buf := new char[11];
    var magnitude: nat := if value < 0 then -value else value;
    len := DigitsReversed(magnitude, buf);
    if len > room { return false, 0; }
    if value < 0 {
      buf[len] := '-';
      len := len + 1;
    }
    CopyReversed(buf, len, out);
    ok := true;
  }

  /** What is stored stays inside the buffer iff the digits of a negative number do not fill it exactly; if
      they do, the overrun is by one byte and reported as success. */
  lemma PrintOverrunIff(value: int, room: nat)
    ensures var p := ToString(value, room);
            && (|p.stored| <= room <==> !(value < 0 && |Decimal(-value)| == room))
            && (|p.stored| > room ==> p.ok && |p.stored| == room + 1)
  {
    hide Decimal;
  }

  /** A witness: -1 into one byte. */
  lemma MinusOneOverruns()
    ensures ToString(-1, 1) == Printed(true, "-1")
  {
    assert Decimal(1) == "1";
  }
}
