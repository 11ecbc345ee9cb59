/** The line of BSP_LCD_DrawLine (Drivers/BSP/STM32746G-Discovery/stm32746g_discovery_lcd.c),
    in the source's 16-bit arithmetic. */
module LcdLine {
  import opened Arith
  import opened Lcd

  function ToInt16(a: int): int {
    var r := ToUInt16(a);
    if r < 0x8000 then r else r - 0x1_0000
  }

  /** Largest major distance for which the numerator never overflows 16 bits. */
  const MAX_MAJOR := 16384

  function Max(a: int, b: int): int { if a >= b then a else b }

  function Min(a: int, b: int): int { if a <= b then a else b }

  function Sign(from: int, to: int): int { if to >= from then 1 else -1 }

  // ----- the line that is meant -----

  /** k * minor / major, rounded to the nearest integer. */
  function Rounded(major: nat, minor: nat, k: nat): int {
    if major == 0 then 0 else (major / 2 + k * minor) / major
  }

  /** The k-th point of the line from (x1, y1) to (x2, y2). */
  function LinePoint(x1: int, y1: int, x2: int, y2: int, k: nat): (int, int) {
    var dx, dy := Abs(x2 - x1), Abs(y2 - y1);
    if dx >= dy then (x1 + Sign(x1, x2) * k, y1 + Sign(y1, y2) * Rounded(dx, dy, k))
    else (x1 + Sign(x1, x2) * Rounded(dy, dx, k), y1 + Sign(y1, y2) * k)
  }

  function Length(x1: int, y1: int, x2: int, y2: int): nat { Max(Abs(x2 - x1), Abs(y2 - y1)) }

  ghost predicate OnLine(x1: int, y1: int, x2: int, y2: int, upTo: nat, u: int, v: int) {
    exists k: nat :: k < upTo && LinePoint(x1, y1, x2, y2, k) == (u, v)
  }

  /** The rounded value is off by at most half, and it is the only one in that interval. */
  lemma RoundedIsNearest(major: nat, minor: nat, k: nat, m: int)
    requires major > 0
    ensures var e := k * minor - major * Rounded(major, minor, k); 2 * Abs(e) <= major
    ensures m == Rounded(major, minor, k) <==> -(major as int / 2) <= k * minor - major * m < major - major / 2
  {
    var a := major / 2 + k * minor;
    assert a == major * (a / major) + a % major;
    if -(major as int / 2) <= k * minor - major * m < major - major / 2 {
      DivModIs(a, major, m, a - major * m);
    }
  }

  lemma RoundedStep(major: nat, minor: nat, k: nat)
    requires 0 < major && minor <= major
    ensures var a := major / 2 + k * minor - major * Rounded(major, minor, k);
            && 0 <= a < major
            && Rounded(major, minor, k + 1) == Rounded(major, minor, k) + (if a + minor >= major then 1 else 0)
            && major / 2 + (k + 1) * minor - major * Rounded(major, minor, k + 1)
               == a + minor - (if a + minor >= major then major else 0)
  {
    var m := Rounded(major, minor, k);
    var s := major / 2 + k * minor;
    assert s == major * m + s % major;
    assert (k + 1) * minor == k * minor + minor;
    var a := s - major * m;
    if a + minor >= major {
      assert major * (m + 1) == major * m + major;
      DivModIs(s + minor, major, m + 1, a + minor - major);
    } else {
      DivModIs(s + minor, major, m, a + minor);
    }
  }

  lemma {:induction false} RoundedBounds(major: nat, minor: nat, k: nat)
    requires 0 < major && minor <= major && k <= major
    ensures 0 <= Rounded(major, minor, k) <= minor
    ensures Rounded(major, minor, 0) == 0
    ensures k == major ==> Rounded(major, minor, k) == minor
  {
    ProductBelow(k, major, minor);
    QuotientBounds(major, minor, k * minor, major / 2);
    QuotientBounds(major, minor, 0, major / 2);
    DivModIs(major / 2, major, 0, major / 2);
    if k == major { DivModIs(major / 2 + k * minor, major, minor, major / 2); }
  }

  lemma ProductBelow(k: nat, major: nat, minor: nat)
    requires k <= major
    ensures 0 <= k * minor <= major * minor
  {
  }

  lemma QuotientBounds(major: nat, minor: nat, p: nat, half: nat)
    requires half < major && p <= major * minor
    ensures 0 <= (half + p) / major <= minor
  {
    DivModIs(half + major * minor, major, minor, half);
    DivMonotone(0, half + p, major);
    DivMonotone(half + p, half + major * minor, major);
  }

  lemma DivMonotone(a: int, b: int, d: int)
    requires d > 0 && a <= b
    ensures a / d <= b / d
  {
    assert a == d * (a / d) + a % d && b == d * (b / d) + b % d;
    if a / d > b / d { ProductAtLeast(a / d - b / d, d); }
  }

  lemma SignTimesAbs(a: int, b: int)
    ensures a + Sign(a, b) * Abs(b - a) == b
  {
  }

  /** The line starts and ends at its end points. */
  lemma LineEnds(x1: int, y1: int, x2: int, y2: int)
    ensures LinePoint(x1, y1, x2, y2, 0) == (x1, y1)
    ensures LinePoint(x1, y1, x2, y2, Length(x1, y1, x2, y2)) == (x2, y2)
  {
    var dx, dy := Abs(x2 - x1), Abs(y2 - y1);
    SignTimesAbs(x1, x2);
    SignTimesAbs(y1, y2);
    if Max(dx, dy) > 0 { RoundedBounds(Max(dx, dy), Min(dx, dy), Max(dx, dy)); }
  }

  /** Consecutive points touch, the axis of the longer side moving by exactly one. */
  lemma LineConnected(x1: int, y1: int, x2: int, y2: int, k: nat)
    requires k < Length(x1, y1, x2, y2)
    ensures var p, q := LinePoint(x1, y1, x2, y2, k), LinePoint(x1, y1, x2, y2, k + 1);
            Abs(q.0 - p.0) <= 1 && Abs(q.1 - p.1) <= 1
            && (if Abs(x2 - x1) >= Abs(y2 - y1) then Abs(q.0 - p.0) == 1 else Abs(q.1 - p.1) == 1)
  {
    RoundedStep(Length(x1, y1, x2, y2), Min(Abs(x2 - x1), Abs(y2 - y1)), k);
  }

  /** Every point lies in the box of the end points. */
  lemma LineInBox(x1: int, y1: int, x2: int, y2: int, k: nat)
    requires k <= Length(x1, y1, x2, y2)
    ensures var p := LinePoint(x1, y1, x2, y2, k);
            Min(x1, x2) <= p.0 <= Max(x1, x2) && Min(y1, y2) <= p.1 <= Max(y1, y2)
  {
    var n := Length(x1, y1, x2, y2);
    if n > 0 { RoundedBounds(n, Min(Abs(x2 - x1), Abs(y2 - y1)), k); }
  }

  // ----- the loop -----

  datatype Setup = Setup(den: int, num: int, numAdd: int, numPixels: int,
                         xinc1: int, xinc2: int, yinc1: int, yinc2: int)

  /** What the source computes before its loop; the distances are truncated to int16_t. */
  function LineSetup(x1: int, y1: int, x2: int, y2: int): Setup {
    var deltax, deltay := ToInt16(Abs(x2 - x1)), ToInt16(Abs(y2 - y1));
    var xinc, yinc := if x2 >= x1 then 1 else -1, if y2 >= y1 then 1 else -1;
    if deltax >= deltay then Setup(deltax, Half(deltax), deltay, deltax, 0, xinc, yinc, 0)
    else Setup(deltay, Half(deltay), deltax, deltay, xinc, 0, 0, yinc)
  }

  /** C division by two, toward zero. */
  function Half(a: int): int { if a >= 0 then a / 2 else -(-a / 2) }

  datatype Cursor = Cursor(x: int, y: int, num: int)

  function Start(x1: int, y1: int, s: Setup): Cursor { Cursor(ToInt16(x1), ToInt16(y1), s.num) }

  /** One pass of the loop body, after the pixel is drawn. */
  function Step(s: Setup, c: Cursor): Cursor {
    var num := ToInt16(c.num + s.numAdd);
    var carried :=
      if num >= s.den then Cursor(ToInt16(c.x + s.xinc1), ToInt16(c.y + s.yinc1), ToInt16(num - s.den))
      else c.(num := num);
    carried.(x := ToInt16(carried.x + s.xinc2), y := ToInt16(carried.y + s.yinc2))
  }

  /** The cursor shows the k-th point of the line, and the numerator its rounding error. */
  ghost predicate Tracks(x1: int, y1: int, x2: int, y2: int, k: nat, c: Cursor) {
    var n, minor := Length(x1, y1, x2, y2), Min(Abs(x2 - x1), Abs(y2 - y1));
    && (ToUInt16(c.x), ToUInt16(c.y)) == LinePoint(x1, y1, x2, y2, k)
    && (n > 0 ==> c.num == n / 2 + k * minor - n * Rounded(n, minor, k))
  }

  predicate Word(a: int) { 0 <= a < 0x1_0000 }

  lemma Wrap16(x: int, a: int)
    requires Word(ToUInt16(x) + a)
    ensures ToUInt16(ToInt16(x + a)) == ToUInt16(x) + a
  {
    var r := ToUInt16(x) + a;
    DivModIs(x + a, 0x1_0000, x / 0x1_0000, r);
    if r >= 0x8000 { DivModIs(r - 0x1_0000, 0x1_0000, -1, r); } else { DivModIs(r, 0x1_0000, 0, r); }
  }

  lemma WordOf(x: int)
    ensures Word(ToUInt16(x))
  {
  }

  lemma Int16Is(a: int)
    requires -0x8000 <= a < 0x8000
    ensures ToInt16(a) == a
  {
    if a < 0 { DivModIs(a, 0x1_0000, -1, a + 0x1_0000); } else { DivModIs(a, 0x1_0000, 0, a); }
  }

  lemma SetupIs(x1: int, y1: int, x2: int, y2: int)
    requires Length(x1, y1, x2, y2) < 0x8000
    ensures var s := LineSetup(x1, y1, x2, y2); var n := Length(x1, y1, x2, y2);
            && s.den == s.numPixels == n && s.num == n / 2 && s.numAdd == Min(Abs(x2 - x1), Abs(y2 - y1))
            && (if Abs(x2 - x1) >= Abs(y2 - y1)
                then (s.xinc1, s.xinc2, s.yinc1, s.yinc2) == (0, Sign(x1, x2), Sign(y1, y2), 0)
                else (s.xinc1, s.xinc2, s.yinc1, s.yinc2) == (Sign(x1, x2), 0, 0, Sign(y1, y2)))
  {
    hide ToInt16;
    Int16Is(Abs(x2 - x1));
    Int16Is(Abs(y2 - y1));
  }

  lemma StartTracks(x1: int, y1: int, x2: int, y2: int)
    requires Word(x1) && Word(y1) && Length(x1, y1, x2, y2) < 0x8000
    ensures Tracks(x1, y1, x2, y2, 0, Start(x1, y1, LineSetup(x1, y1, x2, y2)))
  {
    hide LineSetup;
    hide LinePoint;
    hide Rounded;
    hide ToUInt16;
    hide ToInt16;
    SetupIs(x1, y1, x2, y2);
    LineEnds(x1, y1, x2, y2);
    Fits16(x1);
    Fits16(y1);
    Wrap16(x1, 0);
    Wrap16(y1, 0);
    var n := Length(x1, y1, x2, y2);
    if n > 0 { RoundedBounds(n, Min(Abs(x2 - x1), Abs(y2 - y1)), 0); }
  }

  lemma StepMoves(s: Setup, c: Cursor, carry: bool, x: int, y: int)
    requires carry == (ToInt16(c.num + s.numAdd) >= s.den)
    requires s.xinc1 == 0 || s.xinc2 == 0
    requires s.yinc1 == 0 || s.yinc2 == 0
    requires x == ToUInt16(c.x) + (if carry then s.xinc1 else 0) + s.xinc2
    requires y == ToUInt16(c.y) + (if carry then s.yinc1 else 0) + s.yinc2
    requires Word(x) && Word(y)
    ensures ToUInt16(Step(s, c).x) == x && ToUInt16(Step(s, c).y) == y
    ensures carry ==> Step(s, c).num == ToInt16(ToInt16(c.num + s.numAdd) - s.den)
    ensures !carry ==> Step(s, c).num == ToInt16(c.num + s.numAdd)
  {
    hide ToInt16;
    hide ToUInt16;
    WordOf(c.x);
    WordOf(c.y);
    if carry {
      Wrap16(c.x, s.xinc1);
      Wrap16(c.y, s.yinc1);
      Wrap16(ToInt16(c.x + s.xinc1), s.xinc2);
      Wrap16(ToInt16(c.y + s.yinc1), s.yinc2);
    } else {
      Wrap16(c.x, s.xinc2);
      Wrap16(c.y, s.yinc2);
    }
  }

  lemma LinePointStep(x1: int, y1: int, x2: int, y2: int, k: nat, num: int)
    requires k < Length(x1, y1, x2, y2)
    requires var n, minor := Length(x1, y1, x2, y2), Min(Abs(x2 - x1), Abs(y2 - y1));
             num == n / 2 + k * minor - n * Rounded(n, minor, k)
    ensures var n, minor := Length(x1, y1, x2, y2), Min(Abs(x2 - x1), Abs(y2 - y1));
            var p, q, m := LinePoint(x1, y1, x2, y2, k), LinePoint(x1, y1, x2, y2, k + 1), if num + minor >= n then 1 else 0;
            && 0 <= num < n
            && q == (if Abs(x2 - x1) >= Abs(y2 - y1) then (p.0 + Sign(x1, x2), p.1 + Sign(y1, y2) * m)
                     else (p.0 + Sign(x1, x2) * m, p.1 + Sign(y1, y2)))
            && num + minor - n * m == n / 2 + (k + 1) * minor - n * Rounded(n, minor, k + 1)
  {
    hide Rounded;
    RoundedStep(Length(x1, y1, x2, y2), Min(Abs(x2 - x1), Abs(y2 - y1)), k);
  }

  /** One pass moves to the next point as long as the numerator does not overflow. */
  lemma StepTracks(x1: int, y1: int, x2: int, y2: int, k: nat, c: Cursor)
    requires Word(x1) && Word(y1) && Word(x2) && Word(y2)
    requires k < Length(x1, y1, x2, y2) < 0x8000
    requires Tracks(x1, y1, x2, y2, k, c)
    requires c.num + Min(Abs(x2 - x1), Abs(y2 - y1)) < 0x8000
    ensures Tracks(x1, y1, x2, y2, k + 1, Step(LineSetup(x1, y1, x2, y2), c))
  {
    var n, minor := Length(x1, y1, x2, y2), Min(Abs(x2 - x1), Abs(y2 - y1));
    var s := LineSetup(x1, y1, x2, y2);
    hide Rounded;
    hide LineSetup;
    hide LinePoint;
    hide Step;
    hide ToInt16;
    hide ToUInt16;
    SetupIs(x1, y1, x2, y2);
    LinePointStep(x1, y1, x2, y2, k, c.num);
    LineInBox(x1, y1, x2, y2, k + 1);
    Int16Is(c.num + minor);
    if c.num + minor >= n { Int16Is(c.num + minor - n); }
    var q := LinePoint(x1, y1, x2, y2, k + 1);
    StepMoves(s, c, c.num + minor >= n, q.0, q.1);
  }

  /** Exactly the points of the line are painted. */
  method DrawLine(fb: FrameBuffer, x1: nat, y1: nat, x2: nat, y2: nat, color: int)
    requires fb.Valid() && fb.Inside(x1, y1) && fb.Inside(x2, y2)
    requires fb.width <= 0x1_0000 && fb.height <= 0x1_0000
    requires Length(x1, y1, x2, y2) <= MAX_MAJOR
    modifies fb.words
    ensures forall u, v | fb.Inside(u, v) ::
      fb.At(u, v) == if OnLine(x1, y1, x2, y2, Length(x1, y1, x2, y2) + 1, u, v) then color else old(fb.At(u, v))
    ensures forall i | 0 <= i < fb.words.Length ::
      fb.words[i] == if OnLine(x1, y1, x2, y2, Length(x1, y1, x2, y2) + 1, i % fb.width, i / fb.width)
                     then color else old(fb.words[i])
  {
    hide OnLine;
    PaintLine(fb, x1, y1, x2, y2, color);
    forall i | 0 <= i < fb.words.Length
      ensures fb.words[i] == if OnLine(x1, y1, x2, y2, Length(x1, y1, x2, y2) + 1, i % fb.width, i / fb.width)
                             then color else old(fb.words[i])
    {
      fb.WordAt(i);
      fb.WordWas(i);
    }
  }

  /** The loop itself. */
  method PaintLine(fb: FrameBuffer, x1: nat, y1: nat, x2: nat, y2: nat, color: int)
    requires fb.Valid() && fb.Inside(x1, y1) && fb.Inside(x2, y2)
    requires fb.width <= 0x1_0000 && fb.height <= 0x1_0000
    requires Length(x1, y1, x2, y2) <= MAX_MAJOR
    modifies fb.words
    ensures forall u, v | fb.Inside(u, v) ::
      fb.At(u, v) == if OnLine(x1, y1, x2, y2, Length(x1, y1, x2, y2) + 1, u, v) then color else old(fb.At(u, v))
  {
    hide *;
    var s := LineSetup(x1, y1, x2, y2);
    var c := Start(x1, y1, s);
    ghost var n := Length(x1, y1, x2, y2);
    LineBegins(fb, x1, y1, x2, y2);
    var curpixel: int := 0;
    while curpixel <= s.numPixels
      invariant 0 <= curpixel <= n + 1
      invariant curpixel <= n ==> Tracks(x1, y1, x2, y2, curpixel, c)
      invariant forall u, v | fb.Inside(u, v) ::
        fb.At(u, v) == if OnLine(x1, y1, x2, y2, curpixel, u, v) then color else old(fb.At(u, v))
    {
      TracksInside(fb, x1, y1, x2, y2, curpixel, c);
      fb.DrawPixel(ToUInt16(c.x), ToUInt16(c.y), color);
      OnLineGrows(fb, x1, y1, x2, y2, curpixel);
      if curpixel < n { StepTracks(x1, y1, x2, y2, curpixel, c); }
      c := Step(s, c);
      Int16Is(curpixel + 1);
      curpixel := ToInt16(curpixel + 1);
    }
  }

  lemma LineBegins(fb: FrameBuffer, x1: nat, y1: nat, x2: nat, y2: nat)
    requires fb.Inside(x1, y1) && fb.width <= 0x1_0000 && fb.height <= 0x1_0000
    requires Length(x1, y1, x2, y2) <= MAX_MAJOR
    ensures MAX_MAJOR == 16384
    ensures LineSetup(x1, y1, x2, y2).numPixels == Length(x1, y1, x2, y2)
    ensures Tracks(x1, y1, x2, y2, 0, Start(x1, y1, LineSetup(x1, y1, x2, y2)))
    ensures forall u, v | fb.Inside(u, v) :: !OnLine(x1, y1, x2, y2, 0, u, v)
  {
    SetupIs(x1, y1, x2, y2);
    StartTracks(x1, y1, x2, y2);
    hide LineSetup;
    hide LinePoint;
    hide Rounded;
    hide Start;
  }

  lemma TracksInside(fb: FrameBuffer, x1: nat, y1: nat, x2: nat, y2: nat, k: nat, c: Cursor)
    requires fb.Inside(x1, y1) && fb.Inside(x2, y2) && fb.width <= 0x1_0000 && fb.height <= 0x1_0000
    requires k <= Length(x1, y1, x2, y2) <= MAX_MAJOR && Tracks(x1, y1, x2, y2, k, c)
    ensures fb.Inside(ToUInt16(c.x), ToUInt16(c.y))
    ensures (ToUInt16(c.x), ToUInt16(c.y)) == LinePoint(x1, y1, x2, y2, k)
    ensures Word(x1) && Word(y1) && Word(x2) && Word(y2)
    ensures k < Length(x1, y1, x2, y2) ==> c.num + Min(Abs(x2 - x1), Abs(y2 - y1)) < 0x8000
  {
    LineInBox(x1, y1, x2, y2, k);
    if k < Length(x1, y1, x2, y2) { LinePointStep(x1, y1, x2, y2, k, c.num); }
    hide LinePoint;
    hide Rounded;
  }

  lemma OnLineGrows(fb: FrameBuffer, x1: int, y1: int, x2: int, y2: int, k: nat)
    ensures forall u, v | fb.Inside(u, v) ::
      OnLine(x1, y1, x2, y2, k + 1, u, v) <==> OnLine(x1, y1, x2, y2, k, u, v) || LinePoint(x1, y1, x2, y2, k) == (u, v)
  {
    hide LinePoint;
  }

  // ----- how long a line may be -----

  function CursorAt(x1: int, y1: int, x2: int, y2: int, k: nat): Cursor {
    var s := LineSetup(x1, y1, x2, y2);
    if k == 0 then Start(x1, y1, s) else Step(s, CursorAt(x1, y1, x2, y2, k - 1))
  }

  /** The loop runs once per point of the line and the cursor shows that point each time. */
  ghost predicate Exact(x1: int, y1: int, x2: int, y2: int) {
    && LineSetup(x1, y1, x2, y2).numPixels == Length(x1, y1, x2, y2)
    && forall k: nat | k <= Length(x1, y1, x2, y2) ::
         var c := CursorAt(x1, y1, x2, y2, k);
         (ToUInt16(c.x), ToUInt16(c.y)) == LinePoint(x1, y1, x2, y2, k)
  }

  lemma {:induction false} CursorTracks(x1: int, y1: int, x2: int, y2: int, k: nat)
    requires Word(x1) && Word(y1) && Word(x2) && Word(y2)
    requires k <= Length(x1, y1, x2, y2) <= MAX_MAJOR
    ensures Tracks(x1, y1, x2, y2, k, CursorAt(x1, y1, x2, y2, k))
  {
    hide LineSetup;
    hide LinePoint;
    hide Step;
    hide Rounded;
    if k == 0 {
      StartTracks(x1, y1, x2, y2);
    } else {
      CursorTracks(x1, y1, x2, y2, k - 1);
      var c := CursorAt(x1, y1, x2, y2, k - 1);
      LinePointStep(x1, y1, x2, y2, k - 1, c.num);
      StepTracks(x1, y1, x2, y2, k - 1, c);
    }
  }

  lemma CursorNext(x1: int, y1: int, x2: int, y2: int, k: nat)
    ensures CursorAt(x1, y1, x2, y2, k + 1) == Step(LineSetup(x1, y1, x2, y2), CursorAt(x1, y1, x2, y2, k))
  {
  }

  /** Where the numerator overflows, the carry is lost and the next point is missed. */
  lemma OverflowBreaks(n: nat, k: nat)
    requires MAX_MAJOR < n < 0x8000 && k < n
    requires Tracks(0, 0, n, n - 1, k, CursorAt(0, 0, n, n - 1, k))
    requires CursorAt(0, 0, n, n - 1, k).num + n - 1 >= 0x8000
    ensures !Exact(0, 0, n, n - 1)
  {
    hide LineSetup;
    hide LinePoint;
    hide Rounded;
    hide CursorAt;
    hide Step;
    var c, c' := CursorAt(0, 0, n, n - 1, k), CursorAt(0, 0, n, n - 1, k + 1);
    var s := LineSetup(0, 0, n, n - 1);
    CursorNext(0, 0, n, n - 1, k);
    SetupIs(0, 0, n, n - 1);
    LinePointStep(0, 0, n, n - 1, k, c.num);
    LineInBox(0, 0, n, n - 1, k);
    var a := c.num + n - 1;
    assert ToInt16(a) == a - 0x1_0000 by { DivModIs(a, 0x1_0000, 0, a); }
    var p := LinePoint(0, 0, n, n - 1, k);
    StepMoves(s, c, false, p.0 + 1, p.1);
    assert ToUInt16(c'.y) != LinePoint(0, 0, n, n - 1, k + 1).1;
  }

  lemma SteepNumerator(n: nat, k: nat)
    requires 2 <= n && k <= n / 2 + 1
    ensures n / 2 + k * (n - 1) - n * Rounded(n, n - 1, k) == if k <= n / 2 then n / 2 - k else n - 1
  {
    var h := n / 2;
    assert k * (n - 1) == k * n - k;
    if k <= h {
      DivModIs(h + k * (n - 1), n, k, h - k);
    } else {
      assert n * k == n * h + n;
      DivModIs(h + k * (n - 1), n, h, n - 1);
    }
  }

  lemma {:induction false} SteepTracks(n: nat, k: nat)
    requires MAX_MAJOR < n <= 21845 && k <= n / 2 + 1
    ensures Tracks(0, 0, n, n - 1, k, CursorAt(0, 0, n, n - 1, k))
    ensures k == n / 2 + 1 ==> CursorAt(0, 0, n, n - 1, k).num == n - 1
  {
    hide LineSetup;
    hide LinePoint;
    hide Step;
    hide Rounded;
    SteepNumerator(n, k);
    if k == 0 {
      StartTracks(0, 0, n, n - 1);
    } else {
      SteepTracks(n, k - 1);
      SteepNumerator(n, k - 1);
      StepTracks(0, 0, n, n - 1, k - 1, CursorAt(0, 0, n, n - 1, k - 1));
    }
  }

  lemma LongLineBreaks(n: nat)
    requires MAX_MAJOR < n < 0x1_0000
    ensures !Exact(0, 0, n, n - 1)
  {
    if n >= 0x8000 {
      assert LineSetup(0, 0, n, n - 1).numPixels < 0x8000;
    } else if n > 21845 {
      StartTracks(0, 0, n, n - 1);
      SteepNumerator(n, 0);
      hide Rounded;
      OverflowBreaks(n, 0);
    } else {
      SteepTracks(n, n / 2 + 1);
      OverflowBreaks(n, n / 2 + 1);
    }
  }

  /** Every line of length n comes out exact, whatever its slope and place, iff n is at most 16384. */
  lemma LineExactIff(n: nat)
    requires n < 0x1_0000
    ensures (forall x1, y1, x2, y2 | Word(x1) && Word(y1) && Word(x2) && Word(y2) && Length(x1, y1, x2, y2) == n ::
               Exact(x1, y1, x2, y2))
            <==> n <= MAX_MAJOR
  {
    if n <= MAX_MAJOR {
      forall x1, y1, x2, y2 | Word(x1) && Word(y1) && Word(x2) && Word(y2) && Length(x1, y1, x2, y2) == n
        ensures Exact(x1, y1, x2, y2)
      {
        ShortLineExact(x1, y1, x2, y2);
      }
    } else {
      LongLineBreaks(n);
      assert Length(0, 0, n, n - 1) == n;
    }
  }

  lemma ShortLineExact(x1: int, y1: int, x2: int, y2: int)
    requires Word(x1) && Word(y1) && Word(x2) && Word(y2) && Length(x1, y1, x2, y2) <= MAX_MAJOR
    ensures Exact(x1, y1, x2, y2)
  {
    SetupIs(x1, y1, x2, y2);
    hide LineSetup;
    hide LinePoint;
    hide CursorAt;
    hide Rounded;
    forall k: nat | k <= Length(x1, y1, x2, y2)
      ensures var c := CursorAt(x1, y1, x2, y2, k); (ToUInt16(c.x), ToUInt16(c.y)) == LinePoint(x1, y1, x2, y2, k)
    {
      CursorTracks(x1, y1, x2, y2, k);
    }
  }
}
