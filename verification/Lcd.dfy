/** Frame buffer addressing of BSP_LCD_DrawPixel and the circle of BSP_LCD_DrawCircle
    (Drivers/BSP/STM32746G-Discovery/stm32746g_discovery_lcd.c). */
module Lcd {
  import opened Arith

  function ToUInt16(a: int): nat { a % 0x1_0000 }

  lemma Fits16(a: nat)
    requires a < 0x1_0000
    ensures ToUInt16(a) == a
  {
  }

  function ToUInt32(a: int): nat { a % 0x1_0000_0000 }

  function ToInt32(a: int): int {
    var r := ToUInt32(a);
    if r < 0x8000_0000 then r else r - 0x1_0000_0000
  }

  lemma PixelIndexBound(x: int, y: int, w: int, h: int)
    requires 0 <= x < w && 0 <= y < h
    ensures 0 <= y * w + x < w * h
  {
    assert (h - 1 - y) * w >= 0;
    assert (h - 1 - y) * w == h * w - w - y * w;
  }

  lemma PixelIndexInjective(x: int, y: int, u: int, v: int, w: int)
    requires 0 <= x < w && 0 <= u < w
    requires y * w + x == v * w + u
    ensures x == u && y == v
  {
    DivModIs(y * w + x, w, y, x);
    DivModIs(v * w + u, w, v, u);
  }

  /** Every word belongs to a pixel: rows follow one another. */
  lemma WordIsPixel(i: int, w: int, h: int)
    requires 0 <= i < w * h && w > 0
    ensures 0 <= i % w < w && 0 <= i / w < h && i / w * w + i % w == i
  {
    ProductAtLeast(i / w - h + 1, w);
    assert w * (i / w - h + 1) == i / w * w - w * h + w;
  }

  class FrameBuffer {
    const width: nat
    const height: nat
    const words: array<int>

    constructor (w: nat, h: nat)
      ensures width == w && height == h && Valid() && fresh(words)
    {
      width, height := w, h;
      words := new int[w * h];
    }

    ghost predicate Valid() {
      words.Length == width * height
    }

    predicate Inside(x: int, y: int) {
      0 <= x < width && 0 <= y < height
    }

    ghost function At(x: int, y: int): int
      requires Valid() && Inside(x, y)
      reads words
    {
      PixelIndexBound(x, y, width, height);
      words[y * width + x]
    }

    /** The word of a pixel. */
    lemma WordAt(i: int)
      requires Valid() && 0 <= i < words.Length && width > 0
      ensures Inside(i % width, i / width) && At(i % width, i / width) == words[i]
    {
      WordIsPixel(i, width, height);
    }

    /** One word of the frame buffer changes, and it is the one of the pixel asked for. */
    method DrawPixel(x: nat, y: nat, color: int)
      requires Valid() && Inside(x, y)
      modifies words
      ensures 0 <= y * width + x < words.Length && words[..] == old(words[..])[y * width + x := color]
      ensures forall u, v | Inside(u, v) :: At(u, v) == if (u, v) == (x, y) then color else old(At(u, v))
    {
      PixelIndexBound(x, y, width, height);
      words[y * width + x] := color;
      forall u, v | Inside(u, v)
        ensures At(u, v) == if (u, v) == (x, y) then color else old(At(u, v))
      {
        PixelIndexBound(u, v, width, height);
        if y * width + x == v * width + u { PixelIndexInjective(x, y, u, v, width); }
      }
    }

    /** The loop of BSP_LCD_DrawCircle paints exactly the pixels nearest to the circle. */
    method DrawCircle(xpos: nat, ypos: nat, radius: nat, color: int)
      requires Valid() && 1 <= radius < 0x1_0000
      requires radius <= xpos && xpos + radius < width <= 0x1_0000
      requires radius <= ypos && ypos + radius < height <= 0x1_0000
      modifies words
      ensures forall u, v | Inside(u, v) ::
        At(u, v) == if OnCircle(radius, u - xpos, v - ypos) then color else old(At(u, v))
      ensures forall i | 0 <= i < words.Length ::
        words[i] == if OnCircle(radius, i % width - xpos, i / width - ypos) then color else old(words[i])
    {
      PaintCircle(xpos, ypos, radius, color);
      hide OnCircle;
      forall i | 0 <= i < words.Length
        ensures words[i] == if OnCircle(radius, i % width - xpos, i / width - ypos) then color else old(words[i])
      {
        WordAt(i);
        WordWas(i);
      }
    }

    twostate lemma WordWas(i: int)
      requires Valid() && 0 <= i < words.Length && width > 0 && Inside(i % width, i / width)
      ensures old(At(i % width, i / width)) == old(words[i])
    {
      WordIsPixel(i, width, height);
    }

    /** The loop itself. */
    method PaintCircle(xpos: nat, ypos: nat, radius: nat, color: int)
      requires Valid() && 1 <= radius < 0x1_0000
      requires radius <= xpos && xpos + radius < width <= 0x1_0000
      requires radius <= ypos && ypos + radius < height <= 0x1_0000
      modifies words
      ensures forall u, v | Inside(u, v) ::
        At(u, v) == if OnCircle(radius, u - xpos, v - ypos) then color else old(At(u, v))
    {
      var decision := 3 - 2 * radius;
      var x, y := 0, radius;
      CircleStart(radius);
      while x <= y
        invariant CircleInv(radius, x, y, decision)
        invariant forall u, v | Inside(u, v) ::
          At(u, v) == if OnCircle(radius, u - xpos, v - ypos) && Low(u - xpos, v - ypos) < x
                      then color else old(At(u, v))
        decreases 2 * radius - x
      {
        CircleBounds(radius, x, y, decision);
        DrawOctants(xpos, ypos, x, y, color);
        forall u, v | Inside(u, v)
          ensures OnCircle(radius, u - xpos, v - ypos) && Low(u - xpos, v - ypos) == x
                  <==> EightWay(u - xpos, v - ypos, x, y)
        {
          OctantsAreOnCircle(radius, x, y, u - xpos, v - ypos);
        }
        CircleStepKeeps(radius, x, y, decision);
        decision, x, y := NextDecision(decision, x, y), NextX(x), NextY(decision, y);
      }
      forall u, v | Inside(u, v) && OnCircle(radius, u - xpos, v - ypos)
        ensures Low(u - xpos, v - ypos) < x
      {
        CircleEnds(radius, x, y, decision, Low(u - xpos, v - ypos), High(u - xpos, v - ypos));
      }
    }

    /** The eight BSP_LCD_DrawPixel calls of one step; addresses are truncated to 16 bits. */
    method DrawOctants(xpos: nat, ypos: nat, x: nat, y: nat, color: int)
      requires Valid() && x <= y
      requires y <= xpos && xpos + y < width <= 0x1_0000
      requires y <= ypos && ypos + y < height <= 0x1_0000
      modifies words
      ensures forall u, v | Inside(u, v) ::
        At(u, v) == if EightWay(u - xpos, v - ypos, x, y) then color else old(At(u, v))
    {
      hide *;
      Fits16(ypos - y);
      Fits16(ypos - x);
      Fits16(ypos + y);
      Fits16(ypos + x);
      var top, up, bottom, down := ToUInt16(ypos - y), ToUInt16(ypos - x), ToUInt16(ypos + y), ToUInt16(ypos + x);
      DrawPairs(xpos, x, top, y, up, color);
      DrawPairs(xpos, x, bottom, y, down, color);
      forall u, v | Inside(u, v)
        ensures At(u, v) == if EightWay(u - xpos, v - ypos, x, y) then color else old(At(u, v))
      {
        EightWayIs(u - xpos, v - ypos, x, y);
      }
    }

    method DrawPairs(xpos: nat, x: nat, rowX: nat, y: nat, rowY: nat, color: int)
      requires Valid() && rowX < height && rowY < height && x <= y
      requires y <= xpos && xpos + y < width <= 0x1_0000
      modifies words
      ensures forall u, v | Inside(u, v) ::
        At(u, v) == if (Abs(u - xpos) == x && v == rowX) || (Abs(u - xpos) == y && v == rowY)
                    then color else old(At(u, v))
    {
      hide *;
      DrawPair(xpos, x, rowX, color);
      DrawPair(xpos, y, rowY, color);
    }

    method DrawPair(xpos: nat, dx: nat, row: nat, color: int)
      requires Valid() && row < height
      requires dx <= xpos && xpos + dx < width <= 0x1_0000
      modifies words
      ensures forall u, v | Inside(u, v) ::
        At(u, v) == if Abs(u - xpos) == dx && v == row then color else old(At(u, v))
    {
      hide At;
      hide ToUInt16;
      Fits16(xpos + dx);
      Fits16(xpos - dx);
      DrawPixel(ToUInt16(xpos + dx), row, color);
      DrawPixel(ToUInt16(xpos - dx), row, color);
    }
  }

  // ----- one step of the circle loop, in the source's 32-bit arithmetic -----

  function NextDecision(decision: int, x: nat, y: nat): int {
    if decision < 0 then ToInt32(decision + ToUInt32(4 * x) + 6)
    else ToInt32(decision + ToUInt32(4 * ToUInt32(x - y)) + 10)
  }

  function NextX(x: nat): nat { ToUInt32(x + 1) }

  function NextY(decision: int, y: nat): nat {
    if decision < 0 then y else ToUInt32(y - 1)
  }

  // ----- what a circle pixel is -----

  function Abs(a: int): nat { if a < 0 then -a else a }

  function Low(dx: int, dy: int): nat { if Abs(dx) <= Abs(dy) then Abs(dx) else Abs(dy) }

  function High(dx: int, dy: int): nat { if Abs(dx) <= Abs(dy) then Abs(dy) else Abs(dx) }

  /** Same offsets up to sign and exchange of the axes. */
  predicate EightWay(dx: int, dy: int, x: nat, y: nat) {
    Low(dx, dy) == x && High(dx, dy) == y
  }

  lemma EightWayIs(dx: int, dy: int, x: nat, y: nat)
    requires x <= y
    ensures EightWay(dx, dy, x, y) <==> (Abs(dx) == x && (dy == y || dy + y == 0)) || (Abs(dx) == y && (dy == x || dy + x == 0))
  {
  }

  /** How far a lattice point is outside the circle, in squared distance. */
  function Excess(r: int, x: int, y: int): int { x * x + y * y - r * r }

  /** On column x, y is the row whose squared distance misses the circle by less than half a row. */
  predicate Nearest(r: int, x: int, y: int) { -y <= Excess(r, x, y) <= y - 1 }

  predicate OnCircle(r: int, dx: int, dy: int) { Nearest(r, Low(dx, dy), High(dx, dy)) }

  ghost predicate CircleInv(r: nat, x: nat, y: nat, decision: int) {
    && x <= r + 1 && y <= r
    && decision == 2 * Excess(r, x, y) + 4 * x + 3 - 2 * y
    && (x <= y ==> Nearest(r, x, y))
    && 0 <= Excess(r, x, y) + y
    && (x == 0 ==> y == r)
  }

  lemma CircleStart(r: nat)
    requires r >= 1
    ensures CircleInv(r, 0, r, 3 - 2 * r)
  {
  }

  lemma CircleBounds(r: nat, x: nat, y: nat, decision: int)
    requires CircleInv(r, x, y, decision) && x <= y
    ensures -4 * r <= decision <= 4 * r + 1
  {
  }

  /** The decision variable compares the two candidate rows of the next column. */
  lemma DecisionIs(r: nat, x: nat, y: nat, decision: int)
    requires CircleInv(r, x, y, decision)
    ensures decision == 2 * (x + 1) * (x + 1) + y * y + (y - 1) * (y - 1) - 2 * r * r
    ensures decision == Excess(r, x + 1, y) + Excess(r, x + 1, y - 1)
  {
    ExcessStep(r, x, y);
    assert 2 * (x + 1) * (x + 1) == 2 * (x * x) + 4 * x + 2;
    assert (y - 1) * (y - 1) == y * y - 2 * y + 1;
    assert 2 * r * r == 2 * (r * r);
  }

  lemma NextDecisionIs(r: nat, decision: int, x: nat, y: nat)
    requires r < 0x1_0000 && x <= y <= r && -4 * r <= decision <= 4 * r + 1
    ensures NextDecision(decision, x, y) == if decision < 0 then decision + 4 * x + 6 else decision + 4 * (x - y) + 10
  {
    if decision < 0 {
      Int32Is(decision + 4 * x + 6, 0);
    } else if x < y {
      assert ToUInt32(x - y) == x - y + 0x1_0000_0000;
      assert ToUInt32(4 * (x - y + 0x1_0000_0000)) == 4 * (x - y) + 0x1_0000_0000;
      Int32Is(decision + 4 * (x - y) + 10, 1);
    } else {
      Int32Is(decision + 10, 0);
    }
  }

  lemma Int32Is(a: int, k: int)
    requires -0x8000_0000 <= a < 0x8000_0000
    ensures ToInt32(a + k * 0x1_0000_0000) == a
  {
    DivModIs(a + k * 0x1_0000_0000, 0x1_0000_0000, if a < 0 then k - 1 else k, if a < 0 then a + 0x1_0000_0000 else a);
  }

  lemma ExcessStep(r: nat, x: nat, y: nat)
    ensures Excess(r, x + 1, y) == Excess(r, x, y) + 2 * x + 1
    ensures Excess(r, x + 1, y - 1) == Excess(r, x, y) + 2 * x + 2 - 2 * y
  {
    assert (x + 1) * (x + 1) == x * x + 2 * x + 1;
    assert (y - 1) * (y - 1) == y * y - 2 * y + 1;
  }

  lemma NextPlaces(x: nat, y: nat, decision: int)
    requires x <= y < 0x1_0000 && y > 0
    ensures NextX(x) == x + 1 && NextY(decision, y) == if decision < 0 then y else y - 1
  {
  }

  /** A step keeps the invariant, and never takes y below zero. */
  lemma CircleStepKeeps(r: nat, x: nat, y: nat, decision: int)
    requires 1 <= r < 0x1_0000 && CircleInv(r, x, y, decision) && x <= y
    ensures NextX(x) == x + 1 && NextY(decision, y) == (if decision < 0 then y else y - 1)
    ensures CircleInv(r, NextX(x), NextY(decision, y), NextDecision(decision, x, y))
  {
    hide NextX;
    hide NextY;
    hide NextDecision;
    hide Excess;
    NextPlaces(x, y, decision);
    CircleBounds(r, x, y, decision);
    NextDecisionIs(r, decision, x, y);
    ExcessStep(r, x, y);
  }

  lemma SquareGap(y: nat, z: nat)
    requires y < z
    ensures z * z - z >= y * y + y
  {
    assert (z - y - 1) * (z + y) == z * z - z - y * y - y;
  }

  /** A column has one nearest row. */
  lemma NearestUnique(r: int, x: int, y: nat, z: nat)
    requires Nearest(r, x, y) && Nearest(r, x, z)
    ensures y == z
  {
    if y < z { SquareGap(y, z); }
    if z < y { SquareGap(z, y); }
  }

  /** The eight mirrored points are all the circle pixels whose smaller offset is x. */
  lemma OctantsAreOnCircle(r: int, x: nat, y: nat, dx: int, dy: int)
    requires x <= y && Nearest(r, x, y)
    ensures OnCircle(r, dx, dy) && Low(dx, dy) == x <==> EightWay(dx, dy, x, y)
  {
    if OnCircle(r, dx, dy) && Low(dx, dy) == x { NearestUnique(r, x, y, High(dx, dy)); }
  }

  lemma SquareMonotone(x: nat, a: nat)
    requires x <= a
    ensures x * x <= a * a
  {
    assert (a - x) * (a + x) == a * a - x * x;
  }

  /** When the loop stops, no circle pixel has a smaller offset left to visit. */
  lemma CircleEnds(r: nat, x: nat, y: nat, decision: int, a: nat, b: nat)
    requires CircleInv(r, x, y, decision) && y < x
    requires a <= b && Nearest(r, a, b)
    ensures a < x
  {
    if x <= a {
      SquareMonotone(x, a);
      SquareGap(y, b);
    }
  }

  // ----- how long the loop runs -----

  datatype Arc = Arc(x: nat, y: nat, decision: int)

  /** The loop variables after k steps. */
  function ArcAt(r: nat, k: nat): Arc {
    if k == 0 then Arc(0, r, 3 - 2 * r)
    else
      var a := ArcAt(r, k - 1);
      Arc(NextX(a.x), NextY(a.decision, a.y), NextDecision(a.decision, a.x, a.y))
  }

  /** The loop guard holds before each of the steps 0 to k. */
  predicate Running(r: nat, k: nat) {
    (k == 0 || Running(r, k - 1)) && ArcAt(r, k).x <= ArcAt(r, k).y
  }

  lemma {:induction false} RunningInv(r: nat, k: nat)
    requires 1 <= r < 0x1_0000
    requires k == 0 || Running(r, k - 1)
    ensures var a := ArcAt(r, k); a.x == k && CircleInv(r, a.x, a.y, a.decision)
  {
    if k == 0 {
      CircleStart(r);
    } else {
      RunningInv(r, k - 1);
      var a := ArcAt(r, k - 1);
      CircleStepKeeps(r, a.x, a.y, a.decision);
    }
  }

  lemma StepAtZero(x: nat, y: nat, decision: int)
    requires x == 0 && y == 0 && decision == 3
    ensures NextX(x) == 1 && NextY(decision, y) == 0xFFFF_FFFF
  {
  }

  lemma ZeroRadiusWraps(r: nat)
    requires r == 0
    ensures Running(r, 1) && ArcAt(r, 1).y == 0xFFFF_FFFF
  {
    hide NextX;
    hide NextY;
    hide NextDecision;
    var a := ArcAt(r, 0);
    StepAtZero(a.x, a.y, a.decision);
    assert Running(r, 0);
  }

  /** The loop stops within r + 1 steps for every radius but 0, where y wraps around below zero. */
  lemma CircleStopsIff(r: nat)
    requires r < 0x1_0000
    ensures !Running(r, r + 1) <==> r >= 1
    ensures r == 0 ==> ArcAt(r, 1).y == 0xFFFF_FFFF
  {
    hide NextX;
    hide NextY;
    hide NextDecision;
    if r == 0 {
      ZeroRadiusWraps(r);
    } else if Running(r, r) {
      RunningInv(r, r + 1);
    }
  }
}
