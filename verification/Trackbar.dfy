// Positions and pixels of a trackbar (WTrackbr.c).

module Trackbars {
  const TBS_VERT: nat := 2
  const TBTHUMB_WIDTHMAX: int := 10

  // --- Arithmetic as in C --------------------------------------------------------------------

  function Abs(x: int): int
  {
    if x < 0 then -x else x
  }

  // Division of integers truncates.
  function Div(x: int, y: int): int
    requires y != 0
  {
    if (x < 0) == (y < 0) then Abs(x) / Abs(y) else -(Abs(x) / Abs(y))
  }

  lemma Quotient(x: int, r: int, len: int)
    requires 0 <= x && 0 < r && 0 < len
    ensures x == x / r * r + x % r && 0 <= x / r
    ensures x <= len * r ==> x / r <= len
    ensures x >= len * r ==> x / r >= len
  {
    AtMost(x / r, x % r, r, len);
  }

  lemma AtMost(q: int, m: int, r: int, len: int)
    requires 0 <= m < r
    ensures q * r + m <= len * r ==> q <= len
    ensures q * r + m >= len * r ==> q >= len
  {
    if q > len {
      More(q, len, r);
    } else if q < len {
      More(len, q, r);
    }
  }

  lemma More(a: int, b: int, r: int)
    requires a > b && r > 0
    ensures a * r >= b * r + r
  {
    assert (a - b - 1) * r >= 0;
    assert (a - b - 1) * r == a * r - b * r - r;
  }

  function Ceil(x: real): (c: int)
    ensures c as real - 1.0 < x <= c as real
  {
    -((-x).Floor)
  }

  // The conversion of a double to an int truncates.
  function Truncate(x: real): (t: int)
    ensures if x >= 0.0 then t as real <= x < t as real + 1.0 else t as real - 1.0 < x <= t as real
  {
    if x >= 0.0 then x.Floor else Ceil(x)
  }

  // How Trackbar_IGetPosFrPoint rounds.
  function Round(x: real): int
  {
    if Ceil(x) as real < x + 0.5 then Ceil(x) else Truncate(x)
  }

  // The result is a nearest integer except for a negative x above which the next integer is
  // more than one half away: then it is that integer all the same.
  lemma RoundIsNearest(x: real)
    ensures (Round(x) as real - 0.5 <= x <= Round(x) as real + 0.5) <==> (x >= 0.0 || Ceil(x) as real - x <= 0.5)
    ensures x < 0.0 ==> Round(x) == Ceil(x)
  {
    RoundIs(x, Round(x));
  }

  lemma RoundIs(x: real, n: int)
    ensures Round(x) == n <==>
            if x < 0.0 then n as real - 1.0 < x <= n as real
            else n as real - 0.5 < x <= n as real || (n as real <= x <= n as real + 0.5)
  {
  }

  // --- Positions and points --------------------------------------------------------------------

  // A channel of len pixels from pixel start on, for the positions from min to max.
  datatype Channel = Channel(min: int, max: int, start: int, len: int)

  ghost predicate Usable(c: Channel)
  {
    c.min != c.max && c.len > 0
  }

  ghost predicate InRange(c: Channel, pos: int)
  {
    c.min <= pos <= c.max || c.max <= pos <= c.min
  }

  // Trackbar_IGetPointFrPos
  function PointFrPos(c: Channel, pos: int): (point: int)
    requires Usable(c)
    ensures c.start <= point <= c.start + c.len
  {
    var point := c.start + Div((pos - c.min) * c.len, c.max - c.min);
    var p := if point > c.start + c.len then c.start + c.len else point;
    if p < c.start then c.start else p
  }

  // Trackbar_IGetPosFrPoint, before and after rounding
  function PosAt(c: Channel, point: int): real
    requires Usable(c)
  {
    c.min as real + (point - c.start) as real * (c.max - c.min) as real / c.len as real
  }

  function PosFrPoint(c: Channel, point: int): int
    requires Usable(c)
  {
    Round(PosAt(c, point))
  }

  // What the division loses.
  function Lost(c: Channel, pos: int): (r: int)
    requires Usable(c)
    ensures 0 <= r < Abs(c.max - c.min)
  {
    Abs(pos - c.min) * c.len % Abs(c.max - c.min)
  }

  // When a position is read back as it was: at most half a pixel step may be lost; below zero,
  // where positions are rounded up, a whole one, or none in a range that descends.
  predicate Exact(c: Channel, pos: int)
    requires Usable(c)
  {
    if c.min < c.max then 2 * Lost(c, pos) < c.len || (pos <= 0 && Lost(c, pos) < c.len)
    else Lost(c, pos) == 0 || (pos >= 0 && 2 * Lost(c, pos) <= c.len)
  }

  lemma PointInRange(c: Channel, pos: int)
    requires Usable(c) && InRange(c, pos)
    ensures var d, r := Abs(pos - c.min), Abs(c.max - c.min);
            PointFrPos(c, pos) == c.start + d * c.len / r && d * c.len == d * c.len / r * r + Lost(c, pos)
  {
    var d, r := Abs(pos - c.min), Abs(c.max - c.min);
    Product(d, r, c.len);
    Quotient(d * c.len, r, c.len);
    assert (pos - c.min) * c.len == if c.min < c.max then d * c.len else -(d * c.len);
  }

  lemma Product(d: int, r: int, len: int)
    requires 0 <= d && 0 < r && 0 < len
    ensures 0 <= d * len
    ensures d <= r ==> d * len <= len * r
    ensures d >= r ==> d * len >= len * r
  {
    assert d <= r ==> (r - d) * len >= 0;
    assert d >= r ==> (d - r) * len >= 0;
  }

  lemma PointRead(c: Channel, pos: int, q: int)
    requires Usable(c) && InRange(c, pos) && Abs(pos - c.min) * c.len == q * Abs(c.max - c.min) + Lost(c, pos)
    ensures PosAt(c, c.start + q) ==
            if c.min < c.max then pos as real - Lost(c, pos) as real / c.len as real
            else pos as real + Lost(c, pos) as real / c.len as real
  {
    if c.min < c.max {
      PosAtIs(c, q, pos - c.min, -Lost(c, pos));
    } else {
      PosAtIs(c, q, pos - c.min, Lost(c, pos));
    }
  }

  lemma PosAtIs(c: Channel, k: int, a: int, y: int)
    requires Usable(c) && k * (c.max - c.min) == a * c.len + y
    ensures PosAt(c, c.start + k) == (c.min + a) as real + y as real / c.len as real
  {
    assert k as real * (c.max - c.min) as real == (k * (c.max - c.min)) as real;
    assert (a * c.len) as real == a as real * c.len as real;
    Divide(a as real, c.len as real, y as real);
  }

  lemma Divide(x: real, l: real, y: real)
    requires l > 0.0
    ensures (x * l + y) / l == x + y / l
  {
  }

  // What is read at any point: a nearest position, the lower one of two, and below zero the next
  // one above.  Nothing else fits.
  lemma PointReadIs(c: Channel, point: int, p: int)
    requires Usable(c)
    ensures PosFrPoint(c, point) == p <==>
            var error := (p - c.min) * c.len - (point - c.start) * (c.max - c.min);
            if c.min * c.len + (point - c.start) * (c.max - c.min) >= 0 then -c.len <= 2 * error < c.len
            else 0 <= error < c.len
  {
    var d := (point - c.start) * (c.max - c.min);
    var x := c.min as real + d as real / c.len as real;
    PosAtFraction(c, point);
    RoundIs(x, p);
    hide Round, PosAt;
    BelowZero(c.min, d, c.len);
    Scaled(c.min, d, c.len, p);
  }

  lemma PosAtFraction(c: Channel, point: int)
    requires Usable(c)
    ensures PosAt(c, point) == c.min as real + ((point - c.start) * (c.max - c.min)) as real / c.len as real
  {
    assert (point - c.start) as real * (c.max - c.min) as real == ((point - c.start) * (c.max - c.min)) as real;
  }

  lemma BelowZero(min: int, d: int, len: int)
    requires len > 0
    ensures min as real + d as real / len as real < 0.0 <==> min * len + d < 0
  {
    Scaled(min, d, len, 0);
    assert (0 - min) * len == -(min * len);
  }

  // Comparing min + d / len with a number p and its neighbours.
  lemma Scaled(min: int, d: int, len: int, p: int)
    requires len > 0
    ensures var x, e := min as real + d as real / len as real, (p - min) * len - d;
            (x < p as real <==> e > 0) && (x == p as real <==> e == 0) &&
            (p as real - 1.0 < x <==> e < len) &&
            (p as real - 0.5 < x <==> 2 * e < len) && (x <= p as real + 0.5 <==> -len <= 2 * e)
  {
    var l := len as real;
    var f := d as real / l;
    assert f * l == d as real;
    var q := (p - min) as real;
    assert ((p - min) * len) as real == q * l;
    Compare(f, l, d as real, q);
    Compare(f, l, d as real, q - 1.0);
    Compare(f, l, d as real, q - 0.5);
    Compare(f, l, d as real, q + 0.5);
    assert (q - 1.0) * l == q * l - l && (q - 0.5) * l == q * l - 0.5 * l && (q + 0.5) * l == q * l + 0.5 * l;
  }

  // The point of a position: the part of the channel that belongs to it, cut off to a pixel, or
  // the end of the channel next to it.
  predicate Stands(point: int, start: int, len: int, min: int, max: int, pos: int)
  {
    if min <= pos <= max then 0 <= (pos - min) * len - (point - start) * (max - min) < max - min
    else if max <= pos <= min then 0 <= (min - pos) * len - (point - start) * (min - max) < min - max
    else point == if (pos < min) == (min < max) then start else start + len
  }

  lemma PointStands(c: Channel, pos: int)
    requires Usable(c)
    ensures Stands(PointFrPos(c, pos), c.start, c.len, c.min, c.max, pos)
  {
    if InRange(c, pos) {
      PointInRange(c, pos);
    } else {
      PointOutside(c, pos);
    }
  }

  // Reading back the point of a position in the range gives the position exactly when it is
  // Exact.
  lemma ReadBack(c: Channel, pos: int)
    requires Usable(c) && InRange(c, pos)
    ensures PosFrPoint(c, PointFrPos(c, pos)) == pos <==> Exact(c, pos)
  {
    hide Round, PosAt, PointFrPos, Lost;
    var q := Abs(pos - c.min) * c.len / Abs(c.max - c.min);
    PointInRange(c, pos);
    PointRead(c, pos, q);
    var f := Lost(c, pos) as real / c.len as real;
    Fraction(Lost(c, pos), c.len);
    Rounded(pos, f);
  }

  lemma Rounded(pos: int, f: real)
    requires f >= 0.0
    ensures Round(pos as real - f) == pos <==> f < 0.5 || (pos <= 0 && f < 1.0)
    ensures Round(pos as real + f) == pos <==> f == 0.0 || (pos >= 0 && f <= 0.5)
  {
    RoundIs(pos as real - f, pos);
    RoundIs(pos as real + f, pos);
  }

  lemma Fraction(x: int, l: int)
    requires 0 <= x && 0 < l
    ensures var f := x as real / l as real;
            f >= 0.0 && (f == 0.0 <==> x == 0) && (f < 0.5 <==> 2 * x < l) && (f <= 0.5 <==> 2 * x <= l) &&
            (f < 1.0 <==> x < l)
  {
    var f := x as real / l as real;
    assert f * l as real == x as real;
    Compare(f, l as real, x as real, 0.5);
    Compare(f, l as real, x as real, 1.0);
    Compare(f, l as real, x as real, 0.0);
  }

  lemma Compare(f: real, l: real, x: real, b: real)
    requires l > 0.0 && f * l == x
    ensures (f < b <==> x < b * l) && (f == b <==> x == b * l)
  {
    if f < b {
      assert (b - f) * l > 0.0;
    } else {
      assert (f - b) * l >= 0.0;
      assert f > b ==> (f - b) * l > 0.0;
    }
  }

  // In a channel with two pixels to a position every position is read back, except for those
  // below zero in a range that descends.
  lemma LongChannel(c: Channel, pos: int)
    requires Usable(c) && InRange(c, pos) && c.len >= 2 * Abs(c.max - c.min) - 1
    requires c.min < c.max || pos >= 0
    ensures PosFrPoint(c, PointFrPos(c, pos)) == pos
  {
    ReadBack(c, pos);
  }

  // Such a position: 0 is read back for -1, though there are three pixels to a position.
  lemma DescendingFails()
    ensures var c := Channel(0, -3, 0, 10);
            Usable(c) && InRange(c, -1) && PosFrPoint(c, PointFrPos(c, -1)) == 0
  {
    var c := Channel(0, -3, 0, 10);
    PointInRange(c, -1);
    PointRead(c, -1, 3);
    RoundIs(PosAt(c, 3), 0);
  }

  lemma PointOutside(c: Channel, pos: int)
    requires Usable(c) && !InRange(c, pos)
    ensures PointFrPos(c, pos) == if (pos < c.min) == (c.min < c.max) then c.start else c.start + c.len
  {
    SignedProduct(pos - c.min, c.max - c.min, c.len);
    DivideBeyond((pos - c.min) * c.len, c.max - c.min, c.len);
    PointClamps(c, pos, Div((pos - c.min) * c.len, c.max - c.min));
  }

  lemma SignedProduct(k: int, r: int, len: int)
    requires len > 0
    ensures (k < 0 <==> k * len < 0) && (k == 0 <==> k * len == 0)
    ensures Abs(k) >= Abs(r) ==> Abs(k * len) >= len * Abs(r)
  {
    assert k > 0 ==> k * len > 0;
    assert k < 0 ==> (-k) * len > 0 && (-k) * len == -(k * len);
    assert Abs(k) >= Abs(r) ==> (Abs(k) - Abs(r)) * len >= 0;
    assert (Abs(k) - Abs(r)) * len == Abs(k) * len - len * Abs(r);
  }

  lemma PointClamps(c: Channel, pos: int, q: int)
    requires Usable(c) && q == Div((pos - c.min) * c.len, c.max - c.min)
    ensures q <= 0 ==> PointFrPos(c, pos) == c.start
    ensures q >= c.len ==> PointFrPos(c, pos) == c.start + c.len
  {
  }

  lemma DivideBeyond(x: int, y: int, len: int)
    requires y != 0 && len > 0
    ensures (x < 0) != (y < 0) ==> Div(x, y) <= 0
    ensures (x < 0) == (y < 0) && Abs(x) >= len * Abs(y) ==> Div(x, y) >= len
  {
    Quotient(Abs(x), Abs(y), len);
  }

  // Positions outside the range are read back as the end of the range next to them.
  lemma ReadBackOutside(c: Channel, pos: int)
    requires Usable(c) && !InRange(c, pos)
    ensures PosFrPoint(c, PointFrPos(c, pos)) ==
            if (pos < c.min) == (c.min < c.max) then c.min else c.max
  {
    PointOutside(c, pos);
    Ends(c);
  }

  lemma Ends(c: Channel)
    requires Usable(c)
    ensures PosFrPoint(c, c.start) == c.min && PosFrPoint(c, c.start + c.len) == c.max
  {
    PosAtIs(c, 0, 0, 0);
    PosAtIs(c, c.len, c.max - c.min, 0);
    RoundIs(c.min as real, c.min);
    RoundIs(c.max as real, c.max);
  }

  // --- The trackbar --------------------------------------------------------------------------

  datatype Rect = Rect(left: int, top: int, right: int, bottom: int)
  datatype Point = Point(x: int, y: int)
  datatype Size = Size(cx: int, cy: int)

  class Trackbar {
    var uStyles: nat
    var sizRange: Size
    var ptPos: Point
    var ptSize: Size
    var nThumbPos: int
    var rectSlide: Rect

    predicate Vertical()
      reads this`uStyles
    {
      uStyles / TBS_VERT % 2 == 1
    }

    function Chan(): Channel
      reads this`uStyles, this`sizRange, this`ptPos, this`ptSize
    {
      if Vertical() then Channel(sizRange.cx, sizRange.cy, ptPos.y, ptSize.cy)
      else Channel(sizRange.cx, sizRange.cy, ptPos.x, ptSize.cx)
    }

    // Trackbar_IGetPosFrPoint
    function IGetPosFrPoint(point: int): int
      reads this`uStyles, this`sizRange, this`ptPos, this`ptSize
      requires Usable(Chan())
    {
      PosFrPoint(Chan(), point)
    }

    // What is read at a point, along the axis of the trackbar.
    lemma Reads(point: int, p: int)
      requires sizRange.cx != sizRange.cy
      requires if uStyles / 2 % 2 == 1 then ptSize.cy > 0 else ptSize.cx > 0
      ensures Usable(Chan())
      ensures uStyles / 2 % 2 == 1 ==>
                (IGetPosFrPoint(point) == p <==>
                 var along := (point - ptPos.y) * (sizRange.cy - sizRange.cx);
                 var error := (p - sizRange.cx) * ptSize.cy - along;
                 if sizRange.cx * ptSize.cy + along >= 0 then -ptSize.cy <= 2 * error < ptSize.cy
                 else 0 <= error < ptSize.cy)
      ensures uStyles / 2 % 2 == 0 ==>
                (IGetPosFrPoint(point) == p <==>
                 var along := (point - ptPos.x) * (sizRange.cy - sizRange.cx);
                 var error := (p - sizRange.cx) * ptSize.cx - along;
                 if sizRange.cx * ptSize.cx + along >= 0 then -ptSize.cx <= 2 * error < ptSize.cx
                 else 0 <= error < ptSize.cx)
    {
      PointReadIs(Chan(), point, p);
    }

    // Trackbar_IGetCurPoint
    function IGetCurPoint(): (point: int)
      reads this`uStyles, this`rectSlide
      ensures uStyles / 2 % 2 == 1 ==> point == rectSlide.top + 5
      ensures uStyles / 2 % 2 == 0 ==> point == rectSlide.left + 5
    {
      if Vertical() then rectSlide.top + TBTHUMB_WIDTHMAX / 2 else rectSlide.left + TBTHUMB_WIDTHMAX / 2
    }

    // Trackbar_ISetThumbPos
    method ISetThumbPos(NewPos: int)
      requires sizRange.cx != sizRange.cy
      requires if uStyles / 2 % 2 == 1 then ptSize.cy > 0 else ptSize.cx > 0
      modifies this`nThumbPos, this`rectSlide
      ensures nThumbPos == NewPos
      ensures uStyles / 2 % 2 == 1 ==>
                Stands(rectSlide.top + 5, ptPos.y, ptSize.cy, sizRange.cx, sizRange.cy, NewPos) &&
                rectSlide.bottom == rectSlide.top + 10 &&
                rectSlide.left == old(rectSlide.left) && rectSlide.right == old(rectSlide.right)
      ensures uStyles / 2 % 2 == 0 ==>
                Stands(rectSlide.left + 5, ptPos.x, ptSize.cx, sizRange.cx, sizRange.cy, NewPos) &&
                rectSlide.right == rectSlide.left + 10 &&
                rectSlide.top == old(rectSlide.top) && rectSlide.bottom == old(rectSlide.bottom)
      ensures Usable(Chan()) && IGetCurPoint() == PointFrPos(Chan(), NewPos)
      ensures InRange(Chan(), NewPos) ==> (IGetPosFrPoint(IGetCurPoint()) == nThumbPos <==> Exact(Chan(), NewPos))
    {
      nThumbPos := NewPos;
      var newPoint := PointFrPos(Chan(), NewPos);
      if Vertical() {
        rectSlide := rectSlide.(top := newPoint - TBTHUMB_WIDTHMAX / 2);
        rectSlide := rectSlide.(bottom := newPoint + TBTHUMB_WIDTHMAX / 2);
      } else {
        rectSlide := rectSlide.(left := newPoint - TBTHUMB_WIDTHMAX / 2);
        rectSlide := rectSlide.(right := newPoint + TBTHUMB_WIDTHMAX / 2);
      }
      PointStands(Chan(), NewPos);
      if InRange(Chan(), NewPos) {
        ReadBack(Chan(), NewPos);
      }
    }
  }
}
