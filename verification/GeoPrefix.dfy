/** Geohash prefixes: runs of curve positions that share their high-order bits, the rectangles
    they denote, and the cover of a query rectangle by a few of them.

    A hash has `2 * k` bits, so a prefix with offset `2 * k` is the whole curve. */
module GeoPrefix {
  import opened Bits
  import opened HilbertCurve
  import opened GeoHash

  datatype Prefix = Prefix(value: nat, offset: nat) {
    predicate Valid(k: nat) {
      offset <= 2 * k && value < Cells(k) && value % Pow2(offset) == 0
    }

    /** The first position past the prefix. */
    function End(): nat { value + Pow2(offset) }

    /** The positions that have this prefix. */
    predicate Matches(h: nat) { value <= h < End() }
  }

  /** The constructor masks the ignored bits away. */
  function MakePrefix(k: nat, value: nat, offset: nat): Prefix
    requires offset <= 2 * k
  {
    Prefix(if offset == 2 * k then 0 else And(value, HighMask(2 * k, offset)), offset)
  }

  lemma MakeValid(k: nat, value: nat, offset: nat)
    requires offset <= 2 * k && value < Cells(k)
    ensures MakePrefix(k, value, offset) == Prefix(value - value % Pow2(offset), offset)
    ensures MakePrefix(k, value, offset).Valid(k)
    ensures MakePrefix(k, value, offset).Matches(value)
  {
    CellsIsPow2(k);
    AndHighMask(value, 2 * k, offset);
    if offset == 2 * k {
      SmallMod(value, Pow2(offset));
    }
    FloorClear(value, Pow2(offset));
  }

  lemma FloorClear(v: nat, p: nat)
    requires p > 0
    ensures (v - v % p) % p == 0
  {
    assert v - v % p == (v / p) * p;
    DivModUnique(v - v % p, p, v / p, 0);
  }

  /** `applies_to(hash)`. */
  predicate AppliesTo(k: nat, prefix: Prefix, h: nat)
    requires prefix.offset <= 2 * k
  {
    prefix.offset == 2 * k || And(h, HighMask(2 * k, prefix.offset)) == prefix.value
  }

  /** `applies_to(prefix)`. */
  predicate AppliesToPrefix(k: nat, prefix: Prefix, other: Prefix)
    requires prefix.offset <= 2 * k
  {
    prefix.offset == 2 * k
    || (prefix.offset >= other.offset && And(other.value, HighMask(2 * k, prefix.offset)) == prefix.value)
  }

  /** A valid prefix applies to exactly the positions of its run. */
  lemma AppliesIffMatches(k: nat, prefix: Prefix, h: nat)
    requires prefix.Valid(k) && h < Cells(k)
    ensures AppliesTo(k, prefix, h) <==> prefix.Matches(h)
  {
    var p := Pow2(prefix.offset);
    CellsIsPow2(k);
    AndHighMask(h, 2 * k, prefix.offset);
    if prefix.offset == 2 * k {
      SmallMod(prefix.value, p);
    }
    if prefix.Matches(h) {
      AlignedFloor(prefix.value, h, p);
    }
  }

  lemma AlignedFloor(v: nat, h: nat, p: nat)
    requires p > 0 && v % p == 0 && v <= h < v + p
    ensures h - h % p == v
  {
    assert v == (v / p) * p;
    DivModUnique(h, p, v / p, h - v);
  }

  // ---- The rectangle of a prefix -----------------------------------------------------------

  /** Half of `r` along the axis on which `rotation` separates its first two quadrants from its
      last two: `second` asks for the last two. */
  function HalfRect(rotation: Rotation, second: bool, r: Rect): Rect {
    var u := Rotate(rotation, if second then 2 else 0);
    match rotation
    case Up | Down => r.HalfX(IsRight(u))
    case Left | Right => r.HalfY(IsTop(u))
  }

  function PrefixRect(rotation: Rotation, k: nat, value: nat, offset: nat, r: Rect): Rect
    requires offset <= 2 * k && value < Cells(k)
    decreases k
  {
    if offset == 2 * k then r
    else if offset == 2 * k - 1 then HalfRect(rotation, LeadingQuadrant(k, value) >= 2, r)
    else
      var q := LeadingQuadrant(k, value);
      PrefixRect(NewRotation(rotation, q), k - 1, Within(k, value), offset, r.Quarter(Rotate(rotation, q)))
  }

  /** Prefixes whose ignored bits are clear, by recursion on the quadrants. */
  predicate Aligned(k: nat, value: nat, offset: nat)
    requires offset <= 2 * k && value < Cells(k)
  {
    if offset == 2 * k then value == 0
    else if offset == 2 * k - 1 then value == 0 || value == Span(2, Cells(k - 1))
    else Aligned(k - 1, Within(k, value), offset)
  }

  lemma MultipleStep(v: nat, n: nat, p: nat)
    requires p > 0 && n % p == 0
    ensures (v + n) % p == v % p
  {
    var a, b := v / p, n / p;
    assert v == a * p + v % p && n == b * p;
    assert v + n == (a + b) * p + v % p;
    DivModUnique(v + n, p, a + b, v % p);
  }

  lemma {:induction false} Pow2Divides(o: nat, m: nat)
    requires o <= m
    ensures Pow2(m) % Pow2(o) == 0
  {
    if o < m {
      Pow2Divides(o, m - 1);
      MultipleStep(Pow2(m - 1), Pow2(m - 1), Pow2(o));
    } else {
      DivModUnique(Pow2(m), Pow2(m), 1, 0);
    }
  }

  lemma SpanMod(value: nat, k: nat, offset: nat)
    requires k > 0 && offset <= 2 * (k - 1) && value < Cells(k)
    ensures value % Pow2(offset) == Within(k, value) % Pow2(offset)
  {
    var w, p, rest := Cells(k - 1), Pow2(offset), Within(k, value);
    CellsIsPow2(k - 1);
    Pow2Divides(offset, 2 * (k - 1));
    MultipleStep(rest, w, p);
    MultipleStep(rest + w, w, p);
    MultipleStep(rest + 2 * w, w, p);
  }

  lemma {:induction false} AlignedIffClear(k: nat, value: nat, offset: nat)
    requires offset <= 2 * k && value < Cells(k)
    ensures Aligned(k, value, offset) <==> value % Pow2(offset) == 0
    decreases k
  {
    CellsIsPow2(k);
    if offset == 2 * k {
      SmallMod(value, Pow2(offset));
    } else if offset == 2 * k - 1 {
      CellsIsPow2(k - 1);
      var p := Pow2(offset);
      assert p == 2 * Cells(k - 1) && Cells(k) == 2 * p;
      if value < p {
        SmallMod(value, p);
      } else {
        DivModUnique(value, p, 1, value - p);
      }
    } else {
      SpanMod(value, k, offset);
      AlignedIffClear(k - 1, Within(k, value), offset);
    }
  }

  /** A prefix stays within the curve. */
  lemma {:induction false} AlignedRoom(k: nat, value: nat, offset: nat)
    requires offset <= 2 * k && value < Cells(k) && Aligned(k, value, offset)
    ensures value + Pow2(offset) <= Cells(k)
    decreases k
  {
    CellsIsPow2(k);
    if offset < 2 * k - 1 {
      AlignedRoom(k - 1, Within(k, value), offset);
    }
  }

  /** Every point whose hash has the prefix lies, once moved into the domain, in the rectangle of
      the prefix. */
  lemma {:induction false} RectCovers(rotation: Rotation, k: nat, value: nat, offset: nat, r: Rect, p: Point)
    requires offset <= 2 * k && value < Cells(k) && Aligned(k, value, offset)
    requires r.Proper()
    requires Prefix(value, offset).Matches(HashIn(rotation, k, r, p))
    ensures PrefixRect(rotation, k, value, offset, r).Contains(Clamp(p, r))
    decreases k
  {
    hide *;
    if offset == 2 * k {
      WholeCovers(rotation, k, value, r, p);
    } else {
      HashStep(rotation, k, r, p);
      var u := r.QuarterOf(p);
      var q := Rotate(rotation, u);
      var rest := HashIn(NewRotation(rotation, q), k - 1, r.Quarter(u), p);
      if offset == 2 * k - 1 {
        MatchesHalf(k, value, q, rest);
        HalfCovers(rotation, k, value, r, p);
      } else {
        MatchesInside(k, value, offset, q, rest);
        RectInside(rotation, k, value, offset, r);
        RotateSelfInverse(rotation, u);
        QuarterClamp(r, p);
        RectCovers(NewRotation(rotation, q), k - 1, Within(k, value), offset, r.Quarter(u), p);
      }
    }
  }

  lemma WholeCovers(rotation: Rotation, k: nat, value: nat, r: Rect, p: Point)
    requires value < Cells(k) && r.Proper()
    ensures PrefixRect(rotation, k, value, 2 * k, r).Contains(Clamp(p, r))
  {
  }

  lemma HalfCovers(rotation: Rotation, k: nat, value: nat, r: Rect, p: Point)
    requires k > 0 && value < Cells(k) && r.Proper()
    requires Rotate(rotation, r.QuarterOf(p)) >= 2 <==> LeadingQuadrant(k, value) >= 2
    ensures PrefixRect(rotation, k, value, 2 * k - 1, r).Contains(Clamp(p, r))
  {
    hide HalfRect;
    HalfHolds(rotation, r, p);
  }

  lemma QuarterClamp(r: Rect, p: Point)
    requires r.Proper()
    ensures r.Quarter(r.QuarterOf(p)).Proper()
    ensures Clamp(p, r.Quarter(r.QuarterOf(p))) == Clamp(p, r)
  {
  }

  lemma HalfHolds(rotation: Rotation, r: Rect, p: Point)
    requires r.Proper()
    ensures HalfRect(rotation, Rotate(rotation, r.QuarterOf(p)) >= 2, r).Contains(Clamp(p, r))
  {
  }

  /** A prefix shared by the two corners of a box is shared by every point of the box. */
  lemma {:induction false} SharedPrefix(rotation: Rotation, k: nat, value: nat, offset: nat, r: Rect,
                                        a: Point, b: Point, p: Point)
    requires offset <= 2 * k && value < Cells(k) && Aligned(k, value, offset)
    requires Rect(a, b).Contains(p)
    requires Prefix(value, offset).Matches(HashIn(rotation, k, r, a))
    requires Prefix(value, offset).Matches(HashIn(rotation, k, r, b))
    ensures Prefix(value, offset).Matches(HashIn(rotation, k, r, p))
    decreases k
  {
    hide *;
    if offset == 2 * k {
      MatchesWhole(k, value, HashIn(rotation, k, r, p));
    } else {
      HashStep(rotation, k, r, a);
      HashStep(rotation, k, r, b);
      HashStep(rotation, k, r, p);
      var ua, ub, up := r.QuarterOf(a), r.QuarterOf(b), r.QuarterOf(p);
      var qa, qb, qp := Rotate(rotation, ua), Rotate(rotation, ub), Rotate(rotation, up);
      if offset == 2 * k - 1 {
        HalfBetween(rotation, r, a, b, p);
        MatchesHalf(k, value, qa, HashIn(NewRotation(rotation, qa), k - 1, r.Quarter(ua), a));
        MatchesHalf(k, value, qb, HashIn(NewRotation(rotation, qb), k - 1, r.Quarter(ub), b));
        MatchesHalf(k, value, qp, HashIn(NewRotation(rotation, qp), k - 1, r.Quarter(up), p));
      } else {
        MatchesInside(k, value, offset, qa, HashIn(NewRotation(rotation, qa), k - 1, r.Quarter(ua), a));
        MatchesInside(k, value, offset, qb, HashIn(NewRotation(rotation, qb), k - 1, r.Quarter(ub), b));
        MatchesInside(k, value, offset, qp, HashIn(NewRotation(rotation, qp), k - 1, r.Quarter(up), p));
        SamePosition(rotation, r, a, b, p);
        SharedPrefix(NewRotation(rotation, qa), k - 1, Within(k, value), offset, r.Quarter(ua), a, b, p);
      }
    }
  }

  lemma HashStep(rotation: Rotation, k: nat, r: Rect, p: Point)
    requires k > 0
    ensures var u := r.QuarterOf(p);
      var q := Rotate(rotation, u);
      HashIn(rotation, k, r, p) == Span(q, Cells(k - 1)) + HashIn(NewRotation(rotation, q), k - 1, r.Quarter(u), p)
  {
  }

  lemma MatchesWhole(k: nat, value: nat, h: nat)
    requires value < Cells(k) && Aligned(k, value, 2 * k) && h < Cells(k)
    ensures Prefix(value, 2 * k).Matches(h)
  {
    CellsIsPow2(k);
  }

  /** A prefix of at least one quadrant digit fixes that digit and is a prefix of the rest. */
  lemma MatchesInside(k: nat, value: nat, offset: nat, q: Quadrant, rest: nat)
    requires offset < 2 * k - 1 && value < Cells(k) && Aligned(k, value, offset) && rest < Cells(k - 1)
    ensures offset <= 2 * (k - 1) && Aligned(k - 1, Within(k, value), offset)
    ensures Prefix(value, offset).Matches(Span(q, Cells(k - 1)) + rest)
       <==> q == LeadingQuadrant(k, value) && Prefix(Within(k, value), offset).Matches(rest)
  {
    AlignedRoom(k - 1, Within(k, value), offset);
  }

  lemma MatchesHalf(k: nat, value: nat, q: Quadrant, rest: nat)
    requires k > 0 && value < Cells(k) && Aligned(k, value, 2 * k - 1) && rest < Cells(k - 1)
    ensures Prefix(value, 2 * k - 1).Matches(Span(q, Cells(k - 1)) + rest)
       <==> (q >= 2 <==> LeadingQuadrant(k, value) >= 2)
  {
    CellsIsPow2(k - 1);
  }

  lemma SamePosition(rotation: Rotation, r: Rect, a: Point, b: Point, p: Point)
    requires Rect(a, b).Contains(p)
    requires Rotate(rotation, r.QuarterOf(a)) == Rotate(rotation, r.QuarterOf(b))
    ensures r.QuarterOf(a) == r.QuarterOf(b) == r.QuarterOf(p)
  {
    RotateSelfInverse(rotation, r.QuarterOf(a));
    RotateSelfInverse(rotation, r.QuarterOf(b));
  }

  lemma HalfBetween(rotation: Rotation, r: Rect, a: Point, b: Point, p: Point)
    requires Rect(a, b).Contains(p)
    ensures Rotate(rotation, r.QuarterOf(a)) >= 2 && Rotate(rotation, r.QuarterOf(b)) >= 2
        ==> Rotate(rotation, r.QuarterOf(p)) >= 2
    ensures Rotate(rotation, r.QuarterOf(a)) < 2 && Rotate(rotation, r.QuarterOf(b)) < 2
        ==> Rotate(rotation, r.QuarterOf(p)) < 2
  {
  }

  lemma {:induction false} RectWithin(rotation: Rotation, k: nat, value: nat, offset: nat, r: Rect)
    requires offset <= 2 * k && value < Cells(k) && r.Proper()
    ensures var s := PrefixRect(rotation, k, value, offset, r);
      s.Proper() && r.Contains(s.ll) && r.Contains(s.ur)
    decreases k
  {
    if offset < 2 * k - 1 {
      var q := LeadingQuadrant(k, value);
      RectWithin(NewRotation(rotation, q), k - 1, Within(k, value), offset, r.Quarter(Rotate(rotation, q)));
    }
  }

  /** The rectangle of a cell lies in that of every prefix that the cell's position has. */
  lemma {:induction false} CellInside(rotation: Rotation, k: nat, value: nat, offset: nat, h: nat, r: Rect)
    requires offset <= 2 * k && value < Cells(k) && Aligned(k, value, offset) && h < Cells(k) && r.Proper()
    requires Prefix(value, offset).Matches(h)
    ensures var cell, area := PrefixRect(rotation, k, h, 0, r), PrefixRect(rotation, k, value, offset, r);
      cell.Proper() && area.Contains(cell.ll) && area.Contains(cell.ur)
    decreases k
  {
    hide *;
    RectWithin(rotation, k, h, 0, r);
    if offset == 2 * k {
      WholeRect(rotation, k, value, r);
    } else {
      var q, rest := LeadingQuadrant(k, h), Within(k, h);
      WithinIs(k, h);
      if offset == 2 * k - 1 {
        MatchesHalf(k, value, q, rest);
        CellInHalf(rotation, k, value, h, r);
      } else {
        MatchesInside(k, value, offset, q, rest);
        RectInside(rotation, k, value, offset, r);
        RectInside(rotation, k, h, 0, r);
        QuarterProper(r, Rotate(rotation, q));
        CellInside(NewRotation(rotation, q), k - 1, Within(k, value), offset, rest, r.Quarter(Rotate(rotation, q)));
      }
    }
  }

  lemma WholeRect(rotation: Rotation, k: nat, value: nat, r: Rect)
    requires value < Cells(k)
    ensures PrefixRect(rotation, k, value, 2 * k, r) == r
  {
  }

  lemma CellInHalf(rotation: Rotation, k: nat, value: nat, h: nat, r: Rect)
    requires k > 0 && value < Cells(k) && h < Cells(k) && r.Proper()
    requires LeadingQuadrant(k, h) >= 2 <==> LeadingQuadrant(k, value) >= 2
    ensures var cell, area := PrefixRect(rotation, k, h, 0, r), PrefixRect(rotation, k, value, 2 * k - 1, r);
      area.Contains(cell.ll) && area.Contains(cell.ur)
  {
    hide HalfRect, Rect.Quarter, Rotate, NewRotation, LeadingQuadrant;
    var q := LeadingQuadrant(k, h);
    QuarterProper(r, Rotate(rotation, q));
    RectWithin(NewRotation(rotation, q), k - 1, Within(k, h), 0, r.Quarter(Rotate(rotation, q)));
    QuarterInHalf(rotation, q, r);
  }

  lemma QuarterInHalf(rotation: Rotation, q: Quadrant, r: Rect)
    requires r.Proper()
    ensures var quarter, half := r.Quarter(Rotate(rotation, q)), HalfRect(rotation, q >= 2, r);
      half.Contains(quarter.ll) && half.Contains(quarter.ur)
  {
  }

  /** The rectangle of a prefix is the union of the rectangles of its two extensions, so whatever
      meets it meets one of them. */
  lemma {:induction false} RectSplits(rotation: Rotation, k: nat, value: nat, offset: nat, r: Rect, bounds: Rect)
    requires 0 < offset <= 2 * k && value < Cells(k) && Aligned(k, value, offset)
    requires r.Proper() && bounds.Proper()
    requires bounds.Intersects(PrefixRect(rotation, k, value, offset, r))
    ensures value + Pow2(offset - 1) < Cells(k)
    ensures Aligned(k, value, offset - 1) && Aligned(k, value + Pow2(offset - 1), offset - 1)
    ensures bounds.Intersects(PrefixRect(rotation, k, value, offset - 1, r))
         || bounds.Intersects(PrefixRect(rotation, k, value + Pow2(offset - 1), offset - 1, r))
    decreases k
  {
    hide *;
    if offset == 2 * k {
      SplitWhole(rotation, k, value, r, bounds);
    } else if offset == 2 * k - 1 {
      SplitHalf(rotation, k, value, r, bounds);
    } else {
      var q, rest := LeadingQuadrant(k, value), Within(k, value);
      SplitPosition(k, value, offset);
      RectInside(rotation, k, value, offset, r);
      RectInside(rotation, k, value, offset - 1, r);
      RectInside(rotation, k, value + Pow2(offset - 1), offset - 1, r);
      QuarterProper(r, Rotate(rotation, q));
      RectSplits(NewRotation(rotation, q), k - 1, rest, offset, r.Quarter(Rotate(rotation, q)), bounds);
    }
  }

  lemma QuarterProper(r: Rect, u: Quadrant)
    requires r.Proper()
    ensures r.Quarter(u).Proper()
  {
  }

  lemma SplitWhole(rotation: Rotation, k: nat, value: nat, r: Rect, bounds: Rect)
    requires k > 0 && value < Cells(k) && Aligned(k, value, 2 * k)
    requires r.Proper() && bounds.Proper()
    requires bounds.Intersects(PrefixRect(rotation, k, value, 2 * k, r))
    ensures value + Pow2(2 * k - 1) < Cells(k)
    ensures Aligned(k, value, 2 * k - 1) && Aligned(k, value + Pow2(2 * k - 1), 2 * k - 1)
    ensures bounds.Intersects(PrefixRect(rotation, k, value, 2 * k - 1, r))
         || bounds.Intersects(PrefixRect(rotation, k, value + Pow2(2 * k - 1), 2 * k - 1, r))
  {
    CellsIsPow2(k - 1);
  }

  lemma SplitHalf(rotation: Rotation, k: nat, value: nat, r: Rect, bounds: Rect)
    requires k > 0 && value < Cells(k) && Aligned(k, value, 2 * k - 1)
    requires r.Proper() && bounds.Proper()
    requires bounds.Intersects(PrefixRect(rotation, k, value, 2 * k - 1, r))
    ensures value + Pow2(2 * k - 2) < Cells(k)
    ensures Aligned(k, value, 2 * k - 2) && Aligned(k, value + Pow2(2 * k - 2), 2 * k - 2)
    ensures bounds.Intersects(PrefixRect(rotation, k, value, 2 * k - 2, r))
         || bounds.Intersects(PrefixRect(rotation, k, value + Pow2(2 * k - 2), 2 * k - 2, r))
  {
    hide Rotate, NewRotation, Rect.Intersects, Rect.Quarter, HalfRect;
    CellsIsPow2(k - 1);
    var q := LeadingQuadrant(k, value);
    SpanUnique(k, q, 0);
    SpanUnique(k, q + 1, 0);
    QuarterPair(rotation, q, r, bounds);
  }

  lemma SplitPosition(k: nat, value: nat, offset: nat)
    requires 0 < offset < 2 * k - 1 && value < Cells(k) && Aligned(k, value, offset)
    ensures Aligned(k - 1, Within(k, value), offset)
    ensures Within(k, value) + Pow2(offset - 1) < Cells(k - 1)
    ensures value + Pow2(offset - 1) < Cells(k)
    ensures LeadingQuadrant(k, value + Pow2(offset - 1)) == LeadingQuadrant(k, value)
    ensures Within(k, value + Pow2(offset - 1)) == Within(k, value) + Pow2(offset - 1)
    ensures Aligned(k - 1, Within(k, value), offset - 1) ==> Aligned(k, value, offset - 1)
    ensures Aligned(k - 1, Within(k, value) + Pow2(offset - 1), offset - 1)
        ==> Aligned(k, value + Pow2(offset - 1), offset - 1)
  {
    AlignedRoom(k - 1, Within(k, value), offset);
    SpanUnique(k, LeadingQuadrant(k, value), Within(k, value) + Pow2(offset - 1));
  }

  lemma RectInside(rotation: Rotation, k: nat, value: nat, offset: nat, r: Rect)
    requires offset < 2 * k - 1 && value < Cells(k)
    ensures var q := LeadingQuadrant(k, value);
      PrefixRect(rotation, k, value, offset, r)
      == PrefixRect(NewRotation(rotation, q), k - 1, Within(k, value), offset, r.Quarter(Rotate(rotation, q)))
  {
  }

  lemma QuarterPair(rotation: Rotation, q: Quadrant, r: Rect, bounds: Rect)
    requires q == 0 || q == 2
    requires r.Proper() && bounds.Proper()
    requires bounds.Intersects(HalfRect(rotation, q >= 2, r))
    ensures bounds.Intersects(r.Quarter(Rotate(rotation, q))) || bounds.Intersects(r.Quarter(Rotate(rotation, q + 1)))
  {
  }
}
