/** Points, rectangles and geohashes: the Hilbert curve laid over a rectangle of the plane.

    Coordinates are exact reals.  `HashIn` states the hash by recursion on the quadrant of the
    remaining rectangle that the point falls into; `GeoHasher` is the loop of the source. */
module GeoHash {
  import opened Bits
  import opened HilbertCurve

  datatype Point = Point(x: real, y: real)

  datatype Rect = Rect(ll: Point, ur: Point) {
    predicate Contains(p: Point) {
      ll.x <= p.x <= ur.x && ll.y <= p.y <= ur.y
    }

    predicate Intersects(r: Rect) {
      !(r.ll.x > ur.x || r.ur.x < ll.x || r.ll.y > ur.y || r.ur.y < ll.y)
    }

    /** The lower-left corner is below and left of the upper-right corner. */
    predicate Proper() {
      ll.x <= ur.x && ll.y <= ur.y
    }

    function MidX(): real { (ll.x + ur.x) / 2.0 }

    function MidY(): real { (ll.y + ur.y) / 2.0 }

    function HalfX(right: bool): Rect {
      if right then Rect(Point(MidX(), ll.y), ur) else Rect(ll, Point(MidX(), ur.y))
    }

    function HalfY(top: bool): Rect {
      if top then Rect(Point(ll.x, MidY()), ur) else Rect(ll, Point(ur.x, MidY()))
    }

    function Quarter(u: Quadrant): Rect {
      HalfY(IsTop(u)).HalfX(IsRight(u))
    }

    /** The quadrant of this rectangle that `p` falls into; points outside count to the edge. */
    function QuarterOf(p: Point): Quadrant {
      QuadrantOf(p.x >= MidX(), p.y >= MidY())
    }
  }

  /** Two rectangles intersect exactly if they have a point in common, be it on the edge. */
  lemma IntersectsIffShared(a: Rect, b: Rect)
    requires a.Proper() && b.Proper()
    ensures a.Intersects(b) <==> exists p :: a.Contains(p) && b.Contains(p)
  {
    if a.Intersects(b) {
      var p := Point(Max(a.ll.x, b.ll.x), Max(a.ll.y, b.ll.y));
      assert a.Contains(p) && b.Contains(p);
    }
  }

  function Min(a: real, b: real): real { if a <= b then a else b }

  function Max(a: real, b: real): real { if a <= b then b else a }

  /** The point of `r` nearest to `p`. */
  function Clamp(p: Point, r: Rect): Point {
    Point(Max(r.ll.x, Min(p.x, r.ur.x)), Max(r.ll.y, Min(p.y, r.ur.y)))
  }

  /** The geohash of `p` on a k-iteration curve laid over `r`. */
  function HashIn(rotation: Rotation, k: nat, r: Rect, p: Point): (h: nat)
    ensures h < Cells(k)
    decreases k
  {
    if k == 0 then 0 else
      var u := r.QuarterOf(p);
      var q := Rotate(rotation, u);
      Span(q, Cells(k - 1)) + HashIn(NewRotation(rotation, q), k - 1, r.Quarter(u), p)
  }

  function Hash(k: nat, domain: Rect, p: Point): nat {
    HashIn(Up, k, domain, p)
  }

  /** The index of the cell that `v` falls into when `[lo, hi]` is halved `k` times. */
  function CellIn(k: nat, lo: real, hi: real, v: real): (c: nat)
    ensures c < Pow2(k)
    decreases k
  {
    if k == 0 then 0 else
      var mid := (lo + hi) / 2.0;
      if v >= mid then Pow2(k - 1) + CellIn(k - 1, mid, hi, v) else CellIn(k - 1, lo, mid, v)
  }

  /** The lower edge of cell `c` when `[lo, hi]` is halved `k` times. */
  function EdgeOf(k: nat, lo: real, hi: real, c: nat): real
    requires c < Pow2(k)
    decreases k
  {
    if k == 0 then lo else
      var mid := (lo + hi) / 2.0;
      if c >= Pow2(k - 1) then EdgeOf(k - 1, mid, hi, c - Pow2(k - 1)) else EdgeOf(k - 1, lo, mid, c)
  }

  /** The hash is the Hilbert curve position of the cell of the point. */
  lemma {:induction false} HashIsEncode(rotation: Rotation, k: nat, r: Rect, p: Point)
    ensures HashIn(rotation, k, r, p)
         == Encode(rotation, k, CellIn(k, r.ll.x, r.ur.x, p.x), CellIn(k, r.ll.y, r.ur.y, p.y))
    decreases k
  {
    hide Rotate, NewRotation, Cells, Span, CellIn, Pow2, Rect.Quarter;
    if k > 0 {
      var u := r.QuarterOf(p);
      HashIsEncode(NewRotation(rotation, Rotate(rotation, u)), k - 1, r.Quarter(u), p);
      QuarterSides(r, p);
      CellStep(k, r.ll.x, r.ur.x, p.x);
      CellStep(k, r.ll.y, r.ur.y, p.y);
    }
  }

  lemma QuarterSides(r: Rect, p: Point)
    ensures var s := r.Quarter(r.QuarterOf(p));
      && s.ll.x == (if p.x >= r.MidX() then r.MidX() else r.ll.x) && s.ur.x == (if p.x >= r.MidX() then r.ur.x else r.MidX())
      && s.ll.y == (if p.y >= r.MidY() then r.MidY() else r.ll.y) && s.ur.y == (if p.y >= r.MidY() then r.ur.y else r.MidY())
  {
  }

  lemma CellStep(k: nat, lo: real, hi: real, v: real)
    requires k > 0
    ensures var mid := (lo + hi) / 2.0;
      && (CellIn(k, lo, hi, v) >= Pow2(k - 1) <==> v >= mid)
      && Below(CellIn(k, lo, hi, v), Pow2(k - 1))
         == if v >= mid then CellIn(k - 1, mid, hi, v) else CellIn(k - 1, lo, mid, v)
  {
  }

  lemma CellZero(lo: real, hi: real, v: real)
    ensures CellIn(0, lo, hi, v) == 0
  {
  }

  /** `e` is the lower edge of part `c` when `[lo, hi]` is divided into `n` equal parts. */
  ghost predicate Divides(e: real, lo: real, hi: real, n: nat, c: nat) {
    (e - lo) * (n as real) == (hi - lo) * (c as real)
  }

  /** The edges divide the interval into equal parts. */
  lemma {:induction false} EdgeIs(k: nat, lo: real, hi: real, c: nat)
    requires c < Pow2(k)
    ensures Divides(EdgeOf(k, lo, hi, c), lo, hi, Pow2(k), c)
  {
    if k == 0 {
      FirstEdge(lo, hi);
    } else {
      hide Divides;
      var half, mid := Pow2(k - 1), (lo + hi) / 2.0;
      if c >= half {
        EdgeIs(k - 1, mid, hi, c - half);
        UpperEdge(EdgeOf(k, lo, hi, c), lo, hi, half, c);
      } else {
        EdgeIs(k - 1, lo, mid, c);
        LowerEdge(EdgeOf(k, lo, hi, c), lo, hi, half, c);
      }
    }
  }

  lemma FirstEdge(lo: real, hi: real)
    ensures Divides(lo, lo, hi, 1, 0)
  {
    assert (hi - lo) * 0.0 == 0.0;
  }

  lemma LowerEdge(e: real, lo: real, hi: real, half: nat, c: nat)
    requires Divides(e, lo, (lo + hi) / 2.0, half, c)
    ensures Divides(e, lo, hi, 2 * half, c)
  {
    var h, d := half as real, c as real;
    assert (2 * half) as real == 2.0 * h;
    assert (e - lo) * (2.0 * h) == 2.0 * ((e - lo) * h);
    assert 2.0 * (((lo + hi) / 2.0 - lo) * d) == (hi - lo) * d;
  }

  lemma UpperEdge(e: real, lo: real, hi: real, half: nat, c: nat)
    requires c >= half && Divides(e, (lo + hi) / 2.0, hi, half, c - half)
    ensures Divides(e, lo, hi, 2 * half, c)
  {
    var h, d, mid := half as real, (c - half) as real, (lo + hi) / 2.0;
    assert (2 * half) as real == 2.0 * h && c as real == h + d;
    assert (e - lo) * (2.0 * h) == 2.0 * ((e - mid) * h) + 2.0 * ((mid - lo) * h);
    assert 2.0 * ((hi - mid) * d) == (hi - lo) * d && 2.0 * ((mid - lo) * h) == (hi - lo) * h;
  }

  lemma {:induction false} EdgeInCell(k: nat, lo: real, hi: real, c: nat)
    requires lo < hi && c < Pow2(k)
    ensures lo <= EdgeOf(k, lo, hi, c) < hi
    ensures CellIn(k, lo, hi, EdgeOf(k, lo, hi, c)) == c
    decreases k
  {
    if k > 0 {
      var mid := (lo + hi) / 2.0;
      if c >= Pow2(k - 1) {
        EdgeInCell(k - 1, mid, hi, c - Pow2(k - 1));
      } else {
        EdgeInCell(k - 1, lo, mid, c);
      }
    }
  }

  /** `GeoHasher::hash`: halve both ranges k times, then walk the curve. */
  method GeoHasher(k: nat, domain: Rect, point: Point) returns (h: nat)
    ensures h == Hash(k, domain, point)
  {
    hide Low, Or, CellIn, Pow2, Encode, HashIn;
    var x: nat, y: nat := 0, 0;
    var xlo, xhi, ylo, yhi := domain.ll.x, domain.ur.x, domain.ll.y, domain.ur.y;
    var i: int := k - 1;
    ZeroLow(k);
    while i >= 0
      invariant -1 <= i < k
      invariant Low(x, i + 1) == 0 && Low(y, i + 1) == 0
      invariant x + CellIn(i + 1, xlo, xhi, point.x) == CellIn(k, domain.ll.x, domain.ur.x, point.x)
      invariant y + CellIn(i + 1, ylo, yhi, point.y) == CellIn(k, domain.ll.y, domain.ur.y, point.y)
    {
      CellStep(i + 1, xlo, xhi, point.x);
      CellStep(i + 1, ylo, yhi, point.y);
      ClearBelow(x, i);
      ClearBelow(y, i);
      var ymid := (ylo + yhi) / 2.0;
      if point.y >= ymid {
        y, ylo := Or(y, Pow2(i)), ymid;
      } else {
        yhi := ymid;
      }
      var xmid := (xlo + xhi) / 2.0;
      if point.x >= xmid {
        x, xlo := Or(x, Pow2(i)), xmid;
      } else {
        xhi := xmid;
      }
      i := i - 1;
    }
    CellZero(xlo, xhi, point.x);
    CellZero(ylo, yhi, point.y);
    HashIsEncode(Up, k, domain, point);
    var rotations;
    h, rotations := Hilbert(k, x, y);
  }

  lemma EdgeStep(i: nat, lo: real, hi: real, x: nat)
    ensures var mid := (lo + hi) / 2.0;
      EdgeOf(i + 1, lo, hi, Low(x, i + 1)) == if TestBit(x, i) then EdgeOf(i, mid, hi, Low(x, i)) else EdgeOf(i, lo, mid, Low(x, i))
  {
    hide Low, TestBit;
    LowStep(x, i);
  }

  lemma EdgeZero(lo: real, hi: real, x: nat)
    ensures EdgeOf(0, lo, hi, Low(x, 0)) == lo
  {
  }

  /** `GeoHasher::unhash`: the lower-left corner of the cell, which hashes back to `h`. */
  method GeoUnhasher(k: nat, domain: Rect, h: nat) returns (p: Point)
    requires h < Cells(k)
    requires domain.ll.x < domain.ur.x && domain.ll.y < domain.ur.y
    ensures domain.Contains(p)
    ensures Hash(k, domain, p) == h
    ensures var (x, y) := Decode(Up, k, h);
      Divides(p.x, domain.ll.x, domain.ur.x, Pow2(k), x) && Divides(p.y, domain.ll.y, domain.ur.y, Pow2(k), y)
  {
    hide Low, TestBit, EdgeOf, CellIn, HashIn, Encode, Decode, Cells, Pow2, Divides;
    var x, y, rotations := Unhilbert(k, h);
    var xlo, xhi, ylo, yhi := domain.ll.x, domain.ur.x, domain.ll.y, domain.ur.y;
    var i: int := k - 1;
    LowAll(x, k);
    LowAll(y, k);
    while i >= 0
      invariant -1 <= i < k
      invariant EdgeOf(i + 1, xlo, xhi, Low(x, i + 1)) == EdgeOf(k, domain.ll.x, domain.ur.x, x)
      invariant EdgeOf(i + 1, ylo, yhi, Low(y, i + 1)) == EdgeOf(k, domain.ll.y, domain.ur.y, y)
    {
      EdgeStep(i, xlo, xhi, x);
      EdgeStep(i, ylo, yhi, y);
      var ymid := (ylo + yhi) / 2.0;
      if TestBit(y, i) {
        ylo := ymid;
      } else {
        yhi := ymid;
      }
      var xmid := (xlo + xhi) / 2.0;
      if TestBit(x, i) {
        xlo := xmid;
      } else {
        xhi := xmid;
      }
      i := i - 1;
    }
    p := Point(xlo, ylo);
    EdgeZero(xlo, xhi, x);
    EdgeZero(ylo, yhi, y);
    EdgeInCell(k, domain.ll.x, domain.ur.x, x);
    EdgeInCell(k, domain.ll.y, domain.ur.y, y);
    EdgeIs(k, domain.ll.x, domain.ur.x, x);
    EdgeIs(k, domain.ll.y, domain.ur.y, y);
    HashIsEncode(Up, k, domain, p);
    EncodeDecode(Up, k, h);
  }
}
