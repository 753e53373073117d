/** `GeoPrefix::joint_prefix`, `bounds` and `search_prefixes`. */
module GeoSearch {
  import opened Bits
  import opened HilbertCurve
  import opened GeoHash
  import opened GeoPrefix

  function Area(k: nat, domain: Rect, p: Prefix): Rect
    requires p.Valid(k)
  {
    PrefixRect(Up, k, p.value, p.offset, domain)
  }

  lemma {:induction false} SameQuotient(a: nat, b: nat, o: nat, m: nat)
    requires o <= m && a / Pow2(o) == b / Pow2(o)
    ensures a / Pow2(m) == b / Pow2(m)
  {
    if o < m {
      SameQuotient(a, b, o, m - 1);
      ModHigh(a, m - 1);
      ModHigh(b, m - 1);
    }
  }

  lemma MatchQuotient(k: nat, p: Prefix, h: nat)
    requires p.Valid(k) && p.Matches(h)
    ensures h / Pow2(p.offset) == p.value / Pow2(p.offset)
  {
    var d := Pow2(p.offset);
    assert p.value == (p.value / d) * d;
    DivModUnique(h, d, p.value / d, h - p.value);
  }

  /** The longest prefix that two hashes share. */
  method JointPrefix(k: nat, h1: nat, h2: nat) returns (joint: Prefix)
    requires h1 < Cells(k) && h2 < Cells(k)
    ensures joint.Valid(k) && joint.Matches(h1) && joint.Matches(h2)
    ensures forall p: Prefix :: p.Valid(k) && p.Matches(h1) && p.Matches(h2) ==> joint.offset <= p.offset
  {
    hide And, Or, Pow2, Cells, MakePrefix, Prefix.Matches, Prefix.Valid;
    var value: nat, offset := 0, 2 * k;
    CellsIsPow2(k);
    SmallMod(h1, Pow2(2 * k));
    SmallMod(h2, Pow2(2 * k));
    var i := 0;
    while i < 2 * k
      invariant 0 <= i <= 2 * k && offset == 2 * k - i
      invariant value == h1 - h1 % Pow2(offset) == h2 - h2 % Pow2(offset)
    {
      var mask := Pow2(2 * k - 1 - i);
      JointStep(h1, h2, value, offset);
      if And(h1, mask) != And(h2, mask) {
        break;
      }
      value := Or(value, And(h1, mask));
      offset := offset - 1;
      i := i + 1;
    }
    joint := MakePrefix(k, value, offset);
    JointFound(k, h1, value, offset);
    JointFound(k, h2, value, offset);
    forall p: Prefix | p.Valid(k) && p.Matches(h1) && p.Matches(h2)
      ensures joint.offset <= p.offset
    {
      if p.offset < offset {
        MatchQuotient(k, p, h1);
        MatchQuotient(k, p, h2);
        SameQuotient(h1, h2, p.offset, offset - 1);
      }
    }
  }

  lemma JointStep(h1: nat, h2: nat, value: nat, offset: nat)
    requires offset > 0 && value == h1 - h1 % Pow2(offset) == h2 - h2 % Pow2(offset)
    ensures And(h1, Pow2(offset - 1)) != And(h2, Pow2(offset - 1))
        ==> h1 / Pow2(offset - 1) != h2 / Pow2(offset - 1)
    ensures And(h1, Pow2(offset - 1)) == And(h2, Pow2(offset - 1)) ==>
              Or(value, And(h1, Pow2(offset - 1))) == h1 - h1 % Pow2(offset - 1) == h2 - h2 % Pow2(offset - 1)
  {
    JointBit(h1, value, offset);
    JointBit(h2, value, offset);
  }

  lemma JointBit(h: nat, value: nat, offset: nat)
    requires offset > 0 && value == h - h % Pow2(offset)
    ensures And(h, Pow2(offset - 1)) == ((h / Pow2(offset - 1)) % 2) * Pow2(offset - 1)
    ensures Or(value, And(h, Pow2(offset - 1))) == h - h % Pow2(offset - 1)
  {
    AndBit(h, offset - 1);
    ModHigh(h, offset - 1);
    FloorClear(h, Pow2(offset));
    var b := (h / Pow2(offset - 1)) % 2;
    assert b == 0 || b == 1;
    OrBit(value, And(h, Pow2(offset - 1)), offset - 1);
  }

  lemma JointFound(k: nat, h: nat, value: nat, offset: nat)
    requires h < Cells(k) && offset <= 2 * k && value == h - h % Pow2(offset)
    ensures var joint := MakePrefix(k, value, offset); joint.Valid(k) && joint.Matches(h) && joint.offset == offset
  {
    FloorClear(h, Pow2(offset));
    MakeValid(k, value, offset);
  }

  lemma OrBit(value: nat, bit: nat, m: nat)
    requires value % Pow2(m + 1) == 0 && bit <= Pow2(m)
    ensures Or(value, bit) == value + bit
  {
    OrDisjoint(value, bit, m + 1);
  }

  /** The rectangle of a prefix, by walking the bits of its first cell. */
  method Bounds(k: nat, domain: Rect, prefix: Prefix) returns (r: Rect)
    requires prefix.Valid(k)
    ensures r == Area(k, domain, prefix)
  {
    hide Low, Cells, Decode, Rotations, PrefixRect, Aligned, TestBit, Rotate, NewRotation, LeadingQuadrant, Within, Pow2;
    r := domain;
    WholeRect(Up, k, prefix.value, domain);
    if prefix.offset < 2 * k {
      var x, y, rotations := Unhilbert(k, prefix.value);
      var i: int := 2 * k - 1;
      ghost var j, rotation := k, Up;
      CellsIsPow2(k);
      LowAll(prefix.value, 2 * k);
      LowAll(x, k);
      LowAll(y, k);
      AlignedIffClear(k, prefix.value, prefix.offset);
      assert rotations[..k] == rotations;
      while i > prefix.offset
        invariant i == 2 * j - 1 && j <= k && prefix.offset <= 2 * j && Low(prefix.value, 2 * j) < Cells(j)
        invariant Aligned(j, Low(prefix.value, 2 * j), prefix.offset)
        invariant PrefixRect(rotation, j, Low(prefix.value, 2 * j), prefix.offset, r) == Area(k, domain, prefix)
        invariant Decode(rotation, j, Low(prefix.value, 2 * j)) == (Low(x, j), Low(y, j))
        invariant |rotations| == k && rotations[..j] == Rotations(rotation, j, Low(prefix.value, 2 * j))
      {
        ghost var d, q := Low(prefix.value, 2 * j), LeadingQuadrant(j, Low(prefix.value, 2 * j));
        BoundsStep(rotation, j, prefix.value, x, y, prefix.offset, rotations[..j], r);
        assert rotations[..j][..j - 1] == rotations[..j - 1];
        r := r.HalfY(TestBit(y, i / 2));
        i := i - 1;
        r := r.HalfX(TestBit(x, i / 2));
        i := i - 1;
        j, rotation := j - 1, NewRotation(rotation, q);
      }
      WholeRect(rotation, j, Low(prefix.value, 2 * j), r);
      if i == prefix.offset {
        BoundsLast(rotation, j, prefix.value, x, y, rotations[..j], r);
        match rotations[i / 2] {
          case Up | Down => r := r.HalfX(TestBit(x, i / 2));
          case Left | Right => r := r.HalfY(TestBit(y, i / 2));
        }
      }
    }
  }

  lemma BoundsStep(rotation: Rotation, j: nat, value: nat, x: nat, y: nat, offset: nat, rs: seq<Rotation>, r: Rect)
    requires j > 0 && offset < 2 * j - 1 && Low(value, 2 * j) < Cells(j)
    requires Aligned(j, Low(value, 2 * j), offset)
    requires Decode(rotation, j, Low(value, 2 * j)) == (Low(x, j), Low(y, j))
    requires rs == Rotations(rotation, j, Low(value, 2 * j))
    ensures Low(value, 2 * (j - 1)) < Cells(j - 1) && Aligned(j - 1, Low(value, 2 * (j - 1)), offset)
    ensures
      var q := LeadingQuadrant(j, Low(value, 2 * j));
      && r.HalfY(TestBit(y, j - 1)).HalfX(TestBit(x, j - 1)) == r.Quarter(Rotate(rotation, q))
      && PrefixRect(rotation, j, Low(value, 2 * j), offset, r)
         == PrefixRect(NewRotation(rotation, q), j - 1, Low(value, 2 * (j - 1)), offset, r.Quarter(Rotate(rotation, q)))
      && Decode(NewRotation(rotation, q), j - 1, Low(value, 2 * (j - 1))) == (Low(x, j - 1), Low(y, j - 1))
      && rs[..j - 1] == Rotations(NewRotation(rotation, q), j - 1, Low(value, 2 * (j - 1)))
  {
    hide *;
    DigitAt(value, j - 1);
    DecodeStep(rotation, j - 1, value);
    RectInside(rotation, j, Low(value, 2 * j), offset, r);
    var q := LeadingQuadrant(j, Low(value, 2 * j));
    AlignedInside(j, Low(value, 2 * j), offset);
    PlaceBits(Rotate(rotation, q), j - 1, Decode(NewRotation(rotation, q), j - 1, Low(value, 2 * (j - 1))), x, y, r);
    DropLast(Rotations(NewRotation(rotation, q), j - 1, Low(value, 2 * (j - 1))), rotation);
  }

  lemma AlignedInside(j: nat, value: nat, offset: nat)
    requires offset < 2 * j - 1 && value < Cells(j) && Aligned(j, value, offset)
    ensures offset <= 2 * (j - 1) && Aligned(j - 1, Within(j, value), offset)
  {
  }

  lemma DropLast<T>(s: seq<T>, t: T)
    ensures (s + [t])[..|s|] == s && (s + [t])[|s|] == t
  {
  }

  /** The bits of a placed cell give its quadrant back. */
  lemma PlaceBits(u: Quadrant, i: nat, c: Cell, x: nat, y: nat, r: Rect)
    requires InGrid(i, c) && Place(u, Pow2(i), c) == (Low(x, i + 1), Low(y, i + 1))
    ensures TestBit(x, i) == IsRight(u) && TestBit(y, i) == IsTop(u)
    ensures c == (Low(x, i), Low(y, i))
    ensures r.HalfY(TestBit(y, i)).HalfX(TestBit(x, i)) == r.Quarter(u)
  {
    LowStep(x, i);
    LowStep(y, i);
    hide Low, TestBit;
  }

  lemma BoundsLast(rotation: Rotation, j: nat, value: nat, x: nat, y: nat, rs: seq<Rotation>, r: Rect)
    requires j > 0 && Low(value, 2 * j) < Cells(j)
    requires Decode(rotation, j, Low(value, 2 * j)) == (Low(x, j), Low(y, j))
    requires rs == Rotations(rotation, j, Low(value, 2 * j))
    requires Aligned(j, Low(value, 2 * j), 2 * j - 1)
    ensures rs[j - 1] == rotation
    ensures PrefixRect(rotation, j, Low(value, 2 * j), 2 * j - 1, r)
         == match rotation
            case Up | Down => r.HalfX(TestBit(x, j - 1))
            case Left | Right => r.HalfY(TestBit(y, j - 1))
  {
    hide *;
    DigitAt(value, j - 1);
    DecodeStep(rotation, j - 1, value);
    var q := LeadingQuadrant(j, Low(value, 2 * j));
    PlaceBits(Rotate(rotation, q), j - 1, Decode(NewRotation(rotation, q), j - 1, Low(value, 2 * (j - 1))), x, y, r);
    DropLast(Rotations(NewRotation(rotation, q), j - 1, Low(value, 2 * (j - 1))), rotation);
    LastHalf(rotation, j, Low(value, 2 * j), r);
  }

  lemma LastHalf(rotation: Rotation, j: nat, value: nat, r: Rect)
    requires j > 0 && value < Cells(j) && Aligned(j, value, 2 * j - 1)
    ensures PrefixRect(rotation, j, value, 2 * j - 1, r)
         == match rotation
            case Up | Down => r.HalfX(IsRight(Rotate(rotation, LeadingQuadrant(j, value))))
            case Left | Right => r.HalfY(IsTop(Rotate(rotation, LeadingQuadrant(j, value))))
  {
  }

  // ---- search_prefixes ---------------------------------------------------------------------

  ghost predicate AllValid(k: nat, ps: seq<Prefix>) {
    forall i | 0 <= i < |ps| :: ps[i].Valid(k)
  }

  /** Disjoint runs in curve order. */
  ghost predicate Ascending(ps: seq<Prefix>) {
    forall i, j | 0 <= i < j < |ps| :: ps[i].End() <= ps[j].value
  }

  ghost predicate Covers(ps: seq<Prefix>, h: nat) {
    exists i | 0 <= i < |ps| :: ps[i].Matches(h)
  }

  /** Every point of `bounds` has a hash with one of the prefixes. */
  ghost predicate CoversAll(k: nat, domain: Rect, bounds: Rect, ps: seq<Prefix>) {
    forall p: Point | bounds.Contains(p) :: Covers(ps, Hash(k, domain, p))
  }

  ghost predicate AllMeet(k: nat, domain: Rect, bounds: Rect, ps: seq<Prefix>)
    requires AllValid(k, ps)
  {
    forall i | 0 <= i < |ps| :: bounds.Intersects(Area(k, domain, ps[i]))
  }

  ghost predicate Cover(k: nat, domain: Rect, bounds: Rect, ps: seq<Prefix>) {
    AllValid(k, ps) && Ascending(ps) && CoversAll(k, domain, bounds, ps)
  }

  /** The rectangle of one cell of the curve. */
  function CellRect(k: nat, domain: Rect, h: nat): Rect
    requires h < Cells(k)
  {
    PrefixRect(Up, k, h, 0, domain)
  }

  /** What splitting the prefix `joint` keeps: a list of disjoint runs inside it, in order, that meet `bounds` and
      cover every cell of `joint` that does. */
  ghost predicate Refined(k: nat, domain: Rect, bounds: Rect, joint: Prefix, ps: seq<Prefix>) {
    && AllValid(k, ps) && Ascending(ps) && AllMeet(k, domain, bounds, ps)
    && (forall i | 0 <= i < |ps| :: joint.value <= ps[i].value && ps[i].End() <= joint.End())
    && CoversCells(k, domain, bounds, joint, ps)
  }

  ghost predicate CoversCells(k: nat, domain: Rect, bounds: Rect, joint: Prefix, ps: seq<Prefix>) {
    forall h: nat | h < Cells(k) && joint.Matches(h) && bounds.Intersects(CellRect(k, domain, h)) :: Covers(ps, h)
  }

  ghost predicate SameCover(a: seq<Prefix>, b: seq<Prefix>) {
    forall h :: Covers(a, h) <==> Covers(b, h)
  }

  /** The first `cut` runs are one bit longer than the others. */
  ghost predicate TwoOffsets(ps: seq<Prefix>, o: nat, cut: nat) {
    forall i | 0 <= i < |ps| :: ps[i].offset == o - if i < cut then 1 else 0
  }

  /** Two runs of the same size that make up one longer run. */
  predicate Halves(p: Prefix, q: Prefix) {
    p.offset == q.offset && p.End() == q.value && p.value % Pow2(p.offset + 1) == 0
  }

  /** Where splitting ends: with `stopSize` runs, the last split having kept both halves; with single cells before
      there are so many; or, if one run is enough, with the halves of the first one. */
  ghost predicate Stops(joint: Prefix, ps: seq<Prefix>, o: nat, cut: nat, stopSize: nat) {
    if joint.offset == 0 then ps == [joint]
    else if stopSize <= 1 then o == joint.offset && cut == |ps|
    else if |ps| < stopSize then o == 0
    else |ps| == stopSize && 0 < o <= joint.offset && 2 <= cut <= |ps| && Halves(ps[cut - 2], ps[cut - 1])
  }

  function LowHalf(p: Prefix): Prefix
    requires p.offset > 0
  {
    Prefix(p.value, p.offset - 1)
  }

  function HighHalf(p: Prefix): Prefix
    requires p.offset > 0
  {
    Prefix(p.value + Pow2(p.offset - 1), p.offset - 1)
  }

  lemma HalvesValid(k: nat, p: Prefix)
    requires p.Valid(k) && p.offset > 0
    ensures LowHalf(p).Valid(k) && HighHalf(p).Valid(k)
    ensures LowHalf(p).End() == HighHalf(p).value && HighHalf(p).End() == p.End()
    ensures MakePrefix(k, p.value, p.offset - 1) == LowHalf(p)
    ensures MakePrefix(k, Or(p.value, Pow2(p.offset - 1)), p.offset - 1) == HighHalf(p)
  {
    hide MakePrefix, Or, Cells, Aligned;
    ClearBelow(p.value, p.offset - 1);
    AlignedIffClear(k, p.value, p.offset);
    AlignedRoom(k, p.value, p.offset);
    MakeValid(k, p.value, p.offset - 1);
    MakeValid(k, p.value + Pow2(p.offset - 1), p.offset - 1);
  }

  /** The extensions of `p` by one bit whose rectangles meet `bounds`. */
  function KeptHalves(k: nat, domain: Rect, bounds: Rect, p: Prefix): seq<Prefix>
    requires p.Valid(k) && p.offset > 0
  {
    HalvesValid(k, p);
    (if bounds.Intersects(Area(k, domain, LowHalf(p))) then [LowHalf(p)] else [])
    + (if bounds.Intersects(Area(k, domain, HighHalf(p))) then [HighHalf(p)] else [])
  }

  /** Some point of `bounds`, moved into the domain, is still in `bounds`; so a rectangle that
      holds the moved point meets `bounds`. */
  lemma ClampStays(domain: Rect, bounds: Rect, p: Point)
    requires domain.Proper() && bounds.Contains(p) && bounds.Intersects(domain)
    ensures bounds.Contains(Clamp(p, domain))
  {
  }

  lemma MatchMeets(k: nat, domain: Rect, bounds: Rect, prefix: Prefix, p: Point)
    requires domain.Proper() && bounds.Contains(p) && bounds.Intersects(domain)
    requires prefix.Valid(k) && prefix.Matches(Hash(k, domain, p))
    ensures bounds.Intersects(Area(k, domain, prefix))
  {
    AlignedIffClear(k, prefix.value, prefix.offset);
    RectCovers(Up, k, prefix.value, prefix.offset, domain, p);
    ClampStays(domain, bounds, p);
  }

  lemma ValidIs(k: nat, p: Prefix)
    requires p.Valid(k)
    ensures p.offset <= 2 * k && p.value < Cells(k) && Aligned(k, p.value, p.offset)
  {
    hide Cells, Aligned, Pow2;
    AlignedIffClear(k, p.value, p.offset);
  }

  /** A prefix that meets `bounds` keeps at least one half. */
  lemma KeptNotEmpty(k: nat, domain: Rect, bounds: Rect, p: Prefix)
    requires p.Valid(k) && p.offset > 0 && domain.Proper() && bounds.Proper()
    requires bounds.Intersects(Area(k, domain, p))
    ensures KeptHalves(k, domain, bounds, p) != []
  {
    hide PrefixRect, Rect.Intersects, Prefix.Valid, Prefix.End, MakePrefix, Or, Pow2, Cells, Aligned;
    HalvesValid(k, p);
    ValidIs(k, p);
    RectSplits(Up, k, p.value, p.offset, domain, bounds);
  }

  /** Replacing one prefix of a cover by the halves that meet `bounds` leaves a cover. */
  lemma RefineOne(k: nat, domain: Rect, bounds: Rect, joint: Prefix, before: seq<Prefix>, p: Prefix, after: seq<Prefix>)
    requires domain.Proper() && bounds.Proper() && bounds.Intersects(domain)
    requires Cover(k, domain, bounds, before + [p] + after) && p.Valid(k) && p.offset > 0
    requires Refined(k, domain, bounds, joint, before + [p] + after)
    ensures Cover(k, domain, bounds, before + KeptHalves(k, domain, bounds, p) + after)
    ensures Refined(k, domain, bounds, joint, before + KeptHalves(k, domain, bounds, p) + after)
    ensures 1 <= |KeptHalves(k, domain, bounds, p)| <= 2
  {
    hide Prefix.Valid, PrefixRect, Rect.Intersects, Prefix.Matches, Prefix.End, HashIn, CoversCells, CoversAll, KeptHalves;
    var old', kept := before + [p] + after, KeptHalves(k, domain, bounds, p);
    var new' := before + kept + after;
    var n := |before|;
    assert old'[n] == p;
    KeptAre(k, domain, bounds, p);
    KeptNotEmpty(k, domain, bounds, p);
    forall i | 0 <= i < |new'|
      ensures new'[i].Valid(k) && bounds.Intersects(Area(k, domain, new'[i]))
      ensures joint.value <= new'[i].value && new'[i].End() <= joint.End()
    {
      if i < n { assert new'[i] == old'[i]; }
      else if i >= n + |kept| { assert new'[i] == old'[i - |kept| + 1]; }
      else { assert new'[i] == kept[i - n]; }
    }
    forall i, j | 0 <= i < j < |new'|
      ensures new'[i].End() <= new'[j].value
    {
      SpliceOrder(before, p, after, kept, i, j);
    }
    SplicePoints(k, domain, bounds, before, p, after);
    SpliceCells(k, domain, bounds, joint, before, p, after);
  }

  lemma SplicePoints(k: nat, domain: Rect, bounds: Rect, before: seq<Prefix>, p: Prefix, after: seq<Prefix>)
    requires domain.Proper() && bounds.Intersects(domain) && p.Valid(k) && p.offset > 0
    requires CoversAll(k, domain, bounds, before + [p] + after)
    ensures CoversAll(k, domain, bounds, before + KeptHalves(k, domain, bounds, p) + after)
  {
    hide Prefix.Valid, PrefixRect, Rect.Intersects, Prefix.Matches, KeptHalves, HashIn;
    forall q: Point | bounds.Contains(q)
      ensures Covers(before + KeptHalves(k, domain, bounds, p) + after, Hash(k, domain, q))
    {
      if p.Matches(Hash(k, domain, q)) {
        var t := MatchingHalf(k, domain, bounds, p, q);
      }
      SpliceCovers(before, p, after, KeptHalves(k, domain, bounds, p), Hash(k, domain, q));
    }
  }

  lemma SpliceCells(k: nat, domain: Rect, bounds: Rect, joint: Prefix, before: seq<Prefix>, p: Prefix, after: seq<Prefix>)
    requires domain.Proper() && bounds.Proper() && p.Valid(k) && p.offset > 0
    requires CoversCells(k, domain, bounds, joint, before + [p] + after)
    ensures CoversCells(k, domain, bounds, joint, before + KeptHalves(k, domain, bounds, p) + after)
  {
    hide Prefix.Valid, PrefixRect, Rect.Intersects, Prefix.Matches, KeptHalves, Cells;
    forall h: nat | h < Cells(k) && joint.Matches(h) && bounds.Intersects(CellRect(k, domain, h))
      ensures Covers(before + KeptHalves(k, domain, bounds, p) + after, h)
    {
      if p.Matches(h) {
        var t := HalfWithCell(k, domain, bounds, p, h);
      }
      SpliceCovers(before, p, after, KeptHalves(k, domain, bounds, p), h);
    }
  }

  /** The half that holds a cell that meets `bounds` is kept. */
  lemma HalfWithCell(k: nat, domain: Rect, bounds: Rect, p: Prefix, h: nat) returns (t: nat)
    requires domain.Proper() && p.Valid(k) && p.offset > 0 && h < Cells(k) && p.Matches(h)
    requires bounds.Intersects(CellRect(k, domain, h))
    ensures t < |KeptHalves(k, domain, bounds, p)| && KeptHalves(k, domain, bounds, p)[t].Matches(h)
  {
    hide PrefixRect, Rect.Intersects, MakePrefix, Or, Cells, Aligned;
    HalvesValid(k, p);
    if LowHalf(p).Matches(h) {
      CellMeets(k, domain, bounds, LowHalf(p), h);
      t := 0;
    } else {
      CellMeets(k, domain, bounds, HighHalf(p), h);
      t := |KeptHalves(k, domain, bounds, p)| - 1;
    }
  }

  lemma CellMeets(k: nat, domain: Rect, bounds: Rect, p: Prefix, h: nat)
    requires domain.Proper() && p.Valid(k) && h < Cells(k) && p.Matches(h) && bounds.Intersects(CellRect(k, domain, h))
    ensures bounds.Intersects(Area(k, domain, p))
  {
    hide PrefixRect, Prefix.Matches, Cells, Aligned, Prefix.Valid;
    ValidIs(k, p);
    CellInside(Up, k, p.value, p.offset, h, domain);
  }

  lemma KeptAre(k: nat, domain: Rect, bounds: Rect, p: Prefix)
    requires p.Valid(k) && p.offset > 0
    ensures var kept := KeptHalves(k, domain, bounds, p);
      && |kept| <= 2 && Ascending(kept)
      && forall t | 0 <= t < |kept| ::
           && kept[t].Valid(k) && bounds.Intersects(Area(k, domain, kept[t]))
           && p.value <= kept[t].value && kept[t].End() <= p.End() && kept[t].offset == p.offset - 1
    ensures var kept := KeptHalves(k, domain, bounds, p); |kept| == 2 ==> Halves(kept[0], kept[1])
  {
    hide PrefixRect, Rect.Intersects;
    HalvesValid(k, p);
  }

  /** Replacing a run by others keeps a position covered if the others cover it when the run does. */
  lemma SpliceCovers(before: seq<Prefix>, p: Prefix, after: seq<Prefix>, kept: seq<Prefix>, h: nat)
    requires Covers(before + [p] + after, h) && (p.Matches(h) ==> exists t :: 0 <= t < |kept| && kept[t].Matches(h))
    ensures Covers(before + kept + after, h)
  {
    hide Prefix.Matches;
    var old', new', n := before + [p] + after, before + kept + after, |before|;
    var i :| 0 <= i < |old'| && old'[i].Matches(h);
    if i < n {
      assert new'[i].Matches(h);
    } else if i > n {
      assert new'[i - 1 + |kept|] == old'[i];
      assert new'[i - 1 + |kept|].Matches(h);
    } else {
      var t :| 0 <= t < |kept| && kept[t].Matches(h);
      assert new'[n + t] == kept[t];
    }
  }

  lemma MatchingHalf(k: nat, domain: Rect, bounds: Rect, p: Prefix, q: Point) returns (t: nat)
    requires domain.Proper() && bounds.Intersects(domain) && bounds.Contains(q)
    requires p.Valid(k) && p.offset > 0 && p.Matches(Hash(k, domain, q))
    ensures t < |KeptHalves(k, domain, bounds, p)|
    ensures KeptHalves(k, domain, bounds, p)[t].Matches(Hash(k, domain, q))
  {
    hide PrefixRect, HashIn, Rect.Intersects;
    HalvesValid(k, p);
    if LowHalf(p).Matches(Hash(k, domain, q)) {
      MatchMeets(k, domain, bounds, LowHalf(p), q);
      t := 0;
    } else {
      MatchMeets(k, domain, bounds, HighHalf(p), q);
      t := |KeptHalves(k, domain, bounds, p)| - 1;
    }
  }

  /** Replacing a run by runs inside it, in order, keeps the whole list in order. */
  lemma SpliceOrder(before: seq<Prefix>, p: Prefix, after: seq<Prefix>, kept: seq<Prefix>, i: nat, j: nat)
    requires Ascending(before + [p] + after) && Ascending(kept)
    requires forall t | 0 <= t < |kept| :: p.value <= kept[t].value && kept[t].End() <= p.End()
    requires i < j < |before + kept + after|
    ensures (before + kept + after)[i].End() <= (before + kept + after)[j].value
  {
    var old', new' := before + [p] + after, before + kept + after;
    var n, m := |before|, |kept|;
    assert old'[n] == p;
    if i < n { assert new'[i] == old'[i]; }
    if j < n { assert new'[j] == old'[j]; }
    if i >= n + m { assert new'[i] == old'[i - m + 1]; }
    if j >= n + m { assert new'[j] == old'[j - m + 1]; }
    if n <= i < n + m { assert new'[i] == kept[i - n]; }
    if n <= j < n + m { assert new'[j] == kept[j - n]; }
  }

  /** Extend `prefix` by one bit and keep the forks that meet `bounds`. */
  method SplitPrefix(k: nat, domain: Rect, bounds: Rect, prefix: Prefix) returns (kept: seq<Prefix>)
    requires prefix.Valid(k) && prefix.offset > 0
    ensures kept == KeptHalves(k, domain, bounds, prefix)
  {
    hide Prefix.Valid, PrefixRect, Rect.Intersects, MakePrefix, Or, ShiftLeft, KeptHalves, Pow2, Cells, Aligned;
    kept := [];
    ValidIs(k, prefix);
    HalvesValid(k, prefix);
    KeptIs(k, domain, bounds, prefix);
    OrZero(prefix.value);
    ShiftsOf(prefix.offset - 1);
    var newOffset := prefix.offset - 1;
    for i := 0 to 2
      invariant i == 0 ==> kept == []
      invariant i == 1 ==> kept == if bounds.Intersects(Area(k, domain, LowHalf(prefix))) then [LowHalf(prefix)] else []
      invariant i == 2 ==> kept == KeptHalves(k, domain, bounds, prefix)
    {
      var split := MakePrefix(k, Or(prefix.value, ShiftLeft(i, newOffset)), newOffset);
      var area := Bounds(k, domain, split);
      if bounds.Intersects(area) {
        kept := kept + [split];
      }
    }
  }

  lemma ShiftsOf(m: nat)
    ensures ShiftLeft(0, m) == 0 && ShiftLeft(1, m) == Pow2(m)
  {
  }

  lemma KeptIs(k: nat, domain: Rect, bounds: Rect, p: Prefix)
    requires p.Valid(k) && p.offset > 0
    ensures LowHalf(p).Valid(k) && HighHalf(p).Valid(k)
    ensures KeptHalves(k, domain, bounds, p)
         == (if bounds.Intersects(Area(k, domain, LowHalf(p))) then [LowHalf(p)] else [])
            + (if bounds.Intersects(Area(k, domain, HighHalf(p))) then [HighHalf(p)] else [])
  {
    hide Prefix.Valid, PrefixRect, Rect.Intersects, Pow2;
    HalvesValid(k, p);
  }

  lemma OrZero(v: nat)
    ensures Or(v, 0) == v
  {
  }

  /** What one turn of the splitting loop does to the whole list: the prefix stays or is replaced by its halves. */
  lemma PassOne(k: nat, domain: Rect, bounds: Rect, joint: Prefix, done: seq<Prefix>, prefixes: seq<Prefix>, j: nat)
    requires domain.Proper() && bounds.Proper() && j < |prefixes| && Cover(k, domain, bounds, done + prefixes[j..])
    requires bounds.Intersects(domain) ==> Refined(k, domain, bounds, joint, done + prefixes[j..])
    ensures prefixes[j].Valid(k) && done + prefixes[j..] == done + [prefixes[j]] + prefixes[j + 1..]
    ensures bounds.Intersects(domain) && prefixes[j].offset > 0 ==>
      var kept := KeptHalves(k, domain, bounds, prefixes[j]);
      var all := done + kept + prefixes[j + 1..];
      && 1 <= |kept| <= 2 && (forall t | 0 <= t < |kept| :: kept[t].offset == prefixes[j].offset - 1)
      && (|kept| == 2 ==> Halves(kept[0], kept[1]))
      && Cover(k, domain, bounds, all) && Refined(k, domain, bounds, joint, all)
  {
    hide Prefix.Valid, PrefixRect, Rect.Intersects, CoversAll, Ascending, KeptHalves, Refined, Halves;
    var prefix := prefixes[j];
    assert done + prefixes[j..] == done + [prefix] + prefixes[j + 1..];
    assert (done + prefixes[j..])[|done|] == prefix;
    if bounds.Intersects(domain) && prefix.offset > 0 {
      RefineOne(k, domain, bounds, joint, done, prefix, prefixes[j + 1..]);
      KeptAre(k, domain, bounds, prefix);
    }
  }

  /** A pass over `count` prefixes of more than one cell stops: with `stopSize` of them, the last one split having
      kept both halves, or after the only one. */
  ghost predicate PassStops(ps: seq<Prefix>, cut: nat, count: nat, stopSize: nat) {
    if count < stopSize then |ps| == stopSize && 2 <= cut <= |ps| && Halves(ps[cut - 2], ps[cut - 1])
    else count == 1 && cut == |ps|
  }

  /** One pass of the splitting loop over all prefixes.  It stops with enough of them, or when the prefixes
      are single cells; then those behind the first `cut` have not been split. */
  method SplitPass(k: nat, domain: Rect, bounds: Rect, prefixes: seq<Prefix>, stopSize: nat, ghost o: nat, ghost joint: Prefix)
    returns (workspace: seq<Prefix>, stop: bool, ghost cut: nat)
    requires domain.Proper() && bounds.Proper() && (bounds.Intersects(domain) || o == 0)
    requires Cover(k, domain, bounds, prefixes)
    requires bounds.Intersects(domain) ==> Refined(k, domain, bounds, joint, prefixes)
    requires 1 <= |prefixes| && (|prefixes| < 2 || |prefixes| < stopSize)
    requires forall i | 0 <= i < |prefixes| :: prefixes[i].offset == o
    ensures Cover(k, domain, bounds, workspace)
    ensures bounds.Intersects(domain) ==> Refined(k, domain, bounds, joint, workspace)
    ensures 1 <= |workspace| && (|workspace| <= 2 || |workspace| <= stopSize)
    ensures TwoOffsets(workspace, o, cut) && (!stop ==> o > 0 && cut == |workspace| < stopSize)
    ensures stop && o > 0 ==> PassStops(workspace, cut, |prefixes|, stopSize)
    ensures o == 0 ==> workspace == prefixes
  {
    hide Prefix.Valid, PrefixRect, Rect.Intersects, Cover, KeptHalves, Refined, Halves, PassAt, PassStops, TwoOffsets;
    var prefixCount: nat := |prefixes|;
    workspace, stop, cut := [], false, 0;
    var j := 0;
    assert workspace + prefixes[j..] == prefixes;
    PassStart(prefixes, o, stopSize);
    while j < |prefixes|
      invariant 0 <= j <= |prefixes|
      invariant Cover(k, domain, bounds, workspace + prefixes[j..])
      invariant bounds.Intersects(domain) ==> Refined(k, domain, bounds, joint, workspace + prefixes[j..])
      invariant PassAt(prefixes, workspace, j, o, cut, stop, prefixCount, stopSize)
    {
      var prefix := prefixes[j];
      PassOne(k, domain, bounds, joint, workspace, prefixes, j);
      if stop || prefix.offset == 0 {
        PassKeep(prefixes, workspace, j, o, cut, stop, prefixCount, stopSize);
        workspace := workspace + [prefix];
        stop := true;
      } else {
        var kept := SplitPrefix(k, domain, bounds, prefix);
        PassSplit(prefixes, workspace, j, o, cut, prefixCount, stopSize, kept);
        prefixCount := prefixCount - 1 + |kept|;
        workspace := workspace + kept;
        cut := |workspace|;
        if prefixCount >= stopSize {
          stop := true;
        }
      }
      j := j + 1;
    }
    assert workspace + prefixes[j..] == workspace;
    PassEnd(prefixes, workspace, o, cut, stop, prefixCount, stopSize);
  }

  /** The splitting loop has come to prefix `j`. */
  ghost predicate PassAt(prefixes: seq<Prefix>, done: seq<Prefix>, j: nat, o: nat, cut: nat, stop: bool, count: nat, stopSize: nat)
    requires j <= |prefixes|
  {
    && (j == 0 ==> done == []) && count == |done| + |prefixes| - j && 1 <= count && (count <= 2 || count <= stopSize)
    && (forall i | 0 <= i < |prefixes| :: prefixes[i].offset == o)
    && TwoOffsets(done, o, cut) && cut <= |done| && (!stop ==> cut == |done|)
    && (o == 0 ==> done == prefixes[..j] && (j > 0 ==> stop))
    && (!stop ==> (|prefixes| == 1 && j == 0) || count < stopSize)
    && (|prefixes| >= stopSize ==> |prefixes| == 1)
    && (stop && o > 0 ==>
          if |prefixes| < stopSize then count == stopSize && 2 <= cut && Halves(done[cut - 2], done[cut - 1]) else j == 1 && cut == |done|)
  }

  lemma PassStart(prefixes: seq<Prefix>, o: nat, stopSize: nat)
    requires 1 <= |prefixes| && (|prefixes| < 2 || |prefixes| < stopSize) && forall i | 0 <= i < |prefixes| :: prefixes[i].offset == o
    ensures PassAt(prefixes, [], 0, o, 0, false, |prefixes|, stopSize)
  {
  }

  lemma PassKeep(prefixes: seq<Prefix>, done: seq<Prefix>, j: nat, o: nat, cut: nat, stop: bool, count: nat, stopSize: nat)
    requires j < |prefixes| && PassAt(prefixes, done, j, o, cut, stop, count, stopSize) && (stop || prefixes[j].offset == 0)
    ensures PassAt(prefixes, done + [prefixes[j]], j + 1, o, cut, true, count, stopSize)
  {
    hide Halves;
    assert prefixes[..j + 1] == prefixes[..j] + [prefixes[j]];
  }

  lemma PassSplit(prefixes: seq<Prefix>, done: seq<Prefix>, j: nat, o: nat, cut: nat, count: nat, stopSize: nat, kept: seq<Prefix>)
    requires j < |prefixes| && PassAt(prefixes, done, j, o, cut, false, count, stopSize) && prefixes[j].offset > 0
    requires 1 <= |kept| <= 2 && (forall t | 0 <= t < |kept| :: kept[t].offset == prefixes[j].offset - 1)
    requires |kept| == 2 ==> Halves(kept[0], kept[1])
    ensures var count' := count - 1 + |kept|;
      PassAt(prefixes, done + kept, j + 1, o, |done + kept|, count' >= stopSize, count', stopSize)
  {
    hide Halves;
    var all := done + kept;
    assert |kept| == 2 ==> all[|all| - 2] == kept[0] && all[|all| - 1] == kept[1];
    forall i | 0 <= i < |all|
      ensures all[i].offset == o - 1
    {
      assert i >= |done| ==> all[i] == kept[i - |done|];
    }
  }

  lemma PassEnd(prefixes: seq<Prefix>, done: seq<Prefix>, o: nat, cut: nat, stop: bool, count: nat, stopSize: nat)
    requires 1 <= |prefixes| && PassAt(prefixes, done, |prefixes|, o, cut, stop, count, stopSize)
    ensures 1 <= |done| && (|done| <= 2 || |done| <= stopSize)
    ensures TwoOffsets(done, o, cut) && (!stop ==> o > 0 && cut == |done| < stopSize)
    ensures stop && o > 0 ==> PassStops(done, cut, |prefixes|, stopSize)
    ensures o == 0 ==> done == prefixes
  {
    hide Halves;
  }

  /** A run of a single position cannot be split, and covers a box whose corners share it. */
  lemma SinglePositionCovers(k: nat, domain: Rect, bounds: Rect, joint: Prefix)
    requires joint.Valid(k) && bounds.Proper()
    requires joint.Matches(Hash(k, domain, bounds.ll)) && joint.Matches(Hash(k, domain, bounds.ur))
    ensures Cover(k, domain, bounds, [joint])
  {
    forall p: Point | bounds.Contains(p)
      ensures Covers([joint], Hash(k, domain, p))
    {
      AlignedIffClear(k, joint.value, joint.offset);
      SharedPrefix(Up, k, joint.value, joint.offset, domain, bounds.ll, bounds.ur, p);
      assert [joint][0].Matches(Hash(k, domain, p));
    }
  }

  /** `prefix` and `next` are the two halves of one longer run. */
  predicate Siblings(k: nat, prefix: Prefix, next: Prefix) {
    && prefix.offset < 2 * k
    && prefix.offset == next.offset
    && AppliesToPrefix(k, MakePrefix(k, prefix.value, prefix.offset + 1), next)
  }

  lemma SiblingsJoin(k: nat, p: Prefix, q: Prefix)
    requires p.Valid(k) && q.Valid(k) && p.End() <= q.value
    ensures p.offset < 2 * k
    ensures Siblings(k, p, q) ==>
      var parent := MakePrefix(k, p.value, p.offset + 1);
      parent.Valid(k) && parent.value == p.value && p.End() == q.value && parent.End() == q.End()
  {
    hide And, HighMask;
    AlignedIffClear(k, p.value, p.offset);
    AlignedRoom(k, p.value, p.offset);
    CellsIsPow2(k);
    if Siblings(k, p, q) {
      var o := p.offset;
      MakeValid(k, p.value, o + 1);
      ParentFloor(k, p.value, o + 1);
      ParentFloor(k, q.value, o + 1);
      SiblingArith(p.value, q.value, o);
    }
  }

  /** The test for siblings holds exactly of two halves of one run. */
  lemma SiblingsAre(k: nat, p: Prefix, q: Prefix)
    requires p.Valid(k) && q.Valid(k) && p.End() <= q.value
    ensures Siblings(k, p, q) <==> Halves(p, q)
  {
    hide And, HighMask, Cells, AppliesToPrefix, MakePrefix;
    SiblingsJoin(k, p, q);
    if Siblings(k, p, q) {
      MakeValid(k, p.value, p.offset + 1);
    }
    if Halves(p, q) {
      HalvesApply(k, p, q);
    }
  }

  lemma HalvesApply(k: nat, p: Prefix, q: Prefix)
    requires p.Valid(k) && q.Valid(k) && Halves(p, q) && p.offset < 2 * k
    ensures AppliesToPrefix(k, MakePrefix(k, p.value, p.offset + 1), q)
  {
    hide And, HighMask, Cells;
    MakeValid(k, p.value, p.offset + 1);
    ParentFloor(k, q.value, p.offset + 1);
    SecondHalf(p.value, p.offset);
  }

  lemma SecondHalf(v: nat, o: nat)
    requires v % Pow2(o + 1) == 0
    ensures (v + Pow2(o)) % Pow2(o + 1) == Pow2(o)
  {
    var d := Pow2(o + 1);
    assert d == 2 * Pow2(o) && v == d * (v / d);
    DivModUnique(v + Pow2(o), d, v / d, Pow2(o));
  }

  lemma SiblingArith(a: nat, b: nat, o: nat)
    requires a % Pow2(o) == 0 && b % Pow2(o) == 0 && a + Pow2(o) <= b
    requires a - a % Pow2(o + 1) == b - b % Pow2(o + 1)
    ensures a % Pow2(o + 1) == 0 && b == a + Pow2(o)
  {
    ModHigh(a, o);
    ModHigh(b, o);
    var ba, bb := (a / Pow2(o)) % 2, (b / Pow2(o)) % 2;
    assert (ba == 0 || ba == 1) && (bb == 0 || bb == 1);
  }

  lemma ParentFloor(k: nat, v: nat, o: nat)
    requires v < Cells(k) && o <= 2 * k
    ensures And(v, HighMask(2 * k, o)) == v - v % Pow2(o)
    ensures o == 2 * k ==> v % Pow2(o) == v
  {
    CellsIsPow2(k);
    AndHighMask(v, 2 * k, o);
    if o == 2 * k {
      SmallMod(v, Pow2(o));
    }
  }

  /** Two adjacent runs may be replaced by the run that they make up. */
  lemma JoinTwo(k: nat, domain: Rect, bounds: Rect, before: seq<Prefix>, p: Prefix, q: Prefix, after: seq<Prefix>,
                parent: Prefix)
    requires Cover(k, domain, bounds, before + [p, q] + after)
    requires parent.Valid(k) && parent.value == p.value && p.End() == q.value && parent.End() == q.End()
    ensures Cover(k, domain, bounds, before + [parent] + after)
    ensures SameCover(before + [parent] + after, before + [p, q] + after)
  {
    hide Prefix.Valid, Prefix.End, CoversAll, SameCover;
    var old', new' := before + [p, q] + after, before + [parent] + after;
    var n := |before|;
    assert old'[n] == p && old'[n + 1] == q && new'[n] == parent;
    JoinCovers(before, p, q, after, parent);
    SameCoversAll(k, domain, bounds, old', new');
    forall i | 0 <= i < |new'|
      ensures new'[i].Valid(k)
    {
      assert i != n ==> new'[i] == old'[if i < n then i else i + 1];
    }
    forall i, j | 0 <= i < j < |new'|
      ensures new'[i].End() <= new'[j].value
    {
      assert i != n ==> new'[i] == old'[if i < n then i else i + 1];
      assert j != n ==> new'[j] == old'[if j < n then j else j + 1];
    }
  }

  lemma JoinCovers(before: seq<Prefix>, p: Prefix, q: Prefix, after: seq<Prefix>, parent: Prefix)
    requires parent.value == p.value && p.End() == q.value && parent.End() == q.End()
    ensures SameCover(before + [parent] + after, before + [p, q] + after)
  {
    var old', new', n := before + [p, q] + after, before + [parent] + after, |before|;
    forall h
      ensures Covers(new', h) <==> Covers(old', h)
    {
      if i :| 0 <= i < |old'| && old'[i].Matches(h) {
        JoinMatches(before, p, q, after, parent, h, i);
      }
      if i :| 0 <= i < |new'| && new'[i].Matches(h) {
        JoinMatched(before, p, q, after, parent, h, i);
      }
    }
  }

  lemma JoinMatched(before: seq<Prefix>, p: Prefix, q: Prefix, after: seq<Prefix>, parent: Prefix, h: nat, i: nat)
    requires i < |before + [parent] + after| && (before + [parent] + after)[i].Matches(h)
    requires parent.value == p.value && p.End() == q.value && parent.End() == q.End()
    ensures Covers(before + [p, q] + after, h)
  {
    hide Pow2;
    var old', n := before + [p, q] + after, |before|;
    var i' := if i < n || (i == n && p.Matches(h)) then i else i + 1;
    assert old'[i'].Matches(h);
  }

  lemma SameCoversAll(k: nat, domain: Rect, bounds: Rect, a: seq<Prefix>, b: seq<Prefix>)
    requires CoversAll(k, domain, bounds, a) && SameCover(b, a)
    ensures CoversAll(k, domain, bounds, b)
  {
    hide Covers, Hash;
  }

  lemma JoinMatches(before: seq<Prefix>, p: Prefix, q: Prefix, after: seq<Prefix>, parent: Prefix, h: nat, i: nat)
    requires i < |before + [p, q] + after| && (before + [p, q] + after)[i].Matches(h)
    requires parent.value == p.value && p.End() == q.value && parent.End() == q.End()
    ensures Covers(before + [parent] + after, h)
  {
    hide Pow2;
    var new' := before + [parent] + after;
    var i' := if i <= |before| then i else i - 1;
    assert new'[i'].Matches(h);
  }

  /** No two neighbours among the first `n` could be joined. */
  ghost predicate NoSiblings(k: nat, ps: seq<Prefix>, n: nat)
    requires n <= |ps|
  {
    forall i | 1 <= i < n :: !Siblings(k, ps[i - 1], ps[i])
  }

  lemma NoSiblingsStep(k: nat, ps: seq<Prefix>, i: nat)
    requires i + 1 < |ps| && !Siblings(k, ps[i], ps[i + 1])
    ensures NoSiblings(k, ps, i + 1) ==> NoSiblings(k, ps, i + 2)
  {
  }

  lemma CoverAt(k: nat, domain: Rect, bounds: Rect, before: seq<Prefix>, p: Prefix, q: Prefix, after: seq<Prefix>)
    requires Cover(k, domain, bounds, before + [p, q] + after)
    ensures p.Valid(k) && q.Valid(k) && p.End() <= q.value
  {
    hide Prefix.Valid, Prefix.End, CoversAll;
    var all := before + [p, q] + after;
    assert all[|before|] == p && all[|before| + 1] == q;
  }

  lemma TakeTwo(before: seq<Prefix>, ps: seq<Prefix>, i: nat)
    requires i + 1 < |ps|
    ensures before + ps[i..] == before + [ps[i], ps[i + 1]] + ps[i + 2..]
    ensures before + ps[i..] == before + [ps[i]] + ps[i + 1..]
  {
  }

  lemma SameCoverChain(a: seq<Prefix>, b: seq<Prefix>, c: seq<Prefix>)
    requires SameCover(b, a) && SameCover(c, b)
    ensures SameCover(c, a)
  {
    hide Covers;
  }

  lemma SameCoverSelf(a: seq<Prefix>)
    ensures SameCover(a, a)
  {
  }

  /** What one turn of the recombining loop does to the whole list. */
  lemma JoinOne(k: nat, domain: Rect, bounds: Rect, done: seq<Prefix>, prefixes: seq<Prefix>, i: nat)
    requires i + 1 < |prefixes| && Cover(k, domain, bounds, done + prefixes[i..])
    ensures prefixes[i].offset < 2 * k
    ensures if Siblings(k, prefixes[i], prefixes[i + 1])
            then var all := done + [MakePrefix(k, prefixes[i].value, prefixes[i].offset + 1)] + prefixes[i + 2..];
                 Cover(k, domain, bounds, all) && SameCover(all, done + prefixes[i..])
            else done + [prefixes[i]] + prefixes[i + 1..] == done + prefixes[i..]
  {
    hide Prefix.Valid, Prefix.End, Siblings, Cover, SameCover, MakePrefix;
    TakeTwo(done, prefixes, i);
    CoverAt(k, domain, bounds, done, prefixes[i], prefixes[i + 1], prefixes[i + 2..]);
    SiblingsJoin(k, prefixes[i], prefixes[i + 1]);
    if Siblings(k, prefixes[i], prefixes[i + 1]) {
      var parent := MakePrefix(k, prefixes[i].value, prefixes[i].offset + 1);
      JoinTwo(k, domain, bounds, done, prefixes[i], prefixes[i + 1], prefixes[i + 2..], parent);
    }
  }

  /** One pass of the recombining loop. */
  method JoinPass(k: nat, domain: Rect, bounds: Rect, prefixes: seq<Prefix>) returns (workspace: seq<Prefix>)
    requires 1 <= |prefixes| && Cover(k, domain, bounds, prefixes)
    ensures 1 <= |workspace| <= |prefixes| && Cover(k, domain, bounds, workspace) && SameCover(workspace, prefixes)
    ensures |workspace| == |prefixes| ==> workspace == prefixes && NoSiblings(k, prefixes, |prefixes|)
  {
    hide Prefix.Valid, Prefix.End, Siblings, Cover, SameCover, MakePrefix, JoinedTo;
    workspace := [];
    var i := 0;
    assert workspace + prefixes[i..] == prefixes;
    JoinedNone(k, prefixes);
    SameCoverSelf(prefixes);
    while i < |prefixes| - 1
      invariant 0 <= i <= |prefixes| && JoinedTo(k, prefixes, workspace, i)
      invariant Cover(k, domain, bounds, workspace + prefixes[i..]) && SameCover(workspace + prefixes[i..], prefixes)
    {
      JoinOne(k, domain, bounds, workspace, prefixes, i);
      ghost var before := workspace + prefixes[i..];
      JoinedOne(k, prefixes, workspace, i);
      if Siblings(k, prefixes[i], prefixes[i + 1]) {
        var parent := MakePrefix(k, prefixes[i].value, prefixes[i].offset + 1);
        workspace := workspace + [parent];
        SameCoverChain(prefixes, before, workspace + prefixes[i + 2..]);
        i := i + 2;
      } else {
        workspace := workspace + [prefixes[i]];
        i := i + 1;
      }
    }
    JoinedAll(k, prefixes, workspace, i);
    assert i < |prefixes| ==> prefixes[i..] == [prefixes[i]];
    assert i == |prefixes| ==> workspace + prefixes[i..] == workspace;
    if i < |prefixes| {
      workspace := workspace + [prefixes[i]];
    }
  }

  /** The recombining loop has come to prefix `i`: nothing joined so far, or fewer prefixes. */
  ghost predicate JoinedTo(k: nat, prefixes: seq<Prefix>, done: seq<Prefix>, i: nat)
    requires i <= |prefixes|
  {
    && |done| <= i && (i == 0 || 1 <= |done|)
    && (|done| == i ==> done == prefixes[..i] && i < |prefixes| && NoSiblings(k, prefixes, i + 1))
  }

  lemma JoinedNone(k: nat, prefixes: seq<Prefix>)
    requires 1 <= |prefixes|
    ensures JoinedTo(k, prefixes, [], 0)
  {
  }

  lemma JoinedOne(k: nat, prefixes: seq<Prefix>, done: seq<Prefix>, i: nat)
    requires i + 1 < |prefixes| && JoinedTo(k, prefixes, done, i)
    ensures !Siblings(k, prefixes[i], prefixes[i + 1]) ==> JoinedTo(k, prefixes, done + [prefixes[i]], i + 1)
    ensures forall p :: JoinedTo(k, prefixes, done + [p], i + 2)
  {
    hide Siblings, NoSiblings;
    if |done| == i && !Siblings(k, prefixes[i], prefixes[i + 1]) {
      assert prefixes[..i + 1] == prefixes[..i] + [prefixes[i]];
      NoSiblingsStep(k, prefixes, i);
    }
  }

  lemma JoinedAll(k: nat, prefixes: seq<Prefix>, done: seq<Prefix>, i: nat)
    requires |prefixes| - 1 <= i <= |prefixes| && 1 <= |prefixes| && JoinedTo(k, prefixes, done, i)
    ensures if i == |prefixes| then 1 <= |done| < |prefixes|
            else |done| < |prefixes| && (|done| == i ==> done + [prefixes[i]] == prefixes && NoSiblings(k, prefixes, |prefixes|))
  {
    hide NoSiblings;
    assert i < |prefixes| ==> prefixes[..i] + [prefixes[i]] == prefixes;
  }

  /** The result of a search: it covers the positions of the list `fine`, runs of two neighbouring sizes inside the
      joint prefix of the box, each meeting the box, which is refined until there are enough of them or they are
      single cells; and no two of its runs could be joined. */
  ghost predicate Searched(k: nat, domain: Rect, bounds: Rect, stopSize: nat, prefixes: seq<Prefix>,
                           joint: Prefix, fine: seq<Prefix>, o: nat, cut: nat)
  {
    && AllValid(k, prefixes) && Ascending(prefixes)
    && (forall i | 1 <= i < |prefixes| :: !Halves(prefixes[i - 1], prefixes[i]))
    && LongestJoint(k, Hash(k, domain, bounds.ll), Hash(k, domain, bounds.ur), joint)
    && SameCover(prefixes, fine) && TwoOffsets(fine, o, cut)
    && (if bounds.Intersects(domain) then Refined(k, domain, bounds, joint, fine) && Stops(joint, fine, o, cut, stopSize)
        else fine == [joint])
  }

  /** `search_prefixes`.  The box must meet the domain, or both of its corners must fall into the
      same cell: for any other box the loops below run out of prefixes (`OutsideKeepsNothing`). */
  method SearchPrefixes(k: nat, domain: Rect, bounds: Rect, stopSize: nat)
    returns (prefixes: seq<Prefix>, ghost joint: Prefix, ghost fine: seq<Prefix>, ghost o: nat, ghost cut: nat)
    requires domain.Proper() && bounds.Proper()
    requires bounds.Intersects(domain) || Hash(k, domain, bounds.ll) == Hash(k, domain, bounds.ur)
    ensures AllValid(k, prefixes) && Ascending(prefixes)
    ensures CoversAll(k, domain, bounds, prefixes)
    ensures 1 <= |prefixes| && (|prefixes| <= 2 || |prefixes| <= stopSize)
    ensures Searched(k, domain, bounds, stopSize, prefixes, joint, fine, o, cut)
    ensures bounds.Intersects(domain) && stopSize > Cells(k) ==> forall h: nat | h < Cells(k) ::
      Covers(prefixes, h) <==> joint.Matches(h) && bounds.Intersects(CellRect(k, domain, h))
  {
    hide Prefix.Valid, Rect.Intersects, PrefixRect, CoversAll, Ascending, Prefix.Matches, NoSiblings, Refined, SameCover, LongestJoint, Halves;
    var h1 := GeoHasher(k, domain, bounds.ll);
    var h2 := GeoHasher(k, domain, bounds.ur);
    var first := JointPrefix(k, h1, h2);
    joint := first;
    JointIs(k, h1, h2, joint);
    prefixes := [first];
    SinglePositionCovers(k, domain, bounds, joint);
    if h1 == h2 {
      JointOfOne(k, h1, joint);
    }
    var stop := false;
    o, cut := joint.offset, 1;
    ghost var next: nat := o;
    if bounds.Intersects(domain) {
      MatchMeets(k, domain, bounds, joint, bounds.ll);
      RefinedFirst(k, domain, bounds, joint);
    }
    while !stop
      invariant Cover(k, domain, bounds, prefixes)
      invariant if bounds.Intersects(domain) then Refined(k, domain, bounds, joint, prefixes) else prefixes == [joint] && joint.offset == 0
      invariant 1 <= |prefixes| && (|prefixes| <= 2 || |prefixes| <= stopSize)
      invariant !stop ==> (prefixes == [joint] && next == joint.offset) || (|prefixes| < stopSize && next < joint.offset)
      invariant !stop ==> forall i | 0 <= i < |prefixes| :: prefixes[i].offset == next
      invariant !stop ==> bounds.Intersects(domain) || next == 0
      invariant stop ==> TwoOffsets(prefixes, o, cut) && Stops(joint, prefixes, o, cut, stopSize)
      decreases !stop, next
    {
      o := next;
      prefixes, stop, cut := SplitPass(k, domain, bounds, prefixes, stopSize, o, joint);
      next := if stop then 0 else o - 1;
    }
    fine := prefixes;
    SameCoverSelf(fine);
    while true
      invariant 1 <= |prefixes| && (|prefixes| <= 2 || |prefixes| <= stopSize)
      invariant Cover(k, domain, bounds, prefixes) && SameCover(prefixes, fine)
      decreases |prefixes|
    {
      ghost var before := prefixes;
      var workspace := JoinPass(k, domain, bounds, prefixes);
      SameCoverChain(fine, prefixes, workspace);
      if |prefixes| == |workspace| {
        break;
      }
      prefixes := workspace;
    }
    NoHalves(k, prefixes);
    if bounds.Intersects(domain) && stopSize > Cells(k) {
      CellsOnly(k, domain, bounds, joint, fine, o, cut, stopSize);
      CellsCovered(k, domain, bounds, joint, prefixes, fine);
    }
  }

  /** The longest prefix that both hashes have. */
  ghost predicate LongestJoint(k: nat, h1: nat, h2: nat, joint: Prefix) {
    && joint.Valid(k) && joint.Matches(h1) && joint.Matches(h2)
    && forall p: Prefix :: p.Valid(k) && p.Matches(h1) && p.Matches(h2) ==> joint.offset <= p.offset
  }

  lemma JointIs(k: nat, h1: nat, h2: nat, joint: Prefix)
    requires joint.Valid(k) && joint.Matches(h1) && joint.Matches(h2)
    requires forall p: Prefix :: p.Valid(k) && p.Matches(h1) && p.Matches(h2) ==> joint.offset <= p.offset
    ensures LongestJoint(k, h1, h2, joint)
  {
  }

  lemma RefinedFirst(k: nat, domain: Rect, bounds: Rect, joint: Prefix)
    requires joint.Valid(k) && bounds.Intersects(Area(k, domain, joint))
    ensures Refined(k, domain, bounds, joint, [joint])
  {
    hide Prefix.Valid, Rect.Intersects, PrefixRect, Prefix.Matches, Cells;
    forall h: nat | joint.Matches(h)
      ensures Covers([joint], h)
    {
      assert [joint][0].Matches(h);
    }
  }

  lemma NoHalves(k: nat, ps: seq<Prefix>)
    requires AllValid(k, ps) && Ascending(ps) && NoSiblings(k, ps, |ps|)
    ensures forall i | 1 <= i < |ps| :: !Halves(ps[i - 1], ps[i])
  {
    hide Prefix.Valid, Siblings, Halves, Prefix.End;
    forall i | 1 <= i < |ps|
      ensures !Halves(ps[i - 1], ps[i])
    {
      SiblingsAre(k, ps[i - 1], ps[i]);
    }
  }

  /** There are no more disjoint runs than positions. */
  lemma {:induction false} RunsFit(k: nat, ps: seq<Prefix>, i: nat)
    requires AllValid(k, ps) && Ascending(ps) && i < |ps|
    ensures i <= ps[i].value < Cells(k)
  {
    hide Cells;
    if i > 0 {
      RunsFit(k, ps, i - 1);
      assert ps[i - 1].End() <= ps[i].value;
    }
  }

  /** A stop size above the number of cells refines to single cells. */
  lemma CellsOnly(k: nat, domain: Rect, bounds: Rect, joint: Prefix, fine: seq<Prefix>, o: nat, cut: nat, stopSize: nat)
    requires Refined(k, domain, bounds, joint, fine) && 1 <= |fine| && stopSize > Cells(k)
    requires TwoOffsets(fine, o, cut) && Stops(joint, fine, o, cut, stopSize)
    ensures forall i | 0 <= i < |fine| :: fine[i].offset == 0
  {
    hide Cells;
    RunsFit(k, fine, |fine| - 1);
  }

  lemma CellsCovered(k: nat, domain: Rect, bounds: Rect, joint: Prefix, prefixes: seq<Prefix>, fine: seq<Prefix>)
    requires Refined(k, domain, bounds, joint, fine) && SameCover(prefixes, fine) && forall i | 0 <= i < |fine| :: fine[i].offset == 0
    ensures forall h: nat | h < Cells(k) :: Covers(prefixes, h) <==> joint.Matches(h) && bounds.Intersects(CellRect(k, domain, h))
  {
    hide PrefixRect, Rect.Intersects, Cells;
    forall h: nat | h < Cells(k)
      ensures Covers(fine, h) <==> joint.Matches(h) && bounds.Intersects(CellRect(k, domain, h))
    {
      if i :| 0 <= i < |fine| && fine[i].Matches(h) {
        assert fine[i] == Prefix(h, 0);
      }
    }
  }

  /** A cell that the box only touches from outside the joint prefix is not covered: the box is one point, the
      centre of the domain, which counts to the upper right cell, and the lower left cell touches it. */
  lemma TouchingIsNotCovered(joint: Prefix)
    requires var domain, box := Rect(Point(0.0, 0.0), Point(2.0, 2.0)), Rect(Point(1.0, 1.0), Point(1.0, 1.0));
      LongestJoint(1, Hash(1, domain, box.ll), Hash(1, domain, box.ur), joint)
    ensures var domain, box := Rect(Point(0.0, 0.0), Point(2.0, 2.0)), Rect(Point(1.0, 1.0), Point(1.0, 1.0));
      0 < Cells(1) && box.Intersects(CellRect(1, domain, 0)) && !joint.Matches(0)
  {
    var domain, box := Rect(Point(0.0, 0.0), Point(2.0, 2.0)), Rect(Point(1.0, 1.0), Point(1.0, 1.0));
    var h := Hash(1, domain, box.ll);
    assert domain.QuarterOf(box.ll) == QuadrantOf(true, true);
    assert h == Span(Rotate(Up, QuadrantOf(true, true)), Cells(0)) > 0;
    JointOfOne(1, h, joint);
    assert CellRect(1, domain, 0) == domain.Quarter(Rotate(Up, 0));
  }

  lemma JointOfOne(k: nat, h: nat, joint: Prefix)
    requires h < Cells(k)
    requires forall p: Prefix :: p.Valid(k) && p.Matches(h) ==> joint.offset <= p.offset
    ensures joint.offset == 0
  {
    assert Prefix(h, 0).Valid(k) && Prefix(h, 0).Matches(h);
  }

  /** Why `SearchPrefixes` asks for more than `ll <= ur`: for a box outside the domain whose corners
      fall into different cells, the first pass splits the joint prefix and keeps neither half.
      The list is then empty for good: the splitting loop stops only when `stopSize` is 0, and the
      recombining loop counts up to `size() - 1` of an empty vector. */
  lemma OutsideKeepsNothing(k: nat, domain: Rect, bounds: Rect, joint: Prefix)
    requires domain.Proper() && bounds.Proper() && !bounds.Intersects(domain) && joint.Valid(k)
    requires joint.Matches(Hash(k, domain, bounds.ll)) && joint.Matches(Hash(k, domain, bounds.ur))
    requires Hash(k, domain, bounds.ll) != Hash(k, domain, bounds.ur)
    ensures joint.offset > 0 && KeptHalves(k, domain, bounds, joint) == []
  {
    hide PrefixRect, Hash, MakePrefix, Cells;
    HalvesValid(k, joint);
    RectWithin(Up, k, LowHalf(joint).value, joint.offset - 1, domain);
    RectWithin(Up, k, HighHalf(joint).value, joint.offset - 1, domain);
  }
}
