/** The Hilbert curve of `k` iterations over a grid of 2^k by 2^k cells.

    `Encode` and `Decode` state what the curve is, by recursion on the quadrants; the methods
    `Hilbert` and `Unhilbert` are the loops of the source over the bits of a word. */
module HilbertCurve {
  import opened Bits

  datatype Rotation = Up | Right | Down | Left

  type Quadrant = q: nat | q < 4

  /** The quadrant that `rotation` puts in place of `quadrant`. */
  function Rotate(rotation: Rotation, quadrant: Quadrant): Quadrant {
    match rotation
    case Up => quadrant
    case Right => [2, 1, 0, 3][quadrant]
    case Down => [2, 3, 0, 1][quadrant]
    case Left => [0, 3, 2, 1][quadrant]
  }

  /** The rotation of the curve inside the given quadrant, counted along `rotation`. */
  function NewRotation(rotation: Rotation, quadrant: Quadrant): Rotation {
    if quadrant == 0 then
      match rotation
      case Up => Left
      case Right => Down
      case Down => Right
      case Left => Up
    else if quadrant == 3 then
      match rotation
      case Up => Right
      case Right => Up
      case Down => Left
      case Left => Down
    else
      rotation
  }

  /** Quadrants of the unrotated square: 0 top left, 1 bottom left, 2 bottom right, 3 top right. */
  function QuadrantOf(right: bool, top: bool): Quadrant {
    if right then (if top then 3 else 2) else (if top then 0 else 1)
  }

  predicate IsRight(quadrant: Quadrant) { quadrant >= 2 }

  predicate IsTop(quadrant: Quadrant) { quadrant == 0 || quadrant == 3 }

  lemma RotateSelfInverse(rotation: Rotation, quadrant: Quadrant)
    ensures Rotate(rotation, Rotate(rotation, quadrant)) == quadrant
  {
  }

  type Cell = (nat, nat)

  predicate InGrid(k: nat, c: Cell) {
    c.0 < Pow2(k) && c.1 < Pow2(k)
  }

  /** The number of cells of a k-iteration curve. */
  function Cells(k: nat): (r: nat)
    ensures r >= 1
  {
    if k == 0 then 1 else 4 * Cells(k - 1)
  }

  lemma {:induction false} CellsIsPow2(k: nat)
    ensures Cells(k) == Pow2(2 * k)
  {
    if k > 0 {
      CellsIsPow2(k - 1);
      assert Pow2(2 * k) == 2 * Pow2(2 * k - 1) == 4 * Pow2(2 * (k - 1));
    }
  }

  /** The length of `q` quadrants of `w` cells. */
  function Span(q: Quadrant, w: nat): nat {
    if q == 0 then 0 else if q == 1 then w else if q == 2 then 2 * w else 3 * w
  }

  function Below(v: nat, half: nat): nat {
    if v >= half then v - half else v
  }

  function Above(v: nat, upper: bool, half: nat): nat {
    if upper then v + half else v
  }

  /** Where a cell of quadrant `u` lies in the whole square. */
  function Place(u: Quadrant, half: nat, c: Cell): Cell {
    (Above(c.0, IsRight(u), half), Above(c.1, IsTop(u), half))
  }

  /** The distance down a curve entered with `rotation` at which cell `(x, y)` lies. */
  function Encode(rotation: Rotation, k: nat, x: nat, y: nat): (d: nat)
    requires InGrid(k, (x, y))
    ensures d < Cells(k)
    decreases k
  {
    if k == 0 then 0 else
      var half := Pow2(k - 1);
      var q := Rotate(rotation, QuadrantOf(x >= half, y >= half));
      Span(q, Cells(k - 1)) + Encode(NewRotation(rotation, q), k - 1, Below(x, half), Below(y, half))
  }

  /** The cell at distance `d` down a curve entered with `rotation`. */
  function Decode(rotation: Rotation, k: nat, d: nat): (c: Cell)
    requires d < Cells(k)
    ensures InGrid(k, c)
    decreases k
  {
    if k == 0 then (0, 0) else
      var half := Pow2(k - 1);
      var q := LeadingQuadrant(k, d);
      var u := Rotate(rotation, q);
      Place(u, half, Decode(NewRotation(rotation, q), k - 1, Within(k, d)))
  }

  /** The leading quadrant of a curve position, and the position within that quadrant. */
  function LeadingQuadrant(k: nat, d: nat): (q: Quadrant)
    requires k > 0 && d < Cells(k)
    ensures Span(q, Cells(k - 1)) <= d < Span(q, Cells(k - 1)) + Cells(k - 1)
  {
    var w := Cells(k - 1);
    if d < w then 0 else if d < 2 * w then 1 else if d < 3 * w then 2 else 3
  }

  function Within(k: nat, d: nat): (r: nat)
    requires k > 0 && d < Cells(k)
    ensures r < Cells(k - 1)
  {
    d - Span(LeadingQuadrant(k, d), Cells(k - 1))
  }

  /** The rotation at every level on the way to position `d`, the most detailed level first. */
  function Rotations(rotation: Rotation, k: nat, d: nat): (r: seq<Rotation>)
    requires d < Cells(k)
    ensures |r| == k
    decreases k
  {
    if k == 0 then [] else
      Rotations(NewRotation(rotation, LeadingQuadrant(k, d)), k - 1, Within(k, d)) + [rotation]
  }

  /** A position is determined by its leading quadrant and the position within it. */
  lemma SpanUnique(k: nat, q: Quadrant, rest: nat)
    requires k > 0 && rest < Cells(k - 1)
    ensures Span(q, Cells(k - 1)) + rest < Cells(k)
    ensures LeadingQuadrant(k, Span(q, Cells(k - 1)) + rest) == q
    ensures Within(k, Span(q, Cells(k - 1)) + rest) == rest
  {
  }

  lemma DecodeZero(rotation: Rotation)
    ensures Decode(rotation, 0, 0) == (0, 0)
  {
  }

  lemma DecodeAt(rotation: Rotation, k: nat, q: Quadrant, rest: nat)
    requires k > 0 && rest < Cells(k - 1)
    ensures Span(q, Cells(k - 1)) + rest < Cells(k)
    ensures Decode(rotation, k, Span(q, Cells(k - 1)) + rest)
         == Place(Rotate(rotation, q), Pow2(k - 1), Decode(NewRotation(rotation, q), k - 1, rest))
  {
    SpanUnique(k, q, rest);
  }

  lemma {:induction false} DecodeEncode(rotation: Rotation, k: nat, x: nat, y: nat)
    requires InGrid(k, (x, y))
    ensures Decode(rotation, k, Encode(rotation, k, x, y)) == (x, y)
    decreases k
  {
    hide Rotate, NewRotation, Place, Span, Cells, Below;
    if k > 0 {
      var half := Pow2(k - 1);
      var u := QuadrantOf(x >= half, y >= half);
      var q := Rotate(rotation, u);
      BelowInGrid(k, x, y);
      DecodeEncode(NewRotation(rotation, q), k - 1, Below(x, half), Below(y, half));
      DecodeAt(rotation, k, q, Encode(NewRotation(rotation, q), k - 1, Below(x, half), Below(y, half)));
      RotateSelfInverse(rotation, u);
    }
  }

  lemma BelowInGrid(k: nat, x: nat, y: nat)
    requires k > 0 && InGrid(k, (x, y))
    ensures var half := Pow2(k - 1);
      && InGrid(k - 1, (Below(x, half), Below(y, half)))
      && Place(QuadrantOf(x >= half, y >= half), half, (Below(x, half), Below(y, half))) == (x, y)
  {
  }

  lemma {:induction false} EncodeDecode(rotation: Rotation, k: nat, d: nat)
    requires d < Cells(k)
    ensures var c := Decode(rotation, k, d); Encode(rotation, k, c.0, c.1) == d
    decreases k
  {
    hide Rotate, NewRotation, Cells, Place, Below, LeadingQuadrant, Within, Pow2;
    if k == 0 {
      OneCell(d);
    } else {
      var q := LeadingQuadrant(k, d);
      var c := Decode(NewRotation(rotation, q), k - 1, Within(k, d));
      EncodeDecode(NewRotation(rotation, q), k - 1, Within(k, d));
      RotateSelfInverse(rotation, q);
      PlaceBelow(k, Rotate(rotation, q), c);
      WithinIs(k, d);
    }
  }

  lemma OneCell(d: nat)
    requires d < Cells(0)
    ensures d == 0
  {
  }

  lemma WithinIs(k: nat, d: nat)
    requires k > 0 && d < Cells(k)
    ensures d == Span(LeadingQuadrant(k, d), Cells(k - 1)) + Within(k, d)
  {
  }

  lemma PlaceBelow(k: nat, u: Quadrant, c: Cell)
    requires k > 0 && InGrid(k - 1, c)
    ensures var half := Pow2(k - 1); var (x, y) := Place(u, half, c);
      QuadrantOf(x >= half, y >= half) == u && Below(x, half) == c.0 && Below(y, half) == c.1
  {
  }

  /** Two cells that share an edge: they differ by exactly 1 in exactly one coordinate. */
  predicate Adjacent(a: Cell, b: Cell) {
    || (a.0 == b.0 && (a.1 == b.1 + 1 || b.1 == a.1 + 1))
    || (a.1 == b.1 && (a.0 == b.0 + 1 || b.0 == a.0 + 1))
  }

  function Corner(k: nat, right: bool, top: bool): Cell {
    (if right then Pow2(k) - 1 else 0, if top then Pow2(k) - 1 else 0)
  }

  /** The corner cells at which each rotation's curve starts and ends. */
  function Entry(rotation: Rotation, k: nat): Cell {
    match rotation
    case Up | Left => Corner(k, false, true)
    case Right | Down => Corner(k, true, false)
  }

  function Exit(rotation: Rotation, k: nat): Cell {
    match rotation
    case Up | Right => Corner(k, true, true)
    case Down | Left => Corner(k, false, false)
  }

  lemma {:induction false} CurveEnds(rotation: Rotation, k: nat)
    ensures Decode(rotation, k, 0) == Entry(rotation, k)
    ensures Decode(rotation, k, Cells(k) - 1) == Exit(rotation, k)
    decreases k
  {
    hide Decode;
    if k == 0 {
      assert Decode(rotation, 0, 0) == (0, 0) by { DecodeZero(rotation); }
    }
    if k > 0 {
      CurveEnds(NewRotation(rotation, 0), k - 1);
      CurveEnds(NewRotation(rotation, 3), k - 1);
      DecodeAt(rotation, k, 0, 0);
      DecodeAt(rotation, k, 3, Cells(k - 1) - 1);
    }
  }

  /** Where the curve leaves one quadrant it enters the next one in a neighbouring cell. */
  lemma CornersMeet(rotation: Rotation, q: Quadrant, k: nat)
    requires q < 3
    ensures Adjacent(Place(Rotate(rotation, q), Pow2(k), Exit(NewRotation(rotation, q), k)),
                     Place(Rotate(rotation, q + 1), Pow2(k), Entry(NewRotation(rotation, q + 1), k)))
  {
    match rotation {
      case Up => CornersMeetAt(Up, q, k);
      case Right => CornersMeetAt(Right, q, k);
      case Down => CornersMeetAt(Down, q, k);
      case Left => CornersMeetAt(Left, q, k);
    }
  }

  lemma CornersMeetAt(rotation: Rotation, q: Quadrant, k: nat)
    requires q < 3
    ensures Adjacent(Place(Rotate(rotation, q), Pow2(k), Exit(NewRotation(rotation, q), k)),
                     Place(Rotate(rotation, q + 1), Pow2(k), Entry(NewRotation(rotation, q + 1), k)))
  {
    hide Pow2;
  }

  lemma PlaceAdjacent(u: Quadrant, half: nat, a: Cell, b: Cell)
    ensures Adjacent(a, b) ==> Adjacent(Place(u, half, a), Place(u, half, b))
  {
  }

  /** Continuity: one step along the curve is one step to a neighbouring cell. */
  lemma {:induction false} Continuity(rotation: Rotation, k: nat, d: nat)
    requires d + 1 < Cells(k)
    ensures Adjacent(Decode(rotation, k, d), Decode(rotation, k, d + 1))
    decreases k
  {
    hide Decode, Place, Rotate, NewRotation, Entry, Exit, Adjacent;
    if k > 0 {
      var q, rest := LeadingQuadrant(k, d), Within(k, d);
      DecodeAt(rotation, k, q, rest);
      if rest + 1 < Cells(k - 1) {
        DecodeAt(rotation, k, q, rest + 1);
        Continuity(NewRotation(rotation, q), k - 1, rest);
        PlaceAdjacent(Rotate(rotation, q), Pow2(k - 1),
                      Decode(NewRotation(rotation, q), k - 1, rest), Decode(NewRotation(rotation, q), k - 1, rest + 1));
      } else {
        DecodeAt(rotation, k, q + 1, 0);
        CurveEnds(NewRotation(rotation, q), k - 1);
        CurveEnds(NewRotation(rotation, q + 1), k - 1);
        CornersMeet(rotation, q, k - 1);
      }
    }
  }

  // ---- The loops of the source -------------------------------------------------------------

  /** The low `m` bits of `v`. */
  function Low(v: nat, m: nat): (r: nat)
    ensures r < Pow2(m)
  {
    v % Pow2(m)
  }

  function ShiftLeft(v: nat, n: nat): nat {
    v * Pow2(n)
  }

  lemma LowStep(v: nat, i: nat)
    ensures TestBit(v, i) <==> Low(v, i + 1) >= Pow2(i)
    ensures Below(Low(v, i + 1), Pow2(i)) == Low(v, i)
  {
    AndBit(v, i);
    ModHigh(v, i);
    var b := (v / Pow2(i)) % 2;
    assert b == 0 || b == 1;
  }

  lemma LowAll(v: nat, m: nat)
    requires v < Pow2(m)
    ensures Low(v, m) == v
  {
    SmallMod(v, Pow2(m));
  }

  /** A word clear below bit `m + 1` stays clear below bit `m` when bit `m` is added. */
  lemma ClearBelow(v: nat, m: nat)
    requires Low(v, m + 1) == 0
    ensures Low(v, m) == 0 && Low(v + Pow2(m), m) == 0
    ensures Or(v, Pow2(m)) == v + Pow2(m)
  {
    LowStep(v, m);
    AddOnce(v, Pow2(m));
    OrDisjoint(v, Pow2(m), m + 1);
  }

  lemma AddOnce(v: nat, p: nat)
    requires p > 0 && v % p == 0
    ensures (v + p) % p == 0
  {
    assert v == (v / p) * p;
    assert v + p == (v / p + 1) * p;
    DivModUnique(v + p, p, v / p + 1, 0);
  }

  /** `result |= digit << 2i` adds the digit when `result` is clear below bit `2i + 2`. */
  lemma AddDigit(result: nat, digit: Quadrant, i: nat)
    requires Low(result, 2 * (i + 1)) == 0
    ensures Or(result, ShiftLeft(digit, 2 * i)) == result + Span(digit, Cells(i))
    ensures Low(result + Span(digit, Cells(i)), 2 * i) == 0
  {
    hide Or, Cells;
    var p := Pow2(2 * i);
    CellsIsPow2(i);
    assert ShiftLeft(digit, 2 * i) == Span(digit, p) < 4 * p == Pow2(2 * (i + 1));
    assert Or(result, Span(digit, p)) == result + Span(digit, p) by {
      assert result % Pow2(2 * (i + 1)) == 0;
      OrDisjoint(result, Span(digit, p), 2 * (i + 1));
    }
    ClearBelow(result, 2 * i + 1);
    ClearBelow(result, 2 * i);
    AddOnce(result, p);
    AddOnce(result + p, p);
    AddOnce(result + 2 * p, p);
  }

  /** One turn of the `Hilbert` loop: bits `i` of both coordinates give the leading quadrant. */
  lemma EncodeStep(rotation: Rotation, i: nat, x: nat, y: nat)
    ensures
      var rotated := Rotate(rotation, QuadrantOf(TestBit(x, i), TestBit(y, i)));
      var e := Encode(rotation, i + 1, Low(x, i + 1), Low(y, i + 1));
      var rest := Encode(NewRotation(rotation, rotated), i, Low(x, i), Low(y, i));
      && e == Span(rotated, Cells(i)) + rest
      && Rotations(rotation, i + 1, e) == Rotations(NewRotation(rotation, rotated), i, rest) + [rotation]
  {
    hide Low, TestBit, Rotate, NewRotation, Cells, Pow2, Rotations, Span;
    LowStep(x, i);
    LowStep(y, i);
    var rotated := Rotate(rotation, QuadrantOf(TestBit(x, i), TestBit(y, i)));
    RotationsMore(rotation, i + 1, rotated, Encode(NewRotation(rotation, rotated), i, Low(x, i), Low(y, i)));
  }

  lemma RotationsMore(rotation: Rotation, k: nat, q: Quadrant, rest: nat)
    requires k > 0 && rest < Cells(k - 1)
    ensures var d := Span(q, Cells(k - 1)) + rest;
      d < Cells(k) && Rotations(rotation, k, d) == Rotations(NewRotation(rotation, q), k - 1, rest) + [rotation]
  {
    hide NewRotation, Cells, Span, LeadingQuadrant, Within;
    SpanUnique(k, q, rest);
  }

  /** From a cell to its curve position, one bit of each coordinate at a time.
      `rotations[i]` is the rotation in force when bit `i` was read. */
  method Hilbert(k: nat, x: nat, y: nat) returns (result: nat, rotations: seq<Rotation>)
    requires InGrid(k, (x, y))
    ensures result == Encode(Up, k, x, y)
    ensures rotations == Rotations(Up, k, result)
  {
    hide Low, TestBit, Rotate, NewRotation, Cells, Encode, Rotations, Or, Span;
    result := 0;
    rotations := seq(k, _ => Up);
    var rotation := Up;
    var i: int := k - 1;
    LowAll(x, k);
    LowAll(y, k);
    ZeroLow(2 * k);
    while i >= 0
      invariant -1 <= i < k && |rotations| == k
      invariant Low(result, 2 * (i + 1)) == 0
      invariant result + Encode(rotation, i + 1, Low(x, i + 1), Low(y, i + 1)) == Encode(Up, k, x, y)
      invariant Rotations(Up, k, Encode(Up, k, x, y))
             == Rotations(rotation, i + 1, Encode(rotation, i + 1, Low(x, i + 1), Low(y, i + 1))) + rotations[i + 1..]
    {
      var quadrant := QuadrantOf(TestBit(x, i), TestBit(y, i));
      rotations := rotations[i := rotation];
      var rotated := Rotate(rotation, quadrant);
      EncodeStep(rotation, i, x, y);
      AddDigit(result, rotated, i);
      assert [rotation] + rotations[i + 1..] == rotations[i..];
      rotation := NewRotation(rotation, rotated);
      result := Or(result, ShiftLeft(rotated, 2 * i));
      i := i - 1;
    }
    NothingLeft(rotation, Low(x, 0), Low(y, 0));
  }

  lemma ZeroLow(m: nat)
    ensures Low(0, m) == 0
  {
  }

  lemma NothingLeft(rotation: Rotation, x: nat, y: nat)
    requires InGrid(0, (x, y))
    ensures Encode(rotation, 0, x, y) == 0 && Rotations(rotation, 0, 0) == []
  {
  }

  /** `(d & (3 << 2i)) >> 2i` is the leading quadrant of the low `2i + 2` bits of `d`. */
  lemma DigitAt(d: nat, i: nat)
    ensures Low(d, 2 * (i + 1)) < Cells(i + 1)
    ensures And(d, ShiftLeft(3, 2 * i)) / Pow2(2 * i) == LeadingQuadrant(i + 1, Low(d, 2 * (i + 1)))
    ensures Within(i + 1, Low(d, 2 * (i + 1))) == Low(d, 2 * i)
  {
    hide Low, And, TestBit, Cells, LeadingQuadrant, Within;
    CellsIsPow2(i);
    CellsIsPow2(i + 1);
    AndDigit(d, 2 * i);
    AndBit(d, 2 * i);
    AndBit(d, 2 * i + 1);
    LowStep(d, 2 * i);
    LowStep(d, 2 * i + 1);
    var lo, hi := (d / Pow2(2 * i)) % 2, (d / Pow2(2 * i + 1)) % 2;
    var q: Quadrant := 2 * hi + lo;
    SpanUnique(i + 1, q, Low(d, 2 * i));
    DivModUnique(q * Pow2(2 * i), Pow2(2 * i), q, 0);
  }

  lemma {:induction false} AndDigit(d: nat, m: nat)
    ensures And(d, ShiftLeft(3, m)) == (2 * ((d / Pow2(m + 1)) % 2) + (d / Pow2(m)) % 2) * Pow2(m)
  {
    hide And;
    if m == 0 {
      AndLowMask(d, 2);
      DivModLow(d, 1);
      DivModLow(d, 2);
      DivModLow(d / 2, 1);
    } else {
      AndDigit(d / 2, m - 1);
      DivModLow(d, m);
      DivModLow(d, m + 1);
      AndDouble(d, ShiftLeft(3, m - 1));
      DoubleProduct(2 * ((d / Pow2(m + 1)) % 2) + (d / Pow2(m)) % 2, Pow2(m - 1));
    }
  }

  lemma DoubleProduct(digit: nat, p: nat)
    ensures 2 * (digit * p) == digit * (2 * p)
  {
  }

  /** One turn of the `Unhilbert` loop. */
  lemma DecodeStep(rotation: Rotation, i: nat, d: nat)
    ensures Low(d, 2 * (i + 1)) < Cells(i + 1) && Low(d, 2 * i) < Cells(i)
    ensures
      var q := LeadingQuadrant(i + 1, Low(d, 2 * (i + 1)));
      && Decode(rotation, i + 1, Low(d, 2 * (i + 1)))
         == Place(Rotate(rotation, q), Pow2(i), Decode(NewRotation(rotation, q), i, Low(d, 2 * i)))
      && Rotations(rotation, i + 1, Low(d, 2 * (i + 1)))
         == Rotations(NewRotation(rotation, q), i, Low(d, 2 * i)) + [rotation]
  {
    DigitAt(d, i);
    CellsIsPow2(i);
  }

  lemma NothingToDecode(rotation: Rotation, d: nat)
    requires d < Cells(0)
    ensures Decode(rotation, 0, d) == (0, 0) && Rotations(rotation, 0, d) == []
  {
  }

  /** From a curve position to its cell. */
  method Unhilbert(k: nat, d: nat) returns (x: nat, y: nat, rotations: seq<Rotation>)
    requires d < Cells(k)
    ensures (x, y) == Decode(Up, k, d)
    ensures rotations == Rotations(Up, k, d)
  {
    hide Low, Rotate, NewRotation, Cells, And, Or, LeadingQuadrant, Within, TestBit, Decode, Rotations;
    x, y := 0, 0;
    rotations := seq(k, _ => Up);
    var rotation := Up;
    var i: int := k - 1;
    CellsIsPow2(k);
    LowAll(d, 2 * k);
    ZeroLow(k);
    while i >= 0
      invariant -1 <= i < k && |rotations| == k
      invariant Low(d, 2 * (i + 1)) < Cells(i + 1)
      invariant Low(x, i + 1) == 0 && Low(y, i + 1) == 0
      invariant
        var c := Decode(rotation, i + 1, Low(d, 2 * (i + 1)));
        (x + c.0, y + c.1) == Decode(Up, k, d)
      invariant Rotations(Up, k, d) == Rotations(rotation, i + 1, Low(d, 2 * (i + 1))) + rotations[i + 1..]
    {
      rotations := rotations[i := rotation];
      assert [rotation] + rotations[i + 1..] == rotations[i..];
      DigitAt(d, i);
      DecodeStep(rotation, i, d);
      var quadrant: Quadrant := And(d, ShiftLeft(3, 2 * i)) / Pow2(2 * i);
      var unrotated := Rotate(rotation, quadrant);
      rotation := NewRotation(rotation, quadrant);
      ClearBelow(x, i);
      ClearBelow(y, i);
      match unrotated {
        case 0 => y := Or(y, Pow2(i));
        case 1 =>
        case 2 => x := Or(x, Pow2(i));
        case 3 => x, y := Or(x, Pow2(i)), Or(y, Pow2(i));
      }
      i := i - 1;
    }
    NothingToDecode(rotation, Low(d, 0));
  }
}
