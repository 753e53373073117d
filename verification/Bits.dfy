/** Powers of two and the bitwise operators of the source, on natural numbers.

    The source works on unsigned machine words.  Here a word is a `nat`, `&` and `|` are
    defined bit by bit, and the lemmas turn the masks the source uses into `/` and `%`. */
module Bits {

  function Pow2(k: nat): (r: nat)
    ensures r >= 1
  {
    if k == 0 then 1 else 2 * Pow2(k - 1)
  }

  function And(a: nat, b: nat): nat
  {
    if a == 0 || b == 0 then 0 else (a % 2) * (b % 2) + 2 * And(a / 2, b / 2)
  }

  function Or(a: nat, b: nat): nat
  {
    if a == 0 then b
    else if b == 0 then a
    else (if a % 2 == 1 || b % 2 == 1 then 1 else 0) + 2 * Or(a / 2, b / 2)
  }

  /** `a & (1 << i)`, as a truth value. */
  predicate TestBit(a: nat, i: nat) {
    And(a, Pow2(i)) != 0
  }

  /** The mask `0xff..ff << offset` within a word of `width` bits. */
  function HighMask(width: nat, offset: nat): nat
    requires offset <= width
  {
    Pow2Monotone(offset, width);
    Pow2(width) - Pow2(offset)
  }

  lemma {:induction false} Pow2Monotone(a: nat, b: nat)
    requires a <= b
    ensures Pow2(a) <= Pow2(b)
  {
    if a < b {
      Pow2Monotone(a, b - 1);
    }
  }

  lemma {:induction false} Pow2Strict(a: nat, b: nat)
    requires a < b
    ensures Pow2(a) < Pow2(b)
  {
    Pow2Monotone(a, b - 1);
  }

  lemma {:induction false} Pow2Add(a: nat, b: nat)
    ensures Pow2(a + b) == Pow2(a) * Pow2(b)
  {
    if a > 0 {
      Pow2Add(a - 1, b);
      assert Pow2(a + b) == 2 * Pow2(a - 1 + b);
      assert 2 * (Pow2(a - 1) * Pow2(b)) == Pow2(a) * Pow2(b);
    }
  }

  lemma MulGap(e: int, d: int)
    requires d > 0
    ensures e >= 1 ==> e * d >= d
    ensures e <= -1 ==> e * d <= -d
  {
  }

  lemma DivModUnique(a: int, d: int, q: int, r: int)
    requires d > 0 && a == q * d + r && 0 <= r < d
    ensures a / d == q && a % d == r
  {
    var e := a / d - q;
    assert a == (a / d) * d + a % d;
    assert e * d == (a / d) * d - q * d;
    assert e * d == r - a % d;
    MulGap(e, d);
  }

  /** Peeling the low bit off a division by a power of two. */
  lemma DivModLow(a: nat, m: nat)
    requires m > 0
    ensures a % Pow2(m) == a % 2 + 2 * ((a / 2) % Pow2(m - 1))
    ensures a / Pow2(m) == (a / 2) / Pow2(m - 1)
  {
    var p := Pow2(m - 1);
    var q, r := (a / 2) / p, (a / 2) % p;
    assert a / 2 == q * p + r;
    assert 2 * (q * p) == q * (2 * p);
    DivModUnique(a, 2 * p, q, a % 2 + 2 * r);
  }

  /** Peeling the high bit: the bits below `m + 1` are bit `m` and the bits below `m`. */
  lemma ModHigh(a: nat, m: nat)
    ensures a / Pow2(m + 1) == (a / Pow2(m)) / 2
    ensures a % Pow2(m + 1) == ((a / Pow2(m)) % 2) * Pow2(m) + a % Pow2(m)
  {
    var p := Pow2(m);
    var q, r := a / p, a % p;
    assert a == q * p + r;
    assert q == 2 * (q / 2) + q % 2;
    assert q * p == (q / 2) * (2 * p) + (q % 2) * p by {
      assert (2 * (q / 2)) * p == (q / 2) * (2 * p);
      assert (2 * (q / 2) + q % 2) * p == (2 * (q / 2)) * p + (q % 2) * p;
    }
    assert 0 <= (q % 2) * p <= p;
    DivModUnique(a, 2 * p, q / 2, (q % 2) * p + r);
  }

  /** `a & ((1 << m) - 1)` keeps the low `m` bits. */
  lemma {:induction false} AndLowMask(a: nat, m: nat)
    ensures And(a, Pow2(m) - 1) == a % Pow2(m)
  {
    if m == 0 {
    } else {
      var b := Pow2(m) - 1;
      assert b % 2 == 1 && b / 2 == Pow2(m - 1) - 1;
      DivModLow(a, m);
      AndLowMask(a / 2, m - 1);
      if a != 0 && b / 2 == 0 {
        assert And(a / 2, 0) == 0;
      }
    }
  }

  /** `a & (1 << i)` isolates bit `i`. */
  lemma {:induction false} AndBit(a: nat, i: nat)
    ensures And(a, Pow2(i)) == ((a / Pow2(i)) % 2) * Pow2(i)
    ensures TestBit(a, i) <==> (a / Pow2(i)) % 2 == 1
  {
    if i == 0 {
      assert And(a / 2, 0) == 0;
    } else {
      AndBit(a / 2, i - 1);
      DivModLow(a, i);
      var t := (a / Pow2(i)) % 2;
      assert t == 0 || t == 1;
    }
  }

  /** `a & (0xff..ff << o)` clears the low `o` bits. */
  lemma {:induction false} AndHighMask(a: nat, width: nat, o: nat)
    requires o <= width && a < Pow2(width)
    ensures And(a, HighMask(width, o)) == a - a % Pow2(o)
  {
    if o == width {
      SmallMod(a, Pow2(o));
    } else if o == 0 {
      AndLowMask(a, width);
      SmallMod(a, Pow2(width));
    } else {
      AndHighMask(a / 2, width - 1, o - 1);
      DivModLow(a, o);
      Pow2Strict(o - 1, width - 1);
      AndDouble(a, HighMask(width - 1, o - 1));
    }
  }

  lemma SmallMod(a: nat, d: nat)
    requires a < d
    ensures a % d == a
  {
  }

  /** An even mask acts on the halved word. */
  lemma AndDouble(a: nat, half: nat)
    ensures And(a, 2 * half) == 2 * And(a / 2, half)
  {
    if a != 0 && half != 0 {
      assert (2 * half) % 2 == 0 && (2 * half) / 2 == half;
    }
  }

  /** Or-ing bits into cleared positions adds them. */
  lemma {:induction false} OrDisjoint(a: nat, b: nat, m: nat)
    requires a % Pow2(m) == 0 && b < Pow2(m)
    ensures Or(a, b) == a + b
  {
    if m > 0 {
      DivModLow(a, m);
      OrDisjoint(a / 2, b / 2, m - 1);
    }
  }
}
