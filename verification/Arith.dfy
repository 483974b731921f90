/** Powers of two, bits, and division with remainder where the divisor is not a literal. */
module Arith {

  function Pow2(n: nat): (p: nat)
    ensures p > 0
  {
    if n == 0 then 1 else 2 * Pow2(n - 1)
  }

  /** Bit i of m, counted from the lowest. */
  predicate BitAt(m: nat, i: nat) {
    if i == 0 then m % 2 == 1 else BitAt(m / 2, i - 1)
  }

  lemma {:induction false} NoBits(i: nat)
    ensures !BitAt(0, i)
  {
    if i > 0 {
      NoBits(i - 1);
    }
  }

  /** Numbers with the same bits are the same. */
  lemma {:induction false} SameBits(a: nat, b: nat)
    requires forall i: nat :: BitAt(a, i) <==> BitAt(b, i)
    ensures a == b
    decreases a + b
  {
    assert BitAt(a, 0) <==> BitAt(b, 0);
    if a + b > 0 {
      forall i: nat ensures BitAt(a / 2, i) <==> BitAt(b / 2, i) {
        assert BitAt(a, i + 1) <==> BitAt(b, i + 1);
      }
      SameBits(a / 2, b / 2);
    }
  }

  /** a & b. */
  function And(a: nat, b: nat): nat {
    if a == 0 || b == 0 then 0 else 2 * And(a / 2, b / 2) + a % 2 * (b % 2)
  }

  /** Its bits are those that both have. */
  lemma {:induction false} AndBits(a: nat, b: nat, i: nat)
    ensures BitAt(And(a, b), i) <==> BitAt(a, i) && BitAt(b, i)
    decreases i
  {
    if a == 0 || b == 0 {
      NoBits(i);
    } else if i > 0 {
      AndBits(a / 2, b / 2, i - 1);
    }
  }

  /** Two numbers have the same bits wherever the mask has one. */
  ghost predicate SameWhere(a: nat, b: nat, mask: nat) {
    forall i: nat | BitAt(mask, i) :: BitAt(a, i) <==> BitAt(b, i)
  }

  lemma AndAgrees(a: nat, b: nat, mask: nat)
    ensures And(a, mask) == And(b, mask) <==> SameWhere(a, b, mask)
  {
    if And(a, mask) == And(b, mask) {
      forall i: nat | BitAt(mask, i) ensures BitAt(a, i) <==> BitAt(b, i) {
        AndBits(a, mask, i);
        AndBits(b, mask, i);
      }
    } else if SameWhere(a, b, mask) {
      forall i: nat ensures BitAt(And(a, mask), i) <==> BitAt(And(b, mask), i) {
        AndBits(a, mask, i);
        AndBits(b, mask, i);
      }
      SameBits(And(a, mask), And(b, mask));
    }
  }

  /** a | b. */
  function Or(a: nat, b: nat): nat {
    if a == 0 then b else if b == 0 then a
    else 2 * Or(a / 2, b / 2) + if a % 2 == 1 || b % 2 == 1 then 1 else 0
  }

  /** Its bits are those that one of them has. */
  lemma {:induction false} OrBits(a: nat, b: nat, i: nat)
    ensures BitAt(Or(a, b), i) <==> BitAt(a, i) || BitAt(b, i)
    decreases i
  {
    if a == 0 || b == 0 {
      NoBits(i);
    } else if i > 0 {
      OrBits(a / 2, b / 2, i - 1);
    }
  }

  function Min(a: nat, b: nat): nat {
    if a < b then a else b
  }

  lemma ModUnique(x: int, m: int, q: int, r: int)
    requires m > 0 && 0 <= r < m && x == m * q + r
    ensures x % m == r && x / m == q
  {
    var q', r' := x / m, x % m;
    assert x == m * q' + r';
    var d := q - q';
    Distribute(m, q, q');
    assert m * d == r' - r;
    if d >= 1 {
      AtLeastOnce(m, d);
    } else if d <= -1 {
      AtLeastOnce(m, -d);
    }
  }

  lemma Distribute(m: int, q: int, q': int)
    ensures m * (q - q') == m * q - m * q'
  {
  }

  lemma AtLeastOnce(m: int, d: int)
    requires m > 0 && d >= 1
    ensures m * d >= m
  {
  }

  lemma Multiple(m: int, k: int)
    requires m > 0
    ensures (m * k) % m == 0 && (m * k) / m == k
  {
    ModUnique(m * k, m, k, 0);
  }

  /** Dividing by a product is dividing twice, and the remainder has the digits of both. */
  lemma ModProduct(x: nat, m: nat, p: nat)
    requires m > 0 && p > 0
    ensures m * p > 0
    ensures x % (m * p) == x % m + m * ((x / m) % p)
    ensures x / (m * p) == (x / m) / p
  {
    AtLeastOnce(m, p);
    var q, r := x / m, x % m;
    var a, b := q / p, q % p;
    assert q == p * a + b;
    assert x == m * q + r;
    var low := r + m * b;
    assert x == (m * p) * a + low by {
      assert m * (p * a + b) == m * (p * a) + m * b;
      assert m * (p * a) == (m * p) * a;
    }
    assert 0 <= low < m * p by {
      LessThanMultiple(m, b, p, r);
    }
    ModUnique(x, m * p, a, low);
  }

  lemma LessThanMultiple(m: int, b: int, p: int, r: int)
    requires m > 0 && 0 <= b < p && 0 <= r < m
    ensures 0 <= r + m * b < m * p
  {
    assert m * b + m <= m * p by {
      Distribute(m, p, b);
      AtLeastOnce(m, p - b);
    }
    assert m * b >= 0;
  }

  lemma DivMod(x: nat, d: nat)
    requires d > 0
    ensures x == d * (x / d) + x % d
  {
  }

  /** Numbers a divisor apart have different quotients. */
  lemma QuotientLess(x: nat, y: nat, d: nat)
    requires d > 0 && x + d <= y
    ensures 0 <= x / d < y / d
  {
    var a, b := x / d, y / d;
    DivMod(x, d);
    DivMod(y, d);
    if a > b {
      AtLeastOnce(d, a - b);
      Distribute(d, a, b);
    }
  }
}
