// Why RSA inverts: Fermat's little theorem by the binomial theorem, and its consequence for a product of
// two primes.

module Fermat {
  import opened Limbs

  ghost predicate Prime(p: nat) {
    p >= 2 && forall k :: 2 <= k < p ==> p % k != 0
  }

  /** p divides x. */
  ghost predicate Multiple(x: int, p: int) {
    Congruent(x, 0, p)
  }

  lemma MultipleBy(x: int, p: int, k: int)
    requires x == k * p
    ensures Multiple(x, p)
  {
    CongruentBy(x, 0, p, k);
  }

  lemma MultipleScale(x: int, c: int, p: int)
    requires Multiple(x, p)
    ensures Multiple(c * x, p)
  {
    CongruentScale(x, 0, c, p);
  }

  /** A prime that divides a * b and is larger than a > 0 divides b. */
  lemma {:induction false} EuclidBelow(p: nat, a: nat, b: int)
    requires Prime(p) && 0 < a < p && Multiple(a * b, p)
    ensures Multiple(b, p)
    decreases a
  {
    if a > 1 {
      var q, s := p / a, p % a;
      var k :| a * b == 0 + Times(k, p);
      assert s * b == (b - q * k) * p by {
        MulSub(p, q * a, b);
        MulAssoc(q, a, b);
        MulAssoc(q, k, p);
        MulSub(b, q * k, p);
        assert s == p - q * a;
      }
      MultipleBy(s * b, p, b - q * k);
      EuclidBelow(p, s, b);
    }
  }

  /** A prime that divides a product divides a factor. */
  lemma Euclid(p: nat, a: int, b: int)
    requires Prime(p) && Multiple(a * b, p)
    ensures Multiple(a, p) || Multiple(b, p)
  {
    RemainderCongruent(a, p);
    var r := a % p;
    if r == 0 {
      CongruentSym(0, a, p);
    } else {
      CongruentScale(r, a, b, p);
      assert b * r == r * b && b * a == a * b;
      CongruentTrans(r * b, a * b, 0, p);
      EuclidBelow(p, r, b);
    }
  }

  // ---- Binomial coefficients

  function Choose(n: nat, k: nat): nat {
    if k == 0 then 1 else if n == 0 then 0 else Choose(n - 1, k - 1) + Choose(n - 1, k)
  }

  lemma {:induction false} ChooseEnds(n: nat, k: nat)
    ensures k > n ==> Choose(n, k) == 0
    ensures Choose(n, n) == 1
  {
    if n > 0 {
      ChooseEnds(n - 1, n);
      if k > 0 {
        ChooseEnds(n - 1, k - 1);
        ChooseEnds(n - 1, k);
      }
    }
  }

  lemma {:induction false} Absorption(n: nat, k: nat)
    requires n >= 1 && k >= 1
    ensures k * Choose(n, k) == n * Choose(n - 1, k - 1)
  {
    if n == 1 {
      ChooseEnds(0, k);
    } else {
      var a := Choose(n - 1, k - 1);
      Absorption(n - 1, k);
      assert k * Choose(n, k) == k * a + (n - 1) * Choose(n - 2, k - 1) by { MulAdd(a, Choose(n - 1, k), k); }
      if k >= 2 {
        Absorption(n - 1, k - 1);
        assert k * a == a + (n - 1) * Choose(n - 2, k - 2) by { MulAdd(k - 1, 1, a); }
        MulAdd(Choose(n - 2, k - 2), Choose(n - 2, k - 1), n - 1);
      }
      assert n * a == a + (n - 1) * a by { MulAdd(n - 1, 1, a); }
    }
  }

  lemma PrimeDividesChoose(p: nat, k: nat)
    requires Prime(p) && 0 < k < p
    ensures Multiple(Choose(p, k), p)
  {
    Absorption(p, k);
    MultipleBy(k * Choose(p, k), p, Choose(p - 1, k - 1));
    EuclidBelow(p, k, Choose(p, k));
  }

  /** The first m terms of the expansion of (x + 1)^n. */
  function Expansion(n: nat, x: int, m: nat): int {
    if m == 0 then 0 else Expansion(n, x, m - 1) + Choose(n, m - 1) * Pow(x, m - 1)
  }

  lemma {:induction false} ExpansionStep(n: nat, x: int, m: nat)
    requires n >= 1 && m >= 1
    ensures Expansion(n, x, m) == Expansion(n - 1, x, m) + x * Expansion(n - 1, x, m - 1)
  {
    if m > 1 {
      ExpansionStep(n, x, m - 1);
      var a, b, y := Choose(n - 1, m - 1), Choose(n - 1, m - 2), Pow(x, m - 2);
      assert Pow(x, m - 1) == x * y;
      MulAdd(a, b, x * y);
      MulAdd(Expansion(n - 1, x, m - 2), b * y, x);
      assert b * (x * y) == x * (b * y) by { MulAssoc(b, x, y); MulAssoc(x, b, y); }
    } else {
      assert Expansion(n, x, 1) == Expansion(n, x, 0) + Choose(n, 0) * Pow(x, 0);
      assert Expansion(n - 1, x, 1) == Expansion(n - 1, x, 0) + Choose(n - 1, 0) * Pow(x, 0);
    }
  }

  lemma {:induction false} BinomialTheorem(n: nat, x: int)
    ensures Pow(x + 1, n) == Expansion(n, x, n + 1)
  {
    if n == 0 {
      assert Expansion(0, x, 1) == Expansion(0, x, 0) + Choose(0, 0) * Pow(x, 0);
    } else {
      BinomialTheorem(n - 1, x);
      ExpansionStep(n, x, n + 1);
      ChooseEnds(n - 1, n);
      assert Expansion(n - 1, x, n + 1) == Expansion(n - 1, x, n) + 0 * Pow(x, n);
      MulAdd(x, 1, Expansion(n - 1, x, n));
    }
  }

  // ---- Fermat

  lemma {:induction false} InnerTerms(p: nat, x: int, m: nat)
    requires Prime(p) && 1 <= m <= p
    ensures Congruent(Expansion(p, x, m), 1, p)
  {
    if m == 1 {
      assert Expansion(p, x, 1) == Expansion(p, x, 0) + Choose(p, 0) * Pow(x, 0);
      CongruentRefl(1, p);
    } else {
      var k := m - 1;
      InnerTerms(p, x, k);
      PrimeDividesChoose(p, k);
      MultipleScale(Choose(p, k), Pow(x, k), p);
      assert Choose(p, k) * Pow(x, k) == Pow(x, k) * Choose(p, k);
      CongruentAdd(Choose(p, k) * Pow(x, k), 0, Expansion(p, x, k), p);
      CongruentTrans(Expansion(p, x, m), Expansion(p, x, k), 1, p);
    }
  }

  /** x^p is congruent to x. */
  lemma {:induction false} LittleTheorem(p: nat, x: nat)
    requires Prime(p)
    ensures Congruent(Pow(x, p), x, p)
  {
    if x == 0 {
      assert Pow(0, p) == 0 * Pow(0, p - 1);
      CongruentRefl(0, p);
    } else {
      LittleTheorem(p, x - 1);
      BinomialTheorem(p, x - 1);
      InnerTerms(p, x - 1, p);
      ChooseEnds(p, p);
      CongruentAdd(Expansion(p, x - 1, p), 1, Pow(x - 1, p), p);
      CongruentAdd(Pow(x - 1, p), x - 1, 1, p);
      CongruentTrans(Pow(x, p), Pow(x - 1, p) + 1, x, p);
    }
  }

  /** x^(p - 1) is congruent to 1 unless p divides x. */
  lemma UnitPower(p: nat, x: nat)
    requires Prime(p) && !Multiple(x, p)
    ensures Congruent(Pow(x, p - 1), 1, p)
  {
    LittleTheorem(p, x);
    var y := Pow(x, p - 1);
    var c: int := 0 - x;
    CongruentAdd(Pow(x, p), x, c, p);
    assert Pow(x, p) - x == x * (y - 1) by { MulSub(y, 1, x); }
    Euclid(p, x, y - 1);
    CongruentAdd(y - 1, 0, 1, p);
  }

  lemma {:induction false} UnitPowers(p: nat, x: nat, k: nat)
    requires Prime(p) && !Multiple(x, p)
    ensures k * (p - 1) >= 0 && Congruent(Pow(x, k * (p - 1)), 1, p)
  {
    if k == 0 {
      CongruentRefl(1, p);
    } else {
      UnitPowers(p, x, k - 1);
      UnitPower(p, x);
      MulAdd(k - 1, 1, p - 1);
      MulMonotone(p - 1, 0, k - 1);
      PowAdd(x, p - 1, (k - 1) * (p - 1));
      CongruentMul(Pow(x, p - 1), 1, Pow(x, (k - 1) * (p - 1)), 1, p);
    }
  }

  /** Exponents that are 1 modulo p - 1 change nothing modulo p. */
  lemma PowerOne(p: nat, x: nat, f: nat)
    requires Prime(p) && f >= 1 && (f - 1) % (p - 1) == 0
    ensures Congruent(Pow(x, f), x, p)
  {
    if Multiple(x, p) {
      MultipleScale(x, Pow(x, f - 1), p);
      assert Pow(x, f) == Pow(x, f - 1) * x;
      CongruentSym(x, 0, p);
      CongruentTrans(Pow(x, f), 0, x, p);
    } else {
      var k := (f - 1) / (p - 1);
      assert f - 1 == k * (p - 1);
      UnitPowers(p, x, k);
      CongruentScale(Pow(x, f - 1), 1, x, p);
    }
  }

  /** Congruence modulo two primes is congruence modulo their product. */
  lemma TwoPrimes(p: nat, q: nat, x: int, y: int)
    requires Prime(p) && Prime(q) && p != q && Congruent(x, y, p) && Congruent(x, y, q)
    ensures Congruent(x, y, p * q)
  {
    var a :| x == y + Times(a, p);
    CongruentAdd(x, y, -y, q);
    assert x - y == a * p;
    Euclid(q, a, p);
    NoMultiple(p, q);
    var b :| a == 0 + Times(b, q);
    assert x == y + b * (p * q) by {
      MulAssoc(b, q, p);
      assert q * p == p * q;
    }
    CongruentBy(x, y, p * q, b);
  }

  lemma NoMultiple(p: nat, q: nat)
    requires Prime(p) && Prime(q) && p != q
    ensures !Multiple(p, q)
  {
    if Multiple(p, q) {
      var k :| p == 0 + Times(k, q);
      RemainderUnique(p, q, k, 0);
      SmallMultipleOf(p, q, k);
      assert false;
    }
  }

  lemma SmallMultipleOf(p: nat, q: nat, k: int)
    requires p == k * q && p >= 1 && q >= 1
    ensures q <= p
  {
    if k <= 0 {
      MulMonotone(q, k, 0);
    } else {
      MulMonotone(q, 1, k);
    }
  }

  lemma {:induction false} PowMul(x: int, d: nat, e: nat)
    ensures d * e >= 0 && Pow(Pow(x, d), e) == Pow(x, d * e)
  {
    if e > 0 {
      PowMul(x, d, e - 1);
      MulAdd(1, e - 1, d);
      PowAdd(x, d, d * (e - 1));
    }
  }

  /** Raising to d and then to e gives every residue back, when d * e is 1 modulo p - 1 and q - 1. */
  lemma Inverts(p: nat, q: nat, d: nat, e: nat, m: nat)
    requires Prime(p) && Prime(q) && p != q && m < p * q
    requires d * e >= 1 && (d * e - 1) % (p - 1) == 0 && (d * e - 1) % (q - 1) == 0
    ensures Pow(Pow(m, d) % (p * q), e) % (p * q) == m
  {
    var n := p * q;
    PowMul(m, d, e);
    PowerOne(p, m, d * e);
    PowerOne(q, m, d * e);
    TwoPrimes(p, q, Pow(m, d * e), m);
    RemainderCongruent(Pow(m, d), n);
    PowCongruent(Pow(m, d) % n, Pow(m, d), e, n);
    CongruentTrans(Pow(Pow(m, d) % n, e), Pow(m, d * e), m, n);
    CongruentSym(Pow(Pow(m, d) % n, e), m, n);
    CongruentRemainder(m, Pow(Pow(m, d) % n, e), n);
  }
}
