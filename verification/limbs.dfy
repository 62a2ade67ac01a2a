// Little-endian multi-word numbers and congruences.

module Limbs {
  import opened Words

  /** 2^(32 k). */
  function Radix(k: nat): (p: nat)
    ensures p > 0
  {
    if k == 0 then 1 else TWO_32 * Radix(k - 1)
  }

  lemma RadixStep(k: nat)
    ensures Radix(k + 1) == TWO_32 * Radix(k)
  {
  }

  /** The number whose words are `s`, least significant first. */
  function Val(s: seq<word>): nat {
    if s == [] then 0 else Val(s[..|s| - 1]) + Radix(|s| - 1) * s[|s| - 1]
  }

  lemma ValSnoc(s: seq<word>, i: nat)
    requires i < |s|
    ensures Val(s[..i + 1]) == Val(s[..i]) + Radix(i) * s[i]
  {
    assert s[..i + 1][..i] == s[..i];
  }

  lemma {:induction false} ValBound(s: seq<word>)
    ensures Val(s) < Radix(|s|)
  {
    if s != [] {
      var i := |s| - 1;
      ValBound(s[..i]);
      assert Radix(i) * s[i] <= Radix(i) * (TWO_32 - 1) by { MulMonotone(Radix(i), s[i], TWO_32 - 1); }
    }
  }

  lemma MulMonotone(a: int, b: int, c: int)
    requires a >= 0 && b <= c
    ensures a * b <= a * c
  {
  }

  lemma MulAssoc(a: int, b: int, c: int)
    ensures (a * b) * c == a * (b * c)
  {
  }

  lemma MulSub(a: int, b: int, c: int)
    ensures (a - b) * c == a * c - b * c && c * (a - b) == c * a - c * b
  {
  }

  lemma MulAdd(a: int, b: int, c: int)
    ensures (a + b) * c == a * c + b * c && c * (a + b) == c * a + c * b
  {
  }

  lemma MulSwap(a: int, b: int, c: int, d: int)
    ensures (a * b) * (c * d) == (a * c) * (b * d)
  {
    MulAssoc(a, b, c * d);
    MulAssoc(b, c, d);
    MulAssoc(c, b, d);
    MulAssoc(a, c, b * d);
  }

  /** The words from `i` up decide a comparison when the words above agree. */
  lemma {:induction false} ValCompare(a: seq<word>, b: seq<word>, i: nat)
    requires |a| == |b| && i < |a| && a[i] < b[i] && a[i + 1..] == b[i + 1..]
    ensures Val(a) < Val(b)
    decreases |a|
  {
    var m := |a| - 1;
    if i == m {
      ValBound(a[..m]);
      MulMonotone(Radix(m), a[m] + 1, b[m]);
      assert Radix(m) * (a[m] + 1) == Radix(m) * a[m] + Radix(m);
    } else {
      assert a[m] == a[i + 1..][m - i - 1] && b[m] == b[i + 1..][m - i - 1];
      assert a[..m][i + 1..] == a[i + 1..][..m - i - 1] == b[i + 1..][..m - i - 1] == b[..m][i + 1..];
      ValCompare(a[..m], b[..m], i);
    }
  }

  // ---- Congruence

  function Times(k: int, m: int): int {
    k * m
  }

  /** x and y differ by a multiple of m. */
  ghost predicate Congruent(x: int, y: int, m: int) {
    exists k :: x == y + Times(k, m)
  }

  lemma CongruentBy(x: int, y: int, m: int, k: int)
    requires x == y + k * m
    ensures Congruent(x, y, m)
  {
    assert x == y + Times(k, m);
  }

  lemma CongruentRefl(x: int, m: int)
    ensures Congruent(x, x, m)
  {
    CongruentBy(x, x, m, 0);
  }

  lemma CongruentSym(x: int, y: int, m: int)
    requires Congruent(x, y, m)
    ensures Congruent(y, x, m)
  {
    var k :| x == y + Times(k, m);
    assert (-k) * m == -(k * m);
    CongruentBy(y, x, m, -k);
  }

  lemma CongruentTrans(x: int, y: int, z: int, m: int)
    requires Congruent(x, y, m) && Congruent(y, z, m)
    ensures Congruent(x, z, m)
  {
    var k :| x == y + Times(k, m);
    var l :| y == z + Times(l, m);
    assert (k + l) * m == k * m + l * m;
    CongruentBy(x, z, m, k + l);
  }

  lemma CongruentAdd(x: int, y: int, c: int, m: int)
    requires Congruent(x, y, m)
    ensures Congruent(x + c, y + c, m)
  {
    var k :| x == y + Times(k, m);
    CongruentBy(x + c, y + c, m, k);
  }

  lemma CongruentScale(x: int, y: int, c: int, m: int)
    requires Congruent(x, y, m)
    ensures Congruent(c * x, c * y, m)
  {
    var k :| x == y + Times(k, m);
    assert c * x == c * y + c * (k * m) by { assert c * (y + k * m) == c * y + c * (k * m); }
    assert c * (k * m) == (c * k) * m;
    CongruentBy(c * x, c * y, m, c * k);
  }

  lemma CongruentMul(x: int, y: int, x': int, y': int, m: int)
    requires Congruent(x, y, m) && Congruent(x', y', m)
    ensures Congruent(x * x', y * y', m)
  {
    CongruentScale(x', y', x, m);
    CongruentScale(x, y, y', m);
    assert x * y' == y' * x && y * y' == y' * y;
    CongruentTrans(x * x', x * y', y * y', m);
  }

  /** A factor with an inverse modulo m can be dropped. */
  lemma CongruentCancel(x: int, y: int, c: int, inv: int, m: int)
    requires Congruent(c * x, c * y, m) && Congruent(c * inv, 1, m)
    ensures Congruent(x, y, m)
  {
    CongruentScale(c * x, c * y, inv, m);
    CongruentScale(c * inv, 1, x, m);
    CongruentScale(c * inv, 1, y, m);
    assert inv * (c * x) == x * (c * inv);
    assert inv * (c * y) == y * (c * inv);
    assert x * 1 == x && y * 1 == y;
    CongruentSym(x * (c * inv), x, m);
    CongruentTrans(x, x * (c * inv), y * (c * inv), m);
    CongruentTrans(x, y * (c * inv), y, m);
  }

  /** The representative in [0, m) is the remainder. */
  lemma CongruentRemainder(x: int, y: int, m: int)
    requires Congruent(x, y, m) && 0 <= x < m
    ensures x == y % m
  {
    var k :| x == y + Times(k, m);
    assert y == -k * m + x by { assert -k * m == -(k * m); }
    RemainderUnique(y, m, -k, x);
  }

  lemma SmallMultiple(k: int, m: int)
    requires -m < k * m < m
    ensures k == 0
  {
    if k > 0 {
      MulMonotone(m, 1, k);
    } else if k < 0 {
      MulMonotone(m, k, -1);
    }
  }

  lemma RemainderUnique(y: int, m: int, q: int, r: int)
    requires m > 0 && y == q * m + r && 0 <= r < m
    ensures y % m == r && y / m == q
  {
    var q', r' := y / m, y % m;
    assert (q - q') * m == r' - r by {
      assert y == q' * m + r';
      assert (q - q') * m == q * m - q' * m;
    }
    SmallMultiple(q - q', m);
  }

  lemma RemainderCongruent(x: int, m: int)
    requires m > 0
    ensures Congruent(x % m, x, m) && 0 <= x % m < m
  {
    assert x == x / m * m + x % m;
    assert -(x / m) * m == -(x / m * m);
    CongruentBy(x % m, x, m, -(x / m));
  }

  function Pow(b: int, e: nat): int {
    if e == 0 then 1 else b * Pow(b, e - 1)
  }

  lemma {:induction false} PowAdd(b: int, d: nat, e: nat)
    ensures Pow(b, d + e) == Pow(b, d) * Pow(b, e)
  {
    if d == 0 {
      assert Pow(b, 0) == 1;
    } else {
      PowAdd(b, d - 1, e);
      assert b * (Pow(b, d - 1) * Pow(b, e)) == b * Pow(b, d - 1) * Pow(b, e);
    }
  }

  lemma {:induction false} PowCongruent(x: int, y: int, e: nat, m: int)
    requires Congruent(x, y, m)
    ensures Congruent(Pow(x, e), Pow(y, e), m)
  {
    if e == 0 {
      CongruentRefl(1, m);
    } else {
      PowCongruent(x, y, e - 1, m);
      CongruentMul(x, y, Pow(x, e - 1), Pow(y, e - 1), m);
    }
  }
}
