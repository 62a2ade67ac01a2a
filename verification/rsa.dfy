// Montgomery arithmetic and signature checking of panda/crypto/rsa.c.

module Rsa {
  import opened Words
  import opened Limbs
  import Fermat

  const RSANUMBYTES: nat := 128
  const RSANUMWORDS: nat := 32

  /** RSAPublicKey; `n` and `rr` hold `len` significant words. */
  datatype Key = Key(len: nat, n0inv: word, n: seq<word>, rr: seq<word>, exponent: int)

  /** The modulus. */
  function N(key: Key): nat
    requires key.len <= |key.n|
  {
    Val(key.n[..key.len])
  }

  /** What the comments on RSAPublicKey say of its fields. */
  ghost predicate ValidKey(key: Key) {
    && 0 < key.len <= RSANUMWORDS
    && |key.n| == RSANUMWORDS && |key.rr| == RSANUMWORDS
    && (key.n[0] * key.n0inv + 1) % TWO_32 == 0
    && N(key) > 0
  }

  /** rr = R^2 modulo n. */
  ghost predicate ValidSquare(key: Key)
    requires key.len <= |key.n| && key.len <= |key.rr|
  {
    Congruent(Val(key.rr[..key.len]), Radix(key.len) * Radix(key.len), N(key))
  }

  function ToInt64(v: int): (r: int)
    ensures -TWO_63 <= r < TWO_63
  {
    var u := v % TWO_64;
    if u < TWO_63 then u else u - TWO_64
  }

  lemma ToInt64Same(v: int)
    requires -TWO_63 <= v < TWO_63
    ensures ToInt64(v) == v
  {
  }

  /** a[] -= mod; the borrow out of the top word is dropped. */
  method SubM(key: Key, a: array<word>)
    requires ValidKey(key) && key.len <= a.Length
    modifies a
    ensures a[key.len..] == old(a[key.len..])
    ensures Val(a[..key.len]) == old(Val(a[..key.len])) - N(key)
         || Val(a[..key.len]) == old(Val(a[..key.len])) - N(key) + Radix(key.len)
  {
    hide Val, Radix, ToInt64;
    var A := 0;
    ghost var a0 := a[..];
    assert Val(a[..0]) == Val(a0[..0]) == Val(key.n[..0]) == 0 by {
      ValZero([]);
      assert a[..0] == a0[..0] == key.n[..0] == [];
    }
    for i := 0 to key.len
      invariant -1 <= A <= 0
      invariant forall k :: i <= k < a.Length ==> a[k] == a0[k]
      invariant Val(a[..i]) + Radix(i) * A == Val(a0[..i]) - Val(key.n[..i])
    {
      ghost var A0, before := A, a[..i];
      ToInt64Same(A + a[i] - key.n[i]);
      A := ToInt64(A + a[i] - key.n[i]);
      var d := A;
      a[i] := d % TWO_32;
      A := A / TWO_32;
      assert a[..i] == before;
      assert a[..i + 1] == a[..i] + [a[i]];
      SubStep(a[..i], a[i], a0, key.n, A0, A);
    }
    assert a0[..key.len] == old(a[..key.len]);
    assert a[key.len..] == old(a[key.len..]);
  }

  /** One word of the subtraction. */
  lemma SubStep(done: seq<word>, z: word, x: seq<word>, n: seq<word>, A: int, A': int)
    requires |done| < |x| && |done| < |n|
    requires A + x[|done|] - n[|done|] == A' * TWO_32 + z
    requires Val(done) + Radix(|done|) * A == Val(x[..|done|]) - Val(n[..|done|])
    ensures Val(done + [z]) + Radix(|done| + 1) * A' == Val(x[..|done| + 1]) - Val(n[..|done| + 1])
  {
    hide Val, Radix;
    var i, s := |done|, done + [z];
    var r := Radix(i);
    ValSnoc(s, i);
    assert s[..i] == done && s[..i + 1] == s;
    ValSnoc(x, i);
    ValSnoc(n, i);
    RadixStep(i);
    MulAdd(A, x[i], r);
    MulSub(A + x[i], n[i], r);
    MulAdd(A' * TWO_32, z, r);
    MulAssoc(r, TWO_32, A');
  }

  /** Is a[] >= mod? */
  method GeM(key: Key, a: array<word>) returns (ge: bool)
    requires ValidKey(key) && key.len <= a.Length
    ensures ge <==> Val(a[..key.len]) >= N(key)
  {
    var i := key.len;
    while i > 0
      invariant 0 <= i <= key.len
      invariant a[i..key.len] == key.n[i..key.len]
    {
      i := i - 1;
      if a[i] < key.n[i] {
        ValCompareAt(a[..key.len], key.n[..key.len], i);
        return false;
      }
      if a[i] > key.n[i] {
        ValCompareAt(key.n[..key.len], a[..key.len], i);
        return true;
      }
      assert a[i..key.len] == [a[i]] + a[i + 1..key.len];
    }
    assert a[..key.len] == key.n[..key.len];
    return true;
  }

  lemma ValCompareAt(a: seq<word>, b: seq<word>, i: nat)
    requires |a| == |b| && i < |a| && a[i] < b[i] && a[i + 1..] == b[i + 1..]
    ensures Val(a) < Val(b)
  {
    ValCompare(a, b, i);
  }

  /** The two running sums after word i: everything below it has been moved down one word. */
  ghost predicate Partial(a: int, d0: int, b: seq<word>, c: seq<word>, n: seq<word>, i: nat, done: int, A: int, B: int)
    requires i <= |b| && i <= |c| && i <= |n|
  {
    a * Val(b[..i]) + Val(c[..i]) + d0 * Val(n[..i]) == TWO_32 * done + Radix(i) * (A + B)
  }

  /** Adding word i to both sums; `w` is the word size and `r` the weight of the word. */
  lemma AddWord(a: int, d: int, r: int, w: int, vb: int, vc: int, vn: int, bi: int, ci: int, ni: int,
                done: int, hi: int, carry: int, low: int)
    requires a * vb + vc + d * vn == w * done + r * hi
    requires hi + a * bi + ci + d * ni == w * carry + low
    ensures a * (vb + r * bi) + (vc + r * ci) + d * (vn + r * ni) == w * done + r * low + (w * r) * carry
  {
    MulAdd(vb, r * bi, a);
    MulAssoc(a, r, bi);
    MulAssoc(r, a, bi);
    MulAdd(vn, r * ni, d);
    MulAssoc(d, r, ni);
    MulAssoc(r, d, ni);
    MulAdd(hi, a * bi, r);
    MulAdd(hi + a * bi, ci, r);
    MulAdd(hi + a * bi + ci, d * ni, r);
    MulAdd(w * carry, low, r);
    MulAssoc(r, w, carry);
  }

  lemma PartialStep(a: word, d0: word, b: seq<word>, c: seq<word>, n: seq<word>, i: nat,
                    done: int, A: int, B: int, A': int, B': int)
    requires i < |b| && i < |c| && i < |n| && i > 0
    requires Partial(a, d0, b, c, n, i, done, A, B)
    requires A' == A + a * b[i] + c[i]
    requires B' == B + d0 * n[i] + A' % TWO_32
    ensures Partial(a, d0, b, c, n, i + 1, done + Radix(i - 1) * (B' % TWO_32), A' / TWO_32, B' / TWO_32)
  {
    hide Val, Radix;
    var r, carry, low := Radix(i), A' / TWO_32 + B' / TWO_32, B' % TWO_32;
    RadixStep(i);
    RadixStep(i - 1);
    ValSnoc(b, i);
    ValSnoc(c, i);
    ValSnoc(n, i);
    AddWord(a, d0, r, TWO_32, Val(b[..i]), Val(c[..i]), Val(n[..i]), b[i], c[i], n[i], done, A + B, carry, low);
    assert r * low == TWO_32 * (Radix(i - 1) * low);
    assert TWO_32 * (done + Radix(i - 1) * low) == TWO_32 * done + r * low;
  }

  /** No 64-bit intermediate overflows. */
  lemma Fits64(carry: int, x: word, y: word, z: word)
    requires 0 <= carry < TWO_32
    ensures 0 <= carry + x * y + z < TWO_64
  {
    assert x * y <= (TWO_32 - 1) * (TWO_32 - 1) by {
      MulMonotone(x, y, TWO_32 - 1);
      MulMonotone(TWO_32 - 1, x, TWO_32 - 1);
    }
    assert x * y >= 0;
  }

  lemma ClearLowWord(x: int, inv: int, n0: int, w: int, q: int, p: int, d0: int)
    requires d0 == x * inv - w * q && n0 * inv + 1 == w * p
    ensures d0 * n0 + x == w * (x * p - q * n0)
  {
    MulSub(x * inv, w * q, n0);
    MulAssoc(x, inv, n0);
    MulAssoc(w, q, n0);
    MulAssoc(w, x, p);
    MulSub(x * p, q * n0, w);
    MulAssoc(x, w, p);
    assert x * (n0 * inv + 1) == x * (inv * n0) + x;
  }

  /** The choice of d0 clears the lowest word. */
  lemma LowWordVanishes(key: Key, x: word)
    requires ValidKey(key)
    ensures ((x * key.n0inv) % TWO_32 * key.n[0] + x) % TWO_32 == 0
  {
    hide Val, Radix;
    var d0, q := (x * key.n0inv) % TWO_32, (x * key.n0inv) / TWO_32;
    var p := (key.n[0] * key.n0inv + 1) / TWO_32;
    ClearLowWord(x, key.n0inv, key.n[0], TWO_32, q, p, d0);
    MulByWord(x * p - q * key.n[0]);
  }

  lemma MulByWord(t: int)
    ensures (TWO_32 * t) % TWO_32 == 0
  {
  }

  /** The sum of both products stays below 2^32 (R + n). */
  lemma TotalBound(a: word, d0: word, vb: nat, vc: nat, vn: nat, r: nat)
    requires vb < r && vc < r
    ensures a * vb + vc + d0 * vn < TWO_32 * (r + vn)
  {
    MulMonotone(vb, a, TWO_32 - 1);
    MulMonotone(TWO_32 - 1, vb, r);
    MulMonotone(vn, d0, TWO_32);
  }

  /** Montgomery step: c[] = (c[] + a * b[]) / 2^32 modulo n, in place. */
  method MontMulAdd(key: Key, c: array<word>, a: word, b: array<word>)
    requires ValidKey(key) && key.len <= c.Length && key.len <= b.Length && c != b
    modifies c
    ensures c[key.len..] == old(c[key.len..])
    ensures Congruent(TWO_32 * Val(c[..key.len]), a * Val(b[..key.len]) + old(Val(c[..key.len])), N(key))
  {
    hide Val, Radix;
    ghost var c0 := c[..];
    var A := a * b[0] + c[0];
    var d0 := (A % TWO_32 * key.n0inv) % TWO_32;
    var B := d0 * key.n[0] + A % TWO_32;
    FirstWord(key, a, b[..], c0);
    var i := 1;
    while i < key.len
      invariant 1 <= i <= key.len
      invariant 0 <= A < TWO_64 && 0 <= B < TWO_64
      invariant forall k :: i - 1 <= k < c.Length ==> c[k] == c0[k]
      invariant Partial(a, d0, b[..], c0, key.n, i, Val(c[..i - 1]), A / TWO_32, B / TWO_32)
    {
      ghost var A0, B0, before := A / TWO_32, B / TWO_32, c[..i - 1];
      Fits64(A0, a, b[i], c[i]);
      A := A / TWO_32 + a * b[i] + c[i];
      Fits64(B0, d0, key.n[i], A % TWO_32);
      B := B / TWO_32 + d0 * key.n[i] + A % TWO_32;
      c[i - 1] := B % TWO_32;
      PartialStep(a, d0, b[..], c0, key.n, i, Val(before), A0, B0, A, B);
      assert c[..i - 1] == before;
      ValSnoc(c[..i], i - 1);
      assert c[..i][..i - 1] == c[..i - 1] && c[..i][..i] == c[..i];
      i := i + 1;
    }
    A := A / TWO_32 + B / TWO_32;
    ghost var before := c[..i - 1];
    c[i - 1] := A % TWO_32;
    assert c[..i - 1] == before;
    ValSnoc(c[..i], i - 1);
    assert c[..i][..i - 1] == c[..i - 1] && c[..i][..i] == c[..i];
    ghost var v := Val(c[..key.len]);
    FinalCarry(key, a, d0, b[..], c0, Val(before), A, v);
    if A / TWO_32 != 0 {
      SubM(key, c);
    }
    Reduced(key, a, d0, b[..], c0, A, v, Val(c[..key.len]));
    assert c0[..key.len] == old(c[..key.len]);
  }

  /** The state before the loop. */
  lemma FirstWord(key: Key, a: word, b: seq<word>, c: seq<word>)
    requires ValidKey(key) && |b| > 0 && |c| > 0
    ensures var A := a * b[0] + c[0];
            var d0 := (A % TWO_32 * key.n0inv) % TWO_32;
            var B := d0 * key.n[0] + A % TWO_32;
            && 0 <= A < TWO_64 && 0 <= B < TWO_64
            && Partial(a, d0, b, c, key.n, 1, Val([]), A / TWO_32, B / TWO_32)
  {
    var A := a * b[0] + c[0];
    var d0 := (A % TWO_32 * key.n0inv) % TWO_32;
    var B := d0 * key.n[0] + A % TWO_32;
    LowWordVanishes(key, A % TWO_32);
    Fits64(0, a, b[0], c[0]);
    Fits64(0, d0, key.n[0], A % TWO_32);
    ValSnoc(b, 0);
    ValSnoc(c, 0);
    ValSnoc(key.n, 0);
    assert Radix(1) == TWO_32;
    assert B % TWO_32 == 0;
  }

  lemma SplitCarry(w: int, r: int, A: int, carry: int, low: int)
    requires A == w * carry + low
    ensures (w * r) * A == w * (r * low) + w * ((w * r) * carry)
  {
    assert (w * r) * (w * carry + low) == (w * r) * (w * carry) + (w * r) * low;
    assert (w * r) * (w * carry) == w * ((w * r) * carry);
    assert (w * r) * low == w * (r * low);
  }

  /** The carry is one bit, and with it the result is below R + n. */
  lemma FinalCarry(key: Key, a: word, d0: word, b: seq<word>, c: seq<word>, done: int, A: int, v: int)
    requires ValidKey(key) && key.len <= |b| && key.len <= |c| && 0 <= A < 2 * TWO_32
    requires a * Val(b[..key.len]) + Val(c[..key.len]) + d0 * N(key) == TWO_32 * done + Radix(key.len) * A
    requires v == done + Radix(key.len - 1) * (A % TWO_32)
    ensures a * Val(b[..key.len]) + Val(c[..key.len]) + d0 * N(key) == TWO_32 * (v + Radix(key.len) * (A / TWO_32))
    ensures A / TWO_32 == 1 ==> v < N(key)
  {
    hide Val, Radix;
    var r, low, carry := Radix(key.len), A % TWO_32, A / TWO_32;
    RadixStep(key.len - 1);
    SplitCarry(TWO_32, Radix(key.len - 1), A, carry, low);
    ValBound(b[..key.len]);
    ValBound(c[..key.len]);
    TotalBound(a, d0, Val(b[..key.len]), Val(c[..key.len]), N(key), r);
  }

  /** The top-carry subtraction brings the value below R again without changing it modulo n. */
  lemma Reduced(key: Key, a: word, d0: word, b: seq<word>, c: seq<word>, A: int, v: int, v': nat)
    requires ValidKey(key) && key.len <= |b| && key.len <= |c| && 0 <= A < 2 * TWO_32
    requires a * Val(b[..key.len]) + Val(c[..key.len]) + d0 * N(key) == TWO_32 * (v + Radix(key.len) * (A / TWO_32))
    requires A / TWO_32 == 1 ==> v < N(key)
    requires if A / TWO_32 == 0 then v' == v else v' == v - N(key) || v' == v - N(key) + Radix(key.len)
    ensures Congruent(TWO_32 * v', a * Val(b[..key.len]) + Val(c[..key.len]), N(key))
  {
    hide Val, Radix;
    var n, total := N(key), a * Val(b[..key.len]) + Val(c[..key.len]);
    if A / TWO_32 == 0 {
      assert Radix(key.len) * 0 == 0;
      CongruentBy(TWO_32 * v', total, n, d0);
    } else {
      assert (d0 - TWO_32) * n == d0 * n - TWO_32 * n;
      CongruentBy(TWO_32 * v', total, n, d0 - TWO_32);
    }
  }

  lemma MulAddStep(n: int, w: int, r: int, va: int, vb: int, ai: int, c: int, c': int)
    requires Congruent(w * c', ai * vb + c, n) && Congruent(r * c, va * vb, n)
    ensures Congruent((w * r) * c', (va + r * ai) * vb, n)
  {
    CongruentScale(w * c', ai * vb + c, r, n);
    assert r * (w * c') == (w * r) * c';
    assert r * (ai * vb + c) == r * c + r * ai * vb;
    CongruentAdd(r * c, va * vb, r * ai * vb, n);
    assert (va + r * ai) * vb == va * vb + r * ai * vb;
    CongruentTrans((w * r) * c', r * c + r * ai * vb, (va + r * ai) * vb, n);
  }

  /** Montgomery product: c[] = a[] * b[] / R modulo n.  `c` is neither operand. */
  method MontMul(key: Key, c: array<word>, a: array<word>, b: array<word>)
    requires ValidKey(key) && key.len <= c.Length && key.len <= a.Length && key.len <= b.Length
    requires c != a && c != b
    modifies c
    ensures Congruent(Radix(key.len) * Val(c[..key.len]), Val(a[..key.len]) * Val(b[..key.len]), N(key))
  {
    hide Val, Radix;
    var i := 0;
    while i < key.len
      invariant 0 <= i <= key.len
      invariant forall k :: 0 <= k < i ==> c[k] == 0
    {
      c[i] := 0;
      i := i + 1;
    }
    ValZero(c[..key.len]);
    assert a[..0] == [];
    ValZero(a[..0]);
    CongruentRefl(0, N(key));
    i := 0;
    while i < key.len
      invariant 0 <= i <= key.len
      invariant Congruent(Radix(i) * Val(c[..key.len]), Val(a[..i]) * Val(b[..key.len]), N(key))
    {
      ghost var before := Val(c[..key.len]);
      MontMulAdd(key, c, a[i], b);
      MulAddStep(N(key), TWO_32, Radix(i), Val(a[..i]), Val(b[..key.len]), a[i], before, Val(c[..key.len]));
      ValSnoc(a[..], i);
      assert a[..][..i] == a[..i] && a[..][..i + 1] == a[..i + 1];
      RadixStep(i);
      i := i + 1;
    }
  }

  lemma {:induction false} ValZero(s: seq<word>)
    requires forall k :: 0 <= k < |s| ==> s[k] == 0
    ensures Val(s) == 0
  {
    if s != [] {
      ValZero(s[..|s| - 1]);
    }
  }

  /** Words read from the big-endian byte at `p` on. */
  function WordAt(s: seq<byte>, p: nat): word
    requires p + 4 <= |s|
  {
    s[p] as int * 0x100_0000 + s[p + 1] as int * 0x1_0000 + s[p + 2] as int * 0x100 + s[p + 3] as int
  }

  /** The words of a big-endian byte string, last word first. */
  ghost predicate WordsOf(s: seq<byte>, a: seq<word>) {
    |s| == 4 * |a| && forall k :: 0 <= k < |a| ==> a[k] == WordAt(s, (|a| - 1 - k) * 4)
  }

  lemma WordsRest(s: seq<byte>, a: seq<word>)
    requires WordsOf(s, a) && a != []
    ensures WordsOf(s[4..], a[..|a| - 1]) && a[|a| - 1] == WordAt(s[..4], 0)
  {
    var m := |a| - 1;
    assert a[m] == WordAt(s, (m - m) * 4);
    forall k | 0 <= k < m ensures a[..m][k] == WordAt(s[4..], (m - 1 - k) * 4) {
      assert a[k] == WordAt(s, (m - k) * 4);
    }
  }

  lemma {:induction false} WordsValue(s: seq<byte>, a: seq<word>)
    requires WordsOf(s, a)
    ensures BigEndian(s) == Val(a)
  {
    if a == [] {
      assert s == [];
    } else {
      var m := |a| - 1;
      WordsRest(s, a);
      WordsValue(s[4..], a[..m]);
      JoinWord(s, a[..m], a[m]);
    }
  }

  lemma JoinWord(s: seq<byte>, rest: seq<word>, top: word)
    requires |s| == 4 * |rest| + 4 && BigEndian(s[4..]) == Val(rest) && top == WordAt(s[..4], 0)
    ensures BigEndian(s) == Val(rest) + Radix(|rest|) * top
  {
    hide BigEndian, Val, Radix, Power256, WordAt;
    assert s == s[..4] + s[4..];
    BigEndianAppend(s[..4], s[4..]);
    BigEndianFour(s[..4]);
    Power256Words(|rest|);
  }

  /** The number written by `s`, most significant byte first. */
  function BigEndian(s: seq<byte>): nat {
    if s == [] then 0 else BigEndian(s[..|s| - 1]) * 256 + s[|s| - 1]
  }

  lemma BigEndianSnoc(s: seq<byte>, b: byte)
    ensures BigEndian(s + [b]) == BigEndian(s) * 256 + b
  {
    assert (s + [b])[..|s|] == s;
  }

  lemma {:induction false} BigEndianAppend(x: seq<byte>, y: seq<byte>)
    ensures BigEndian(x + y) == BigEndian(x) * Power256(|y|) + BigEndian(y)
  {
    if y == [] {
      assert x + y == x;
    } else {
      var y', b := y[..|y| - 1], y[|y| - 1];
      assert x + y == (x + y') + [b];
      BigEndianAppend(x, y');
      BigEndianSnoc(x + y', b);
      MulAdd(BigEndian(x) * Power256(|y'|), BigEndian(y'), 256);
      MulAssoc(BigEndian(x), Power256(|y'|), 256);
    }
  }

  lemma BigEndianOne(b: byte)
    ensures BigEndian([b]) == b
  {
    assert [b][..0] == [];
  }

  lemma BigEndianFour(s: seq<byte>)
    requires |s| == 4
    ensures BigEndian(s) == WordAt(s, 0)
  {
    assert s == [] + [s[0]] + [s[1]] + [s[2]] + [s[3]];
    BigEndianSnoc([], s[0]);
    BigEndianSnoc([] + [s[0]], s[1]);
    BigEndianSnoc([] + [s[0]] + [s[1]], s[2]);
    BigEndianSnoc([] + [s[0]] + [s[1]] + [s[2]], s[3]);
  }

  lemma {:induction false} Power256Words(k: nat)
    ensures Power256(4 * k) == Radix(k)
  {
    if k > 0 {
      Power256Words(k - 1);
      var p := Power256(4 * k - 4);
      assert Power256(4 * k - 3) == 256 * p;
      assert Power256(4 * k - 2) == 0x1_0000 * p;
      assert Power256(4 * k - 1) == 0x100_0000 * p;
    }
  }

  // ---- Exponentiation

  /** The inverse of 2^32 modulo n that n0inv provides. */
  function WordInverse(key: Key): int
    requires key.len <= |key.n|
  {
    (N(key) * key.n0inv + 1) / TWO_32
  }

  lemma {:induction false} ValLowWord(s: seq<word>)
    requires s != []
    ensures Val(s) % TWO_32 == s[0]
  {
    var m := |s| - 1;
    if m == 0 {
      assert Radix(0) * s[0] == s[0];
      assert s[..0] == [];
    } else {
      ValLowWord(s[..m]);
      assert Radix(m) * s[m] == TWO_32 * (Radix(m - 1) * s[m]);
      var q := Val(s[..m]) / TWO_32;
      RemainderUnique(Val(s), TWO_32, q + Radix(m - 1) * s[m], s[0]);
    }
  }

  lemma WordInverseInverts(key: Key)
    requires ValidKey(key)
    ensures Congruent(TWO_32 * WordInverse(key), 1, N(key))
  {
    ValLowWord(key.n[..key.len]);
    var q, p := N(key) / TWO_32, (key.n[0] * key.n0inv + 1) / TWO_32;
    assert N(key) * key.n0inv == TWO_32 * (q * key.n0inv) + key.n[0] * key.n0inv by {
      assert (TWO_32 * q + key.n[0]) * key.n0inv == TWO_32 * q * key.n0inv + key.n[0] * key.n0inv;
    }
    RemainderUnique(N(key) * key.n0inv + 1, TWO_32, q * key.n0inv + p, 0);
    assert N(key) * key.n0inv == key.n0inv * N(key);
    CongruentBy(TWO_32 * WordInverse(key), 1, N(key), key.n0inv);
  }

  lemma {:induction false} RadixInverse(key: Key, k: nat)
    requires ValidKey(key)
    ensures Congruent(Radix(k) * Pow(WordInverse(key), k), 1, N(key))
  {
    var inv, n := WordInverse(key), N(key);
    if k == 0 {
      CongruentRefl(1, n);
    } else {
      RadixInverse(key, k - 1);
      WordInverseInverts(key);
      CongruentMul(TWO_32 * inv, 1, Radix(k - 1) * Pow(inv, k - 1), 1, n);
      MulSwap(TWO_32, inv, Radix(k - 1), Pow(inv, k - 1));
    }
  }

  /** Both sides of a congruence may be divided by R. */
  lemma CancelR(key: Key, x: int, y: int)
    requires ValidKey(key) && Congruent(Radix(key.len) * x, Radix(key.len) * y, N(key))
    ensures Congruent(x, y, N(key))
  {
    RadixInverse(key, key.len);
    CongruentCancel(x, y, Radix(key.len), Pow(WordInverse(key), key.len), N(key));
  }

  /** Entering the Montgomery domain. */
  lemma MontEnter(key: Key, c: int, a: int)
    requires ValidKey(key) && ValidSquare(key)
    requires Congruent(Radix(key.len) * c, a * Val(key.rr[..key.len]), N(key))
    ensures Congruent(c, a * Radix(key.len), N(key))
  {
    hide Val, Radix;
    var r, rr, n := Radix(key.len), Val(key.rr[..key.len]), N(key);
    CongruentScale(rr, r * r, a, n);
    assert a * (r * r) == r * (a * r);
    CongruentTrans(r * c, a * rr, r * (a * r), n);
    CancelR(key, c, a * r);
  }

  /** A product inside the domain. */
  lemma MontInside(key: Key, c: int, x: int, y: int, u: int, v: int)
    requires ValidKey(key) && Congruent(Radix(key.len) * c, x * y, N(key))
    requires Congruent(x, u * Radix(key.len), N(key)) && Congruent(y, v * Radix(key.len), N(key))
    ensures Congruent(c, u * v * Radix(key.len), N(key))
  {
    hide Val, Radix;
    var r, n := Radix(key.len), N(key);
    CongruentMul(x, u * r, y, v * r, n);
    assert (u * r) * (v * r) == r * (u * v * r);
    CongruentTrans(r * c, x * y, r * (u * v * r), n);
    CancelR(key, c, u * v * r);
  }

  /** A product with a plain factor leaves the domain. */
  lemma MontLeave(key: Key, c: int, x: int, u: int, v: int)
    requires ValidKey(key) && Congruent(Radix(key.len) * c, x * v, N(key))
    requires Congruent(x, u * Radix(key.len), N(key))
    ensures Congruent(c, u * v, N(key))
  {
    hide Val, Radix;
    var r, n := Radix(key.len), N(key);
    CongruentScale(x, u * r, v, n);
    assert v * x == x * v && v * (u * r) == r * (u * v);
    CongruentTrans(r * c, x * v, r * (u * v), n);
    CancelR(key, c, u * v);
  }

  /** Big-endian bytes to little-endian words. */
  method LoadWords(key: Key, bytes: array<byte>, a: array<word>)
    requires ValidKey(key) && bytes.Length == 4 * key.len && key.len <= a.Length
    modifies a
    ensures Val(a[..key.len]) == BigEndian(bytes[..])
  {
    for i := 0 to key.len
      invariant forall k :: 0 <= k < i ==> a[k] == WordAt(bytes[..], (key.len - 1 - k) * 4)
    {
      var p := (key.len - 1 - i) * 4;
      a[i] := bytes[p] as int * 0x100_0000 + bytes[p + 1] as int * 0x1_0000 + bytes[p + 2] as int * 0x100
          + bytes[p + 3] as int;
    }
    assert WordsOf(bytes[..], a[..key.len]);
    WordsValue(bytes[..], a[..key.len]);
  }

  lemma WordBytes(w: word)
    ensures w / 0x100_0000 % 256 * 0x100_0000 + w / 0x1_0000 % 256 * 0x1_0000 + w / 0x100 % 256 * 0x100 + w % 256 == w
  {
    var a, b := w / 0x100, w / 0x1_0000;
    assert w == 256 * a + w % 256;
    assert a == 256 * b + a % 256;
    assert b == 256 * (w / 0x100_0000) + b % 256;
  }

  /** One word as four big-endian bytes. */
  method StoreWord(w: word, bytes: array<byte>, p: nat)
    requires p + 4 <= bytes.Length
    modifies bytes
    ensures WordAt(bytes[..], p) == w
    ensures forall q: nat :: q + 4 <= p ==> WordAt(bytes[..], q) == old(WordAt(bytes[..], q))
  {
    WordBytes(w);
    bytes[p] := w / 0x100_0000 % 256;
    bytes[p + 1] := w / 0x1_0000 % 256;
    bytes[p + 2] := w / 0x100 % 256;
    bytes[p + 3] := w % 256;
  }

  /** Little-endian words to big-endian bytes. */
  method StoreWords(key: Key, a: array<word>, bytes: array<byte>)
    requires ValidKey(key) && bytes.Length == 4 * key.len && key.len <= a.Length
    modifies bytes
    ensures BigEndian(bytes[..]) == Val(a[..key.len])
  {
    hide WordAt;
    var i, p := key.len, 0;
    while i > 0
      invariant 0 <= i <= key.len && p == (key.len - i) * 4
      invariant forall k :: i <= k < key.len ==> a[k] == WordAt(bytes[..], (key.len - 1 - k) * 4)
    {
      i := i - 1;
      StoreWord(a[i], bytes, p);
      p := p + 4;
    }
    assert WordsOf(bytes[..], a[..key.len]);
    WordsValue(bytes[..], a[..key.len]);
  }

  lemma PowSquare(b: int, m: nat)
    ensures Pow(b, 2 * m) == Pow(b, m) * Pow(b, m)
  {
    PowAdd(b, m, m);
  }

  lemma {:induction false} Pow2Positive(i: nat)
    ensures Pow(2, i) >= 1
  {
    if i > 0 {
      Pow2Positive(i - 1);
    }
  }

  lemma Pow2Sixteen()
    ensures Pow(2, 16) == 65536
  {
    PowAdd(2, 8, 8);
    PowAdd(2, 4, 4);
    assert Pow(2, 4) == 16;
  }

  /** What the Montgomery form of s^m looks like. */
  ghost predicate InDomain(key: Key, x: int, s: int, m: nat)
    requires key.len <= |key.n|
  {
    Congruent(x, Pow(s, m) * Radix(key.len), N(key))
  }

  /** aR = a^65536 by sixteen squarings, in the Montgomery domain. */
  method SixteenSquarings(key: Key, aR: array<word>, aaR: array<word>, ghost s: int)
    requires ValidKey(key) && key.len <= aR.Length && key.len <= aaR.Length && aR != aaR
    requires InDomain(key, Val(aR[..key.len]), s, 1)
    modifies aR, aaR
    ensures InDomain(key, Val(aR[..key.len]), s, 65536)
  {
    hide Val, Radix, Pow;
    ghost var m: nat := 1;
    var i := 0;
    Pow2Zero();
    while i < 16
      invariant 0 <= i <= 16 && i % 2 == 0
      invariant m == Pow(2, i)
      invariant InDomain(key, Val(aR[..key.len]), s, m)
    {
      ghost var x := Val(aR[..key.len]);
      MontMul(key, aaR, aR, aR);
      ghost var y := Val(aaR[..key.len]);
      MontInside(key, y, x, x, Pow(s, m), Pow(s, m));
      PowSquare(s, m);
      MontMul(key, aR, aaR, aaR);
      MontInside(key, Val(aR[..key.len]), y, y, Pow(s, 2 * m), Pow(s, 2 * m));
      PowSquare(s, 2 * m);
      Pow2Twice(i);
      m := 2 * (2 * m);
      i := i + 2;
    }
    Pow2Sixteen();
  }

  lemma Pow2Zero()
    ensures Pow(2, 0) == 1
  {
  }

  lemma Pow2Twice(i: nat)
    ensures Pow(2, i + 2) == 2 * (2 * Pow(2, i)) && Pow(2, i) >= 1
  {
    Pow2Positive(i);
    assert Pow(2, i + 1) == 2 * Pow(2, i);
  }

  lemma PowSnoc(b: int, e: nat)
    ensures Pow(b, e + 1) == Pow(b, e) * b && Pow(b, 1) == b && Pow(b, 2) == b * b
  {
    PowAdd(b, e, 1);
    assert Pow(b, 0) == 1 && Pow(b, 1) == b;
    assert Pow(b, 2) == b * Pow(b, 1);
  }

  /** In-place public exponentiation of a big-endian number. */
  method Modpow(key: Key, inout: array<byte>)
    requires ValidKey(key) && ValidSquare(key) && inout.Length == 4 * key.len
    requires key.exponent == 3 || key.exponent == 65537
    modifies inout
    ensures Congruent(BigEndian(inout[..]), Pow(old(BigEndian(inout[..])), key.exponent), N(key))
    ensures Radix(key.len) <= 2 * N(key) ==>
        BigEndian(inout[..]) == Pow(old(BigEndian(inout[..])), key.exponent) % N(key)
  {
    hide Val, Radix, Pow, BigEndian;
    var a := new word[RSANUMWORDS];
    var aR := new word[RSANUMWORDS];
    var aaR := new word[RSANUMWORDS];
    var rr := new word[RSANUMWORDS](i requires 0 <= i < RSANUMWORDS => key.rr[i]);
    assert rr[..key.len] == key.rr[..key.len];
    ghost var s := BigEndian(inout[..]);
    LoadWords(key, inout, a);
    PowSnoc(s, 1);
    PowSnoc(s, 2);
    PowSnoc(s, 65536);
    var aaa := aaR;
    MontMul(key, aR, a, rr);
    MontEnter(key, Val(aR[..key.len]), s);
    if key.exponent == 65537 {
      SixteenSquarings(key, aR, aaR, s);
      ghost var x := Val(aR[..key.len]);
      MontMul(key, aaa, aR, a);
      MontLeave(key, Val(aaa[..key.len]), x, Pow(s, 65536), s);
    } else {
      ghost var x := Val(aR[..key.len]);
      MontMul(key, aaR, aR, aR);
      MontInside(key, Val(aaR[..key.len]), x, x, s, s);
      aaa := aR;
      ghost var y := Val(aaR[..key.len]);
      MontMul(key, aaa, aaR, a);
      MontLeave(key, Val(aaa[..key.len]), y, s * s, s);
    }
    ghost var v := Val(aaa[..key.len]);
    assert Congruent(v, Pow(s, key.exponent), N(key));
    ValBound(aaa[..key.len]);
    var ge := GeM(key, aaa);
    if ge {
      SubM(key, aaa);
      ValBound(aaa[..key.len]);
    }
    OneSubtraction(key, v, ge, Val(aaa[..key.len]), Pow(s, key.exponent));
    StoreWords(key, aaa, inout);
  }

  /** A single conditional subtraction is enough when n has its top bit set. */
  lemma OneSubtraction(key: Key, v: nat, ge: bool, v': nat, y: int)
    requires ValidKey(key) && Congruent(v, y, N(key))
    requires v < Radix(key.len) && v' < Radix(key.len) && (ge <==> v >= N(key))
    requires if ge then v' == v - N(key) || v' == v - N(key) + Radix(key.len) else v' == v
    ensures Congruent(v', y, N(key))
    ensures Radix(key.len) <= 2 * N(key) ==> v' == y % N(key)
  {
    hide Val, Radix;
    var n := N(key);
    if ge {
      CongruentBy(v - n, v, n, -1);
      CongruentTrans(v - n, v, y, n);
    }
    if Radix(key.len) <= 2 * n {
      CongruentRemainder(v', y, n);
    }
  }

  // ---- Signatures

  /** 00 01 ff ... ff 00 hash, in 128 bytes: sha_padding_1024 with the hash in place. */
  function Encoded(hash: seq<byte>): (m: seq<byte>)
    requires |hash| == 20
    ensures |m| == RSANUMBYTES
  {
    [0x00, 0x01] + Repeat(0xff, 0x69) + [0x00] + hash
  }

  function Repeat(b: byte, count: nat): (s: seq<byte>)
    ensures |s| == count && forall i :: 0 <= i < count ==> s[i] == b
  {
    if count == 0 then [] else Repeat(b, count - 1) + [b]
  }

  /** Exclusive or of the `bits` low bits. */
  function Xor(x: nat, y: nat, bits: nat): nat {
    if bits == 0 then 0 else (x + y) % 2 + 2 * Xor(x / 2, y / 2, bits - 1)
  }

  lemma {:induction false} XorZero(x: nat, y: nat, bits: nat)
    requires x < Pow2(bits) && y < Pow2(bits)
    ensures Xor(x, y, bits) < Pow2(bits)
    ensures Xor(x, y, bits) == 0 <==> x == y
  {
    if bits > 0 {
      XorZero(x / 2, y / 2, bits - 1);
    }
  }

  /** `x ^ y` on bytes. */
  function Xor8(x: byte, y: byte): (z: byte)
    ensures z == 0 <==> x == y
  {
    assert Pow2(8) == 256 by { assert Pow2(4) == 16; }
    XorZero(x, y, 8);
    Xor(x, y, 8)
  }

  /** The checks of RSA_verify before the exponentiation. */
  predicate Supported(key: Key, signature: seq<byte>, hash: seq<byte>) {
    key.len == RSANUMWORDS && |signature| == RSANUMBYTES && |hash| == 20 && (key.exponent == 3 || key.exponent == 65537)
  }

  /** What RSA_verify decides: s^e mod n is the padded hash. */
  ghost predicate Accepts(key: Key, signature: seq<byte>, hash: seq<byte>) {
    && Supported(key, signature, hash)
    && key.len <= |key.n| && N(key) > 0
    && Pow(BigEndian(signature), key.exponent) % N(key) == BigEndian(Encoded(hash))
  }

  /** A 1024-bit key as the header describes it, with its top bit set. */
  ghost predicate FullKey(key: Key) {
    ValidKey(key) && ValidSquare(key) && Radix(key.len) <= 2 * N(key)
  }

  lemma {:induction false} BigEndianInjective(x: seq<byte>, y: seq<byte>)
    requires |x| == |y| && BigEndian(x) == BigEndian(y)
    ensures x == y
  {
    if x != [] {
      var m := |x| - 1;
      BigEndianInjective(x[..m], y[..m]);
      assert x == x[..m] + [x[m]] && y == y[..m] + [y[m]];
    }
  }

  /** The two loops at the end of RSA_verify: xor the hash in, then compare with the bare padding. */
  method MatchesPadding(buf: array<byte>, hash: seq<byte>) returns (same: bool)
    requires buf.Length == RSANUMBYTES && |hash| == 20
    modifies buf
    ensures same <==> old(buf[..]) == Encoded(hash)
  {
    hide Encoded, Xor8;
    ghost var out := buf[..];
    var from := RSANUMBYTES - 20;
    var padding := Encoded(Repeat(0, 20));
    for i := from to RSANUMBYTES
      invariant forall k :: 0 <= k < i ==> buf[k] == Xored(out, hash, k)
      invariant forall k :: i <= k < RSANUMBYTES ==> buf[k] == out[k]
    {
      buf[i] := Xor8(buf[i], hash[i - from]);
    }
    for i := 0 to RSANUMBYTES
      invariant forall k :: 0 <= k < RSANUMBYTES ==> buf[k] == Xored(out, hash, k)
      invariant forall k :: 0 <= k < i ==> buf[k] == padding[k]
    {
      PaddingAt(out, hash, i);
      assert buf[i] == Xored(out, hash, i);
      if buf[i] != padding[i] {
        assert out[i] != Encoded(hash)[i];
        return false;
      }
    }
    forall k | 0 <= k < RSANUMBYTES ensures out[k] == Encoded(hash)[k] {
      PaddingAt(out, hash, k);
      assert buf[k] == Xored(out, hash, k) && buf[k] == padding[k];
    }
    return true;
  }

  /** Byte k after the xor loop. */
  function Xored(out: seq<byte>, hash: seq<byte>, k: nat): byte
    requires |out| == RSANUMBYTES && |hash| == 20 && k < RSANUMBYTES
  {
    if k < RSANUMBYTES - 20 then out[k] else Xor8(out[k], hash[k - (RSANUMBYTES - 20)])
  }

  /** Comparing the xored byte with the bare padding compares the byte with the padded hash. */
  lemma PaddingAt(out: seq<byte>, hash: seq<byte>, k: nat)
    requires |out| == RSANUMBYTES && |hash| == 20 && k < RSANUMBYTES
    ensures Xored(out, hash, k) == Encoded(Repeat(0, 20))[k] <==> out[k] == Encoded(hash)[k]
  {
  }

  method Verify(key: Key, signature: seq<byte>, hash: seq<byte>) returns (ok: int)
    requires Supported(key, signature, hash) ==> ValidKey(key) && ValidSquare(key)
    ensures ok == 0 || ok == 1
    ensures ok == 1 ==> Supported(key, signature, hash)
    ensures ok == 1 ==> Congruent(BigEndian(Encoded(hash)), Pow(BigEndian(signature), key.exponent), N(key))
    ensures !Supported(key, signature, hash) || FullKey(key) ==> (ok == 1 <==> Accepts(key, signature, hash))
  {
    if key.len != RSANUMWORDS { return 0; }
    if |signature| != RSANUMBYTES { return 0; }
    if |hash| != 20 { return 0; }
    if key.exponent != 3 && key.exponent != 65537 { return 0; }
    hide BigEndian, Pow, Val, Radix, Encoded;
    var buf := new byte[RSANUMBYTES](i requires 0 <= i < RSANUMBYTES => signature[i]);
    assert buf[..] == signature;
    Modpow(key, buf);
    ghost var out := buf[..];
    var same := MatchesPadding(buf, hash);
    if BigEndian(out) == BigEndian(Encoded(hash)) {
      BigEndianInjective(out, Encoded(hash));
    }
    return if same then 1 else 0;
  }

  // ---- Signing (panda/crypto/sign.py)

  function ToBigEndian(v: nat, count: nat): (s: seq<byte>)
    ensures |s| == count
  {
    if count == 0 then [] else ToBigEndian(v / 256, count - 1) + [v % 256]
  }

  lemma {:induction false} ToBigEndianValue(v: nat, count: nat)
    requires v < Power256(count)
    ensures BigEndian(ToBigEndian(v, count)) == v
  {
    if count > 0 {
      ToBigEndianValue(v / 256, count - 1);
      BigEndianSnoc(ToBigEndian(v / 256, count - 1), v % 256);
    }
  }

  lemma {:induction false} BigEndianBound(s: seq<byte>)
    ensures BigEndian(s) < Power256(|s|)
  {
    if s != [] {
      BigEndianBound(s[..|s| - 1]);
    }
  }

  lemma {:induction false} RepeatValue(n: nat)
    ensures BigEndian(Repeat(0xff, n)) == Power256(n) - 1
  {
    if n > 0 {
      RepeatValue(n - 1);
      BigEndianSnoc(Repeat(0xff, n - 1), 0xff);
    }
  }

  lemma {:induction false} PowerIsPow(n: nat)
    ensures Power256(n) == Pow(2, 8 * n)
  {
    if n > 0 {
      PowerIsPow(n - 1);
      PowAdd(2, 8, 8 * (n - 1));
      assert Pow(2, 8) == 256 by { assert Pow(2, 4) == 16; }
    }
  }

  /** The padded hash as a number: ones in the bits 168 to 1008, and the hash in the low 160. */
  lemma EncodedValue(hash: seq<byte>)
    requires |hash| == 20
    ensures BigEndian(Encoded(hash)) == Pow(2, 1009) - Pow(2, 168) + BigEndian(hash)
  {
    hide BigEndian, Power256, Pow, Repeat;
    var ones: seq<byte>, front: seq<byte> := Repeat(0xff, 0x69), [0x00, 0x01];
    assert Encoded(hash) == front + ones + [0x00] + hash;
    BigEndianAppend(front + ones + [0x00], hash);
    BigEndianSnoc(front + ones, 0x00);
    BigEndianAppend(front, ones);
    LeadingZero([0x01]);
    assert front == [0x00] + [0x01];
    BigEndianOne(0x01);
    RepeatValue(105);
    PaddingPowers();
    var p, q := Power256(105), Power256(20);
    assert BigEndian(front + ones) == 2 * p - 1;
    assert (2 * p - 1) * 256 * q == 2 * (256 * q * p) - 256 * q by {
      MulAssoc(2 * p - 1, 256, q);
      MulSub(2 * p, 1, 256 * q);
      MulAssoc(2, p, 256 * q);
    }
  }

  lemma PaddingPowers()
    ensures 256 * Power256(20) == Pow(2, 168)
    ensures 2 * (256 * Power256(20) * Power256(105)) == Pow(2, 1009)
  {
    hide Pow;
    PowerIsPow(20);
    PowerIsPow(105);
    assert Pow(2, 8) == 256 by { PowEight(); }
    PowAdd(2, 8, 160);
    PowAdd(2, 168, 840);
    PowAdd(2, 1, 1008);
    assert Pow(2, 1) == 2 by { PowEight(); }
  }

  lemma PowEight()
    ensures Pow(2, 8) == 256 && Pow(2, 1) == 2
  {
    assert Pow(2, 4) == 16;
  }

  /** An RSA key pair: two distinct primes, and exponents inverse to each other modulo p - 1 and q - 1. */
  ghost predicate KeyPair(key: Key, p: nat, q: nat, d: nat)
    requires key.len <= |key.n|
  {
    && Fermat.Prime(p) && Fermat.Prime(q) && p != q && N(key) == p * q
    && d * key.exponent >= 1
    && (d * key.exponent - 1) % (p - 1) == 0 && (d * key.exponent - 1) % (q - 1) == 0
  }

  /** The signature sign.py appends: the padded hash to the power d, in 128 bytes. */
  function Sign(key: Key, d: nat, hash: seq<byte>): seq<byte>
    requires key.len <= |key.n| && N(key) > 0 && |hash| == 20
  {
    ToBigEndian(Pow(BigEndian(Encoded(hash)), d) % N(key), RSANUMBYTES)
  }

  lemma LeadingZero(s: seq<byte>)
    ensures BigEndian([0] + s) == BigEndian(s) < Power256(|s|)
  {
    hide BigEndian, Power256;
    BigEndianAppend([0], s);
    BigEndianOne(0);
    BigEndianBound(s);
  }

  lemma EncodedBelowModulus(key: Key, hash: seq<byte>)
    requires FullKey(key) && key.len == RSANUMWORDS && |hash| == 20
    ensures BigEndian(Encoded(hash)) < N(key) <= Power256(RSANUMBYTES)
  {
    var m := Encoded(hash);
    assert m == [0] + m[1..];
    hide Val, Repeat, BigEndian, Radix, Encoded;
    Power256Words(RSANUMWORDS);
    ValBound(key.n[..key.len]);
    LeadingZero(m[1..]);
    assert Power256(RSANUMBYTES) == 256 * Power256(RSANUMBYTES - 1);
  }

  /** A signature is accepted exactly when modulo n it is the one made with the matching private exponent. */
  lemma AcceptedIffSigned(key: Key, p: nat, q: nat, d: nat, signature: seq<byte>, hash: seq<byte>)
    requires FullKey(key) && Supported(key, signature, hash) && KeyPair(key, p, q, d)
    ensures Accepts(key, signature, hash)
       <==> BigEndian(signature) % N(key) == BigEndian(Sign(key, d, hash))
  {
    hide Val, Pow, BigEndian, Radix, Power256, ToBigEndian, Encoded, Congruent;
    var n, e, m, s := N(key), key.exponent, BigEndian(Encoded(hash)), BigEndian(signature);
    EncodedBelowModulus(key, hash);
    ToBigEndianValue(Pow(m, d) % n, RSANUMBYTES);
    RemainderCongruent(s, n);
    PowCongruent(s % n, s, e, n);
    RemainderCongruent(Pow(s % n, e), n);
    CongruentTrans(Pow(s % n, e) % n, Pow(s % n, e), Pow(s, e), n);
    CongruentRemainder(Pow(s % n, e) % n, Pow(s, e), n);
    Fermat.Inverts(p, q, d, e, m);
    Fermat.Inverts(p, q, e, d, s % n);
  }

  /** Every signature made with the matching private exponent is accepted. */
  lemma SignedIsAccepted(key: Key, p: nat, q: nat, d: nat, hash: seq<byte>)
    requires FullKey(key) && key.len == RSANUMWORDS && |hash| == 20
    requires (key.exponent == 3 || key.exponent == 65537) && KeyPair(key, p, q, d)
    ensures Accepts(key, Sign(key, d, hash), hash)
  {
    hide Val, Pow, BigEndian, Radix, Power256, ToBigEndian, Encoded, Congruent, KeyPair, Accepts;
    var s := Pow(BigEndian(Encoded(hash)), d) % N(key);
    EncodedBelowModulus(key, hash);
    ToBigEndianValue(s, RSANUMBYTES);
    CongruentRefl(s, N(key));
    CongruentRemainder(s, s, N(key));
    AcceptedIffSigned(key, p, q, d, Sign(key, d, hash), hash);
  }
}
