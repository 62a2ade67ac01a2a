// 64-bit words as their bits, bit 0 first: the shifts and masks the DBC packer and parser are written with.

module Bits64 {
  import opened Words

  type Word64 = s: seq<bool> | |s| == 64 witness NO_BITS

  const NO_BITS: seq<bool> := seq(64, _ => false)

  function NoBits(): (r: Word64)
    ensures forall i :: 0 <= i < 64 ==> !r[i]
  {
    seq(64, _ => false)
  }

  function Shl(x: Word64, n: nat): (r: Word64)
    ensures forall i :: 0 <= i < 64 ==> r[i] == (i >= n && x[i - n])
  {
    seq(64, i requires 0 <= i < 64 => i >= n && x[i - n])
  }

  function Shr(x: Word64, n: nat): (r: Word64)
    ensures forall i :: 0 <= i < 64 ==> r[i] == (i + n < 64 && x[i + n])
  {
    seq(64, i requires 0 <= i < 64 => i + n < 64 && x[i + n])
  }

  function And(x: Word64, y: Word64): (r: Word64)
    ensures forall i :: 0 <= i < 64 ==> r[i] == (x[i] && y[i])
  {
    seq(64, i requires 0 <= i < 64 => x[i] && y[i])
  }

  function Or(x: Word64, y: Word64): (r: Word64)
    ensures forall i :: 0 <= i < 64 ==> r[i] == (x[i] || y[i])
  {
    seq(64, i requires 0 <= i < 64 => x[i] || y[i])
  }

  function Not(x: Word64): (r: Word64)
    ensures forall i :: 0 <= i < 64 ==> r[i] == !x[i]
  {
    seq(64, i requires 0 <= i < 64 => !x[i])
  }

  /** (1 << n) - 1. */
  function LowMask(n: nat): (r: Word64)
    ensures forall i :: 0 <= i < 64 ==> r[i] == (i < n)
  {
    seq(64, i => i < n)
  }

  // ---- Integers

  /** The n low bits of v in two's complement. */
  function Low(v: int, n: nat): (s: seq<bool>)
    ensures |s| == n
    decreases n
  {
    if n == 0 then [] else [v % 2 == 1] + Low(v / 2, n - 1)
  }

  function UInt(s: seq<bool>): nat {
    if s == [] then 0 else (if s[0] then 1 else 0) + 2 * UInt(s[1..])
  }

  function WordOf(v: int): Word64 { Low(v, 64) }

  lemma {:induction false} LowPrefix(v: int, n: nat, w: nat)
    requires w <= n
    ensures Low(v, n)[..w] == Low(v, w)
    decreases n
  {
    if w > 0 {
      LowPrefix(v / 2, n - 1, w - 1);
    }
  }

  lemma {:induction false} LowUInt(v: int, n: nat)
    ensures UInt(Low(v, n)) == v % Pow2(n)
    decreases n
  {
    if n > 0 {
      LowUInt(v / 2, n - 1);
      HalfMod(v, Pow2(n - 1));
      assert Low(v, n)[1..] == Low(v / 2, n - 1);
    }
  }

  lemma HalfMod(v: int, p: nat)
    requires p > 0
    ensures v % (2 * p) == v % 2 + 2 * (v / 2 % p)
  {
    var h := v / 2;
    var q, r := h / p, h % p;
    assert h == q * p + r;
    assert v == q * (2 * p) + (2 * r + v % 2) by {
      assert q * (2 * p) == 2 * (q * p);
    }
    ModOf(v, 2 * p, q, 2 * r + v % 2);
  }

  lemma ModOf(v: int, m: nat, q: int, r: nat)
    requires r < m && v == q * m + r
    ensures v % m == r
  {
    var q' := v / m;
    assert v == q' * m + v % m;
    assert (q' - q) * m == q' * m - q * m;
    MulSign(q' - q, m);
  }

  lemma MulSign(d: int, m: int)
    requires m >= 0
    ensures d >= 1 ==> d * m >= m
    ensures d <= -1 ==> d * m <= -m
  {
  }

  lemma {:induction false} UIntBound(s: seq<bool>)
    ensures UInt(s) < Pow2(|s|)
  {
    if s != [] {
      UIntBound(s[1..]);
    }
  }

  // ---- Byte order

  /** The bit that ReverseBytes moves to bit i. */
  function Mirror(i: nat): (j: nat)
    requires i < 64
    ensures j < 64 && j % 8 == i % 8 && j / 8 == 7 - i / 8
  {
    8 * (7 - i / 8) + i % 8
  }

  lemma MirrorTwice(i: nat)
    requires i < 64
    ensures Mirror(Mirror(i)) == i
  {
  }

  function ByteMask(k: nat): (r: Word64)
    requires k < 8
    ensures forall i :: 0 <= i < 64 ==> r[i] == (i / 8 == k)
  {
    seq(64, i => i / 8 == k)
  }

  function ReverseBytes(x: Word64): Word64 {
    Or(Shr(And(x, ByteMask(7)), 56), Or(Shr(And(x, ByteMask(6)), 40),
    Or(Shr(And(x, ByteMask(5)), 24), Or(Shr(And(x, ByteMask(4)), 8),
    Or(Shl(And(x, ByteMask(3)), 8), Or(Shl(And(x, ByteMask(2)), 24),
    Or(Shl(And(x, ByteMask(1)), 40), Shl(And(x, ByteMask(0)), 56))))))))
  }

  lemma ReverseBytesAt(x: Word64, i: nat)
    requires i < 64
    ensures ReverseBytes(x)[i] == x[Mirror(i)]
  {
    hide Or, And, Shl, Shr, ByteMask;
    var b := i / 8;
    assert b == 0 || b == 1 || b == 2 || b == 3 || b == 4 || b == 5 || b == 6 || b == 7;
  }

  /** A byte, bit 0 first. */
  type Byte8 = s: seq<bool> | |s| == 8 witness NO_BYTE

  const NO_BYTE: seq<bool> := seq(8, _ => false)

  function NoByte(): Byte8 { [false, false, false, false, false, false, false, false] }

  function ByteAt(x: Word64, k: nat): Byte8
    requires k < 8
  {
    x[8 * k..8 * k + 8]
  }

  /** The eight bytes of a word, most significant first: struct.pack('>Q'). */
  function BytesOf(x: Word64): (d: seq<Byte8>)
    ensures |d| == 8 && forall k :: 0 <= k < 8 ==> d[k] == ByteAt(x, 7 - k)
  {
    seq(8, k requires 0 <= k < 8 => ByteAt(x, 7 - k))
  }

  function ReadU64Be(d: seq<Byte8>): (x: Word64)
    requires |d| == 8
    ensures forall i :: 0 <= i < 64 ==> x[i] == d[7 - i / 8][i % 8]
  {
    seq(64, i requires 0 <= i < 64 => d[7 - i / 8][i % 8])
  }

  function ReadU64Le(d: seq<Byte8>): (x: Word64)
    requires |d| == 8
    ensures forall i :: 0 <= i < 64 ==> x[i] == d[i / 8][i % 8]
  {
    seq(64, i requires 0 <= i < 64 => d[i / 8][i % 8])
  }

  lemma ReadBack(x: Word64)
    ensures ReadU64Be(BytesOf(x)) == x && ReadU64Le(BytesOf(x)) == ReverseBytes(x)
  {
    hide ReverseBytes;
    forall i | 0 <= i < 64
      ensures ReadU64Be(BytesOf(x))[i] == x[i] && ReadU64Le(BytesOf(x))[i] == ReverseBytes(x)[i]
    {
      ReverseBytesAt(x, i);
    }
  }
}
