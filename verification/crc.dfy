// The three CRC loops of opendbc/can/common.cc and panda/board/crc.h against polynomial division.
// Bit strings are written with the most significant bit, or the highest power of x, first.

module Crc8 {

  type Octet = s: seq<bool> | |s| == 8 witness [false, false, false, false, false, false, false, false]

  const ONES: Octet := [true, true, true, true, true, true, true, true]
  const ZERO: Octet := [false, false, false, false, false, false, false, false]
  const POLY_1D: Octet := [false, false, false, true, true, true, false, true]
  const POLY_2F: Octet := [false, false, true, false, true, true, true, true]
  const POLY_D5: Octet := [true, true, false, true, false, true, false, true]

  function Xor(a: seq<bool>, b: seq<bool>): (r: seq<bool>)
    requires |a| == |b|
    ensures |r| == |a| && forall i :: 0 <= i < |a| ==> r[i] == (a[i] != b[i])
  {
    seq(|a|, i requires 0 <= i < |a| => a[i] != b[i])
  }

  function Zeros(n: nat): (s: seq<bool>)
    ensures |s| == n && forall i :: 0 <= i < n ==> !s[i]
  {
    seq(n, _ => false)
  }

  // ---- Polynomials over GF(2)

  /** q * (x^8 + g) + r, of length |q| + 8. */
  function Combine(q: seq<bool>, g: Octet, r: Octet): (p: seq<bool>)
    ensures |p| == |q| + 8
  {
    if q == [] then r
    else Xor(if q[0] then [true] + g + Zeros(|q| - 1) else Zeros(|q| + 8), [false] + Combine(q[1..], g, r))
  }

  /** The remainder of p by x^8 + g, by long division. */
  function Remainder(p: seq<bool>, g: Octet): Octet
    requires |p| >= 8
    decreases |p|
  {
    if |p| == 8 then p
    else if p[0] then Remainder(Xor(p[1..], g + Zeros(|p| - 9)), g)
    else Remainder(p[1..], g)
  }

  function Quotient(p: seq<bool>, g: Octet): (q: seq<bool>)
    requires |p| >= 8
    ensures |q| == |p| - 8
    decreases |p|
  {
    if |p| == 8 then []
    else [p[0]] + if p[0] then Quotient(Xor(p[1..], g + Zeros(|p| - 9)), g) else Quotient(p[1..], g)
  }

  lemma XorBack(p: seq<bool>, t: seq<bool>)
    requires |p| == |t| + 1
    ensures Xor([p[0]] + t, [false] + Xor(p[1..], t)) == p
  {
  }

  lemma XorZeros(p: seq<bool>)
    ensures Xor(p, Zeros(|p|)) == p && Zeros(|p| + 1) == [false] + Zeros(|p|)
  {
  }

  lemma CombineStep(p: seq<bool>, g: Octet, q: seq<bool>, r: Octet)
    requires |p| == |q| + 8 > 8 && q[0] == p[0]
    requires Combine(q[1..], g, r) == if p[0] then Xor(p[1..], g + Zeros(|p| - 9)) else p[1..]
    ensures Combine(q, g, r) == p
  {
    hide Xor, Zeros;
    if p[0] {
      assert [true] + g + Zeros(|q| - 1) == [true] + (g + Zeros(|q| - 1));
      XorBack(p, g + Zeros(|q| - 1));
    } else {
      XorZeros(p[1..]);
      XorBack(p, Zeros(|q| + 7));
    }
  }

  /** p = q * (x^8 + g) + r. */
  lemma {:induction false} DivisionIdentity(p: seq<bool>, g: Octet)
    requires |p| >= 8
    ensures Combine(Quotient(p, g), g, Remainder(p, g)) == p
    decreases |p|
  {
    if |p| > 8 {
      var rest := if p[0] then Xor(p[1..], g + Zeros(|p| - 9)) else p[1..];
      DivisionIdentity(rest, g);
      var q := Quotient(p, g);
      assert q[0] == p[0] && q[1..] == Quotient(rest, g);
      assert Remainder(p, g) == Remainder(rest, g);
      CombineStep(p, g, q, Remainder(p, g));
    }
  }

  /** No other quotient and remainder do. */
  lemma {:induction false} DivisionUnique(q: seq<bool>, r: Octet, q': seq<bool>, r': Octet, g: Octet)
    requires |q| == |q'| && Combine(q, g, r) == Combine(q', g, r')
    ensures q == q' && r == r'
  {
    if q != [] {
      var p, p' := Combine(q, g, r), Combine(q', g, r');
      assert p[0] == q[0] && p'[0] == q'[0];
      var s, s' := Combine(q[1..], g, r), Combine(q'[1..], g, r');
      assert s == s' by {
        forall i | 0 <= i < |s|
          ensures s[i] == s'[i]
        {
          assert p[i + 1] == p'[i + 1];
        }
      }
      DivisionUnique(q[1..], r, q'[1..], r', g);
      assert q == [q[0]] + q[1..] && q' == [q'[0]] + q'[1..];
    }
  }

  // ---- The register

  function Shift(c: Octet): Octet { c[1..] + [false] }

  /** One pass of the inner loops: shift, and subtract the polynomial when a one falls out. */
  function Step(c: Octet, g: Octet): Octet {
    if c[0] then Xor(Shift(c), g) else Shift(c)
  }

  function Steps(c: Octet, g: Octet, n: nat): Octet
    decreases n
  {
    if n == 0 then c else Steps(Step(c, g), g, n - 1)
  }

  /** The register after `m`, one octet at a time. */
  function Crc(c: Octet, g: Octet, m: seq<Octet>): Octet
    decreases |m|
  {
    if m == [] then c else Crc(Steps(Xor(c, m[0]), g, 8), g, m[1..])
  }

  /** One message bit into the register. */
  function Feed(c: Octet, g: Octet, b: bool): Octet {
    if c[0] != b then Xor(Shift(c), g) else Shift(c)
  }

  function Serial(c: Octet, g: Octet, bits: seq<bool>): Octet
    decreases |bits|
  {
    if bits == [] then c else Serial(Feed(c, g, bits[0]), g, bits[1..])
  }

  function Bits(m: seq<Octet>): seq<bool> {
    if m == [] then [] else m[0] + Bits(m[1..])
  }

  lemma FeedFirst(c: Octet, g: Octet, b: seq<bool>)
    requires 0 < |b| <= 8
    ensures Step(Xor(c, b + Zeros(8 - |b|)), g) == Xor(Feed(c, g, b[0]), b[1..] + Zeros(8 - |b[1..]|))
  {
  }

  /** Xoring the bits in first and stepping afterwards is feeding them one by one. */
  lemma {:induction false} FeedAtOnce(c: Octet, g: Octet, b: seq<bool>)
    requires |b| <= 8
    ensures Steps(Xor(c, b + Zeros(8 - |b|)), g, |b|) == Serial(c, g, b)
    decreases |b|
  {
    if b == [] {
      assert Xor(c, b + Zeros(8)) == c;
    } else {
      FeedFirst(c, g, b);
      FeedAtOnce(Feed(c, g, b[0]), g, b[1..]);
    }
  }

  lemma {:induction false} SerialConcat(c: Octet, g: Octet, a: seq<bool>, b: seq<bool>)
    ensures Serial(c, g, a + b) == Serial(Serial(c, g, a), g, b)
    decreases |a|
  {
    if a == [] {
      assert a + b == b;
    } else {
      assert (a + b)[1..] == a[1..] + b;
      SerialConcat(Feed(c, g, a[0]), g, a[1..], b);
    }
  }

  lemma {:induction false} CrcIsSerial(c: Octet, g: Octet, m: seq<Octet>)
    ensures Crc(c, g, m) == Serial(c, g, Bits(m))
    decreases |m|
  {
    if m != [] {
      assert m[0] + Zeros(0) == m[0];
      FeedAtOnce(c, g, m[0]);
      SerialConcat(c, g, m[0], Bits(m[1..]));
      CrcIsSerial(Steps(Xor(c, m[0]), g, 8), g, m[1..]);
    }
  }

  /** The message times x^8, with the initial register added at its front. */
  function Dividend(c: Octet, bits: seq<bool>): (p: seq<bool>)
    ensures |p| == |bits| + 8
  {
    Xor(bits + Zeros(8), c + Zeros(|bits|))
  }

  /** One bit fed in is one step of the long division. */
  lemma DividendStep(c: Octet, g: Octet, bits: seq<bool>)
    requires bits != []
    ensures var p := Dividend(c, bits);
            Dividend(Feed(c, g, bits[0]), bits[1..]) == if p[0] then Xor(p[1..], g + Zeros(|p| - 9)) else p[1..]
  {
    var p, q := Dividend(c, bits), Dividend(Feed(c, g, bits[0]), bits[1..]);
    forall i | 0 <= i < |q| ensures q[i] == (p[i + 1] != (p[0] && i < 8 && g[i])) {
    }
  }

  lemma {:induction false} SerialIsRemainder(c: Octet, g: Octet, bits: seq<bool>)
    ensures Serial(c, g, bits) == Remainder(Dividend(c, bits), g)
    decreases |bits|
  {
    var p := Dividend(c, bits);
    if bits == [] {
      assert p == c;
    } else {
      DividendStep(c, g, bits);
      SerialIsRemainder(Feed(c, g, bits[0]), g, bits[1..]);
    }
  }

  /** The CRC is the remainder of the message polynomial, for every polynomial, initial value and length. */
  lemma CrcIsRemainder(c: Octet, g: Octet, m: seq<Octet>)
    ensures Crc(c, g, m) == Remainder(Dividend(c, Bits(m)), g)
    ensures Combine(Quotient(Dividend(c, Bits(m)), g), g, Crc(c, g, m)) == Dividend(c, Bits(m))
  {
    CrcIsSerial(c, g, m);
    SerialIsRemainder(c, g, Bits(m));
    DivisionIdentity(Dividend(c, Bits(m)), g);
  }

  lemma {:induction false} CrcConcat(c: Octet, g: Octet, a: seq<Octet>, b: seq<Octet>)
    ensures Crc(c, g, a + b) == Crc(Crc(c, g, a), g, b)
    decreases |a|
  {
    if a == [] {
      assert a + b == b;
    } else {
      assert (a + b)[1..] == a[1..] + b;
      CrcConcat(Steps(Xor(c, a[0]), g, 8), g, a[1..], b);
    }
  }

  // ---- Error detection

  /** Every change of a single octet changes the CRC. */
  ghost predicate DetectsOctets(c: Octet, g: Octet) {
    forall a: seq<Octet>, x: Octet, y: Octet, b: seq<Octet> :: x != y ==>
        Crc(c, g, a + [x] + b) != Crc(c, g, a + [y] + b)
  }

  lemma StepInjective(c: Octet, d: Octet, g: Octet)
    requires g[7] && Step(c, g) == Step(d, g)
    ensures c == d
  {
    assert Step(c, g)[7] == c[0] && Step(d, g)[7] == d[0];
    forall i | 1 <= i < 8
      ensures c[i] == d[i]
    {
      assert Step(c, g)[i - 1] == Step(d, g)[i - 1];
    }
  }

  lemma {:induction false} StepsInjective(c: Octet, d: Octet, g: Octet, n: nat)
    requires g[7] && Steps(c, g, n) == Steps(d, g, n)
    ensures c == d
    decreases n
  {
    if n > 0 {
      StepsInjective(Step(c, g), Step(d, g), g, n - 1);
      StepInjective(c, d, g);
    }
  }

  lemma XorCancel(c: Octet, x: Octet, y: Octet)
    requires Xor(c, x) == Xor(c, y)
    ensures x == y
  {
    forall i | 0 <= i < 8
      ensures x[i] == y[i]
    {
      assert Xor(c, x)[i] == Xor(c, y)[i];
    }
  }

  lemma {:induction false} CrcInjective(c: Octet, d: Octet, g: Octet, b: seq<Octet>)
    requires g[7] && Crc(c, g, b) == Crc(d, g, b)
    ensures c == d
    decreases |b|
  {
    if b != [] {
      var x := b[0];
      CrcInjective(Steps(Xor(c, x), g, 8), Steps(Xor(d, x), g, 8), g, b[1..]);
      StepsInjective(Xor(c, x), Xor(d, x), g, 8);
      XorSwap(c, x);
      XorSwap(d, x);
      XorCancel(x, c, d);
    }
  }

  lemma XorSwap(c: Octet, x: Octet)
    ensures Xor(c, x) == Xor(x, c)
  {
  }

  lemma OddDetects(c: Octet, g: Octet, a: seq<Octet>, x: Octet, y: Octet, b: seq<Octet>)
    requires g[7] && x != y
    ensures Crc(c, g, a + [x] + b) != Crc(c, g, a + [y] + b)
  {
    CrcOneOctet(c, g, a, x, b);
    CrcOneOctet(c, g, a, y, b);
    var d := Crc(c, g, a);
    if Crc(c, g, a + [x] + b) == Crc(c, g, a + [y] + b) {
      CrcInjective(Steps(Xor(d, x), g, 8), Steps(Xor(d, y), g, 8), g, b);
      StepsInjective(Xor(d, x), Xor(d, y), g, 8);
      XorCancel(d, x, y);
      assert false;
    }
  }

  lemma CrcOneOctet(c: Octet, g: Octet, a: seq<Octet>, x: Octet, b: seq<Octet>)
    ensures Crc(c, g, a + [x] + b) == Crc(Steps(Xor(Crc(c, g, a), x), g, 8), g, b)
  {
    hide Steps;
    CrcConcat(c, g, a + [x], b);
    CrcConcat(c, g, a, [x]);
    var d := Crc(c, g, a);
    assert Crc(d, g, [x]) == Crc(Steps(Xor(d, x), g, 8), g, [x][1..]);
  }

  /** An even polynomial misses a change: 0x80 and g >> 1 leave the same register. */
  lemma EvenMisses(c: Octet, g: Octet)
    requires !g[7]
    ensures !DetectsOctets(c, g)
  {
    var top: Octet := [true] + Zeros(7);
    var half: Octet := [false] + g[..7];
    assert Step(top, g) == g == Step(half, g);
    var x, y := Xor(c, top), Xor(c, half);
    assert Xor(c, x) == top && Xor(c, y) == half;
    assert top[0] && !half[0];
    CrcOneOctet(c, g, [], x, []);
    CrcOneOctet(c, g, [], y, []);
    assert Crc(c, g, [] + [x] + []) == Crc(c, g, [] + [y] + []);
  }

  lemma DetectsExactlyOdd(c: Octet, g: Octet)
    ensures DetectsOctets(c, g) <==> g[7]
  {
    if g[7] {
      forall a: seq<Octet>, x: Octet, y: Octet, b: seq<Octet> | x != y
        ensures Crc(c, g, a + [x] + b) != Crc(c, g, a + [y] + b)
      {
        OddDetects(c, g, a, x, y, b);
      }
    } else {
      EvenMisses(c, g);
    }
  }

  // ---- The loops

  /** The inner loop of crc_checksum, gen_crc_lookup_table and pedal_checksum. */
  method ShiftEight(start: Octet, poly: Octet) returns (crc: Octet)
    ensures crc == Steps(start, poly, 8)
  {
    hide Step;
    crc := start;
    for j := 0 to 8
      invariant Steps(crc, poly, 8 - j) == Steps(start, poly, 8)
    {
      assert Steps(crc, poly, 8 - j) == Steps(Step(crc, poly), poly, 7 - j);
      crc := Step(crc, poly);
    }
  }

  function Reversed(m: seq<Octet>): (r: seq<Octet>)
    ensures |r| == |m|
  {
    if m == [] then [] else Reversed(m[1..]) + [m[0]]
  }

  /** crc_checksum of panda/board/crc.h: the buffer from its end to its start. */
  method CrcChecksum(dat: array<Octet>, len: int, poly: Octet) returns (crc: Octet)
    requires len <= dat.Length
    ensures crc == Crc(ONES, poly, Reversed(dat[..if len < 0 then 0 else len]))
  {
    hide Steps;
    crc := ONES;
    ghost var all := dat[..if len < 0 then 0 else len];
    var i := len - 1;
    assert all[..|all|] == all;
    while i >= 0
      invariant i < |all|
      invariant Crc(crc, poly, Reversed(all[..if i < 0 then 0 else i + 1])) == Crc(ONES, poly, Reversed(all))
      decreases i
    {
      ReversedLast(all[..i + 1]);
      assert all[..i + 1][..i] == all[..i];
      crc := Xor(crc, dat[i]);
      crc := ShiftEight(crc, poly);
      i := i - 1;
    }
  }

  lemma {:induction false} ReversedLast(m: seq<Octet>)
    requires m != []
    ensures Reversed(m) == [m[|m| - 1]] + Reversed(m[..|m| - 1])
    decreases |m|
  {
    if |m| > 1 {
      ReversedLast(m[1..]);
      assert m[1..][..|m| - 2] == m[..|m| - 1][1..];
    }
  }

  // ---- The lookup table

  function FromBits(s: seq<bool>): nat {
    if s == [] then 0 else 2 * FromBits(s[..|s| - 1]) + if s[|s| - 1] then 1 else 0
  }

  function ToBits(n: nat, width: nat): (s: seq<bool>)
    ensures |s| == width
  {
    if width == 0 then [] else ToBits(n / 2, width - 1) + [n % 2 == 1]
  }

  lemma {:induction false} BitsRoundTrip(s: seq<bool>)
    ensures ToBits(FromBits(s), |s|) == s
  {
    if s != [] {
      BitsRoundTrip(s[..|s| - 1]);
    }
  }

  lemma {:induction false} BitsBound(s: seq<bool>, width: nat, limit: nat)
    requires |s| <= width <= 8 && limit == [1, 2, 4, 8, 16, 32, 64, 128, 256][width]
    ensures FromBits(s) < limit
  {
    if s != [] {
      BitsBound(s[..|s| - 1], width - 1, limit / 2);
    }
  }

  function NatOf(c: Octet): (n: nat)
    ensures n < 256
  {
    BitsBound(c, 8, 256);
    FromBits(c)
  }

  function OctetOf(n: nat): Octet { ToBits(n, 8) }

  lemma OctetRoundTrip(c: Octet)
    ensures OctetOf(NatOf(c)) == c
  {
    BitsRoundTrip(c);
  }

  ghost predicate TableFor(lut: array<Octet>, poly: Octet)
    reads lut
  {
    lut.Length == 256 && forall i :: 0 <= i < 256 ==> lut[i] == Steps(OctetOf(i), poly, 8)
  }

  method GenCrcLookupTable(poly: Octet, crcLut: array<Octet>)
    requires crcLut.Length == 256
    modifies crcLut
    ensures TableFor(crcLut, poly)
  {
    hide Steps, OctetOf;
    for i := 0 to 256
      invariant forall k :: 0 <= k < i ==> crcLut[k] == Steps(OctetOf(k), poly, 8)
    {
      var crc := ShiftEight(OctetOf(i), poly);
      crcLut[i] := crc;
    }
  }

  /** The table-driven loop of volkswagen_crc over `m`. */
  method TableCrc(start: Octet, crcLut: array<Octet>, m: seq<Octet>, ghost poly: Octet) returns (crc: Octet)
    requires TableFor(crcLut, poly)
    ensures crc == Crc(start, poly, m)
  {
    hide Steps, OctetOf, NatOf;
    crc := start;
    for i := 0 to |m|
      invariant Crc(crc, poly, m[i..]) == Crc(start, poly, m)
    {
      crc := Xor(crc, m[i]);
      OctetRoundTrip(crc);
      assert m[i..][0] == m[i] && m[i..][1..] == m[i + 1..];
      crc := crcLut[NatOf(crc)];
    }
  }

  // ---- The bit-serial loop of chrysler_checksum

  const OCTET_1: Octet := [false, false, false, false, false, false, false, true]
  const OCTET_1C: Octet := [false, false, false, true, true, true, false, false]

  method ChryslerBit(checksum: Octet, bit: bool) returns (next: Octet)
    ensures next == Feed(checksum, POLY_1D, bit)
  {
    var shifted := Shift(checksum);
    if bit {
      var bitSum := if checksum[0] then OCTET_1 else OCTET_1C;
      var tempChk: Octet := shifted[..7] + [true];
      next := Xor(bitSum, tempChk);
    } else {
      var bitSum := if checksum[0] then POLY_1D else ZERO;
      next := Xor(bitSum, shifted);
    }
    assert next == Feed(checksum, POLY_1D, bit);
  }

  /** The double loop over the octets the checksum covers. */
  method ChryslerLoop(m: seq<Octet>) returns (checksum: Octet)
    ensures checksum == Crc(ONES, POLY_1D, m)
  {
    hide Feed, Steps;
    checksum := ONES;
    for j := 0 to |m|
      invariant Crc(checksum, POLY_1D, m[j..]) == Crc(ONES, POLY_1D, m)
    {
      var curr := m[j];
      ghost var before := checksum;
      for i := 0 to 8
        invariant Serial(checksum, POLY_1D, curr[i..]) == Serial(before, POLY_1D, curr)
      {
        assert curr[i..][0] == curr[i] && curr[i..][1..] == curr[i + 1..];
        checksum := ChryslerBit(checksum, curr[i]);
      }
      assert curr + Zeros(0) == curr;
      FeedAtOnce(before, POLY_1D, curr);
      assert m[j..][0] == m[j] && m[j..][1..] == m[j + 1..];
    }
  }
}
