// What the functions of FIPS 180-4 in Sha1 mean, said without them.

module Octets {
  lemma From0(v: int)
    requires 0 <= v < 32
    ensures (v as bv8) as int == v
  {
  }

  lemma From32(v: int)
    requires 32 <= v < 64
    ensures (v as bv8) as int == v
  {
  }

  lemma From64(v: int)
    requires 64 <= v < 96
    ensures (v as bv8) as int == v
  {
  }

  lemma From96(v: int)
    requires 96 <= v < 128
    ensures (v as bv8) as int == v
  {
  }

  lemma From128(v: int)
    requires 128 <= v < 160
    ensures (v as bv8) as int == v
  {
  }

  lemma From160(v: int)
    requires 160 <= v < 192
    ensures (v as bv8) as int == v
  {
  }

  lemma From192(v: int)
    requires 192 <= v < 224
    ensures (v as bv8) as int == v
  {
  }

  lemma From224(v: int)
    requires 224 <= v < 256
    ensures (v as bv8) as int == v
  {
  }

  /** Casting a number below 256 to an octet and back. */
  lemma OctetValue(v: int)
    requires 0 <= v < 256
    ensures (v as bv8) as int == v
  {
    if v < 32 {
      From0(v);
    } else if v < 64 {
      From32(v);
    } else if v < 96 {
      From64(v);
    } else if v < 128 {
      From96(v);
    } else if v < 160 {
      From128(v);
    } else if v < 192 {
      From160(v);
    } else if v < 224 {
      From192(v);
    } else {
      From224(v);
    }
  }
}

module Sha1Laws {
  import opened Octets
  import opened Words
  import opened Sha1
  import opened Limbs

  // ---- Words

  lemma RotlBits(x: Word32)
    ensures (x << 1) | (x >> 31) == if x & 0x8000_0000 == 0 then x << 1 else (x << 1) | 1
  {
  }

  /** Rotating by one place doubles, with the carry brought round. */
  lemma RotlDoubles(x: Word32)
    ensures Rotl(1, x) == if x & 0x8000_0000 == 0 then x << 1 else (x << 1) | 1
  {
    RotlBits(x);
  }

  /** The other amounts repeat that, or undo it. */
  lemma RotlRepeats(x: Word32)
    ensures Rotl(5, x) == Rotl(1, Rotl(1, Rotl(1, Rotl(1, Rotl(1, x)))))
  {
  }

  lemma RotlInverts(x: Word32)
    ensures Rotl(1, Rotl(1, Rotl(30, x))) == x
  {
  }

  /** Add is the sum modulo 2^32. */
  lemma AddIsModular(x: Word32, y: Word32)
    ensures Add(x, y) as bv64 == (x as bv64 + y as bv64) & 0xffff_ffff
  {
  }

  /** Parity has the bits that an odd number of x, y and z have. */
  lemma ParityIsOdd(x: Word32, y: Word32, z: Word32)
    ensures Parity(x, y, z) == (x & y & z) | (x & !y & !z) | (!x & y & !z) | (!x & !y & z)
  {
  }

  /** Four octets are the digits of a word to base 256, the first the highest. */
  lemma WordIsHorner(s: seq<Octet>, at: nat)
    requires at + 4 <= |s|
    ensures BigEndianWord(s, at)
         == ((s[at] as bv32 * 256 + s[at + 1] as bv32) * 256 + s[at + 2] as bv32) * 256 + s[at + 3] as bv32
  {
  }

  lemma OctetsOfWord(w: Word32)
    ensures |WordOctets(w)| == 4 && BigEndianWord(WordOctets(w), 0) == w
  {
  }

  // ---- Constants

  /** Each constant is the integer part of 2^30 times the square root of 2, 3, 5 or 10. */
  lemma ConstantIsRoot(t: nat)
    requires t < 80
    ensures var k, m := K(t) as nat, if t < 20 then 2 else if t < 40 then 3 else if t < 60 then 5 else 10;
            k * k <= 0x1000_0000_0000_0000 * m < (k + 1) * (k + 1)
  {
  }

  /** The initial hash value is the hexadecimal digits counted up and down again, lowest octet first. */
  lemma InitialCounts()
    ensures WordOctets(INITIAL.a) == [0x67, 0x45, 0x23, 0x01] && WordOctets(INITIAL.b) == [0xef, 0xcd, 0xab, 0x89]
    ensures INITIAL.c == !INITIAL.a && INITIAL.d == !INITIAL.b
    ensures WordOctets(INITIAL.e) == [0xc3, 0xd2, 0xe1, 0xf0]
  {
  }

  // ---- Padding

  /** The number whose big-endian octets are `s`. */
  function Value(s: seq<Octet>): nat {
    if s == [] then 0 else 256 * Value(s[..|s| - 1]) + Digit(s[|s| - 1])
  }

  function Digit(b: Octet): nat { b as nat }

  lemma ValueNext(s: seq<Octet>, i: nat)
    requires i < |s|
    ensures Value([]) == 0 && Value(s[..i + 1]) == 256 * Value(s[..i]) + Digit(s[i])
  {
    hide Digit;
    assert s[..i + 1][..i] == s[..i];
  }

  lemma LengthOctet(bits: nat, i: nat)
    requires i < 8
    ensures Digit(Length64(bits)[i]) == bits / Power256(7 - i) % 256
  {
    hide Power256;
    OctetValue(bits / Power256(7 - i) % 256);
  }

  lemma Powers()
    ensures Power256(0) == 1 && Power256(1) == 0x100 && Power256(2) == 0x1_0000 && Power256(3) == 0x100_0000
    ensures Power256(4) == 0x1_0000_0000 && Power256(5) == 0x100_0000_0000
    ensures Power256(6) == 0x1_0000_0000_0000 && Power256(7) == 0x100_0000_0000_0000
    ensures Power256(8) == 0x1_0000_0000_0000_0000
  {
    assert Power256(4) == 0x1_0000_0000;
  }

  /** The first i octets are worth the bits above the others. */
  lemma {:induction false} LengthPrefix(bits: nat, i: nat)
    requires bits < 0x1_0000_0000_0000_0000 && i <= 8
    ensures Value(Length64(bits)[..i]) == bits / Power256(8 - i)
  {
    hide Length64, LengthByte, Value, Power256, Digit;
    var s := Length64(bits);
    ValueNext(s, 0);
    Powers();
    if i == 0 {
      assert s[..0] == [];
    } else {
      LengthPrefix(bits, i - 1);
      ValueNext(s, i - 1);
      LengthOctet(bits, i - 1);
      PowerNext(8 - i);
      NextDigit(bits, Power256(8 - i), Power256(9 - i));
    }
  }

  lemma PowerNext(n: nat)
    ensures Power256(n) > 0 && Power256(n + 1) == 256 * Power256(n)
  {
  }

  lemma LengthValue(bits: nat)
    requires bits < 0x1_0000_0000_0000_0000
    ensures Value(Length64(bits)) == bits
  {
    hide Length64, Value;
    LengthPrefix(bits, 8);
    assert Length64(bits)[..8] == Length64(bits);
  }

  lemma NextDigit(v: nat, p: nat, next: nat)
    requires p > 0 && next == 256 * p
    ensures v / p == v / next * 256 + v / p % 256
  {
    var q, r := v / p, v % p;
    var d := q % 256;
    assert v == next * (q / 256) + (p * d + r) by {
      Regroup(p, q / 256, d);
    }
    assert 0 <= p * d + r < next by {
      BelowNext(p, d);
    }
    RemainderUnique(v, next, q / 256, p * d + r);
  }

  lemma Regroup(p: nat, q: nat, d: nat)
    ensures p * (256 * q + d) == 256 * p * q + p * d
  {
  }

  lemma BelowNext(p: nat, d: nat)
    requires d < 256
    ensures 0 <= p * d <= p * 255
  {
  }

  /**
   * The padded message is the message, a single one bit, as few zero bits as
   * make the whole a number of blocks, and the bit length as a 64-bit number.
   */
  lemma PaddingSays(m: seq<Octet>)
    requires |m| < 0x2000_0000_0000_0000
    ensures var p := Pad(m);
            && |p| % 64 == 0 && |m| + 9 <= |p| < |m| + 73
            && p[..|m|] == m && p[|m|] == 0x80 && (forall i :: |m| < i < |p| - 8 ==> p[i] == 0)
            && Value(p[|p| - 8..]) == 8 * |m|
  {
    hide Length64, Value;
    var p, bits := Pad(m), 8 * |m|;
    PaddedWhole(m);
    assert p[|p| - 8..] == Length64(bits);
    LengthValue(bits);
  }
}
