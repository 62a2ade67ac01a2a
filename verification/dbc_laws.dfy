// What the checksums, the CRC polynomials and the signal positions of opendbc/can mean on the wire, said
// without the functions that compute them.

module DbcLaws {
  import opened Words
  import opened Bits64
  import opened Crc8
  import opened Dbc
  import opened DbcCheck
  import DbcMessage

  // ---- Where a signal lies in the frame

  /** The start bit of a big-endian signal is its top bit; the lower ones follow downwards through each byte
      and on from the top of the next. */
  lemma BigEndianOnWire(ret: Word64, s: DbcSignal, kind: SignalType, raw: int, k: nat)
    requires !s.isLittleEndian && Fits(SignalOf(s, kind)) && k < s.size
    ensures var n := s.startBit / 8 * 8 + 7 - s.startBit % 8 + k;
            && n < 64
            && BytesOf(SetValue(ret, SignalOf(s, kind), raw))[n / 8][7 - n % 8] == Low(raw, s.size)[s.size - 1 - k]
  {
    hide SetValue, Low, Fits, SignalOf, Covers, IndexAt, BytesOf;
    var n := s.startBit / 8 * 8 + 7 - s.startBit % 8 + k;
    BigEndianIndex(s, kind, k);
    SetValueAt(ret, SignalOf(s, kind), raw, 63 - n);
    WireBit(SetValue(ret, SignalOf(s, kind), raw), n);
  }

  lemma BigEndianIndex(s: DbcSignal, kind: SignalType, k: nat)
    requires !s.isLittleEndian && Fits(SignalOf(s, kind)) && k < s.size
    ensures var sig, n := SignalOf(s, kind), s.startBit / 8 * 8 + 7 - s.startBit % 8 + k;
            && sig.b2 == s.size && n < 64 && Covers(sig, 63 - n) && IndexAt(sig, 63 - n) == s.size - 1 - k
  {
  }

  lemma WireBit(w: Word64, n: nat)
    requires n < 64
    ensures BytesOf(w)[n / 8][7 - n % 8] == w[63 - n]
  {
  }

  /** The start bit of a little-endian signal is its lowest bit; the higher ones follow upwards. */
  lemma LittleEndianOnWire(ret: Word64, s: DbcSignal, kind: SignalType, raw: int, k: nat)
    requires s.isLittleEndian && Fits(SignalOf(s, kind)) && k < s.size
    ensures var n := s.startBit + k;
            n < 64 && BytesOf(SetValue(ret, SignalOf(s, kind), raw))[n / 8][n % 8] == Low(raw, s.size)[k]
  {
    hide SetValue, Low;
    var n := s.startBit + k;
    MirrorTwice(n);
    SetValueAt(ret, SignalOf(s, kind), raw, Mirror(n));
  }

  /** The octets the CRC loops read, by the little-endian word, are the bytes of the frame in order. */
  lemma OctetIsFrameByte(be: Word64, k: nat, b: nat)
    requires k < 8 && b < 8
    ensures OctetAt(ReverseBytes(be), k)[7 - b] == BytesOf(be)[k][b]
  {
    hide ReverseBytes, OctetAt, BytesOf;
    ReverseBytesAt(be, 8 * k + b);
    OctetBit(ReverseBytes(be), k, b);
    FrameBit(be, k, b);
  }

  lemma OctetBit(d: Word64, k: nat, b: nat)
    requires k < 8 && b < 8
    ensures OctetAt(d, k)[7 - b] == d[8 * k + b]
  {
  }

  lemma FrameBit(be: Word64, k: nat, b: nat)
    requires k < 8 && b < 8
    ensures 8 * k + b < 64 && BytesOf(be)[k][b] == be[Mirror(8 * k + b)]
  {
    assert Mirror(8 * k + b) == 8 * (7 - k) + b;
  }

  // ---- CRCs

  function Nibble(b3: bool, b2: bool, b1: bool, b0: bool): (r: bv8)
    ensures r & 0xF0 == 0
  {
    (if b3 then 8 else 0) | (if b2 then 4 else 0) | (if b1 then 2 else 0) | (if b0 then 1 else 0)
  }

  /** An octet as a byte of the machine. */
  function ByteOf(c: Octet): bv8 {
    (Nibble(c[0], c[1], c[2], c[3]) << 4) | Nibble(c[4], c[5], c[6], c[7])
  }

  lemma Polynomials()
    ensures ByteOf(POLY_1D) == 0x1D && ByteOf(POLY_2F) == 0x2F && ByteOf(POLY_D5) == 0xD5
    ensures ByteOf(ONES) == 0xFF && ByteOf(ZERO) == 0
  {
  }

  /** The register shifted once, as bytes are. */
  function Shifted(b: bv8, poly: bv8): bv8 {
    if b & 0x80 != 0 then (b << 1) ^ poly else b << 1
  }

  function ShiftedBy(b: bv8, poly: bv8, n: nat): bv8
    decreases n
  {
    if n == 0 then b else ShiftedBy(Shifted(b, poly), poly, n - 1)
  }

  function ByteCrc(b: bv8, poly: bv8, m: seq<bv8>): bv8
    decreases |m|
  {
    if m == [] then b else ByteCrc(ShiftedBy(b ^ m[0], poly, 8), poly, m[1..])
  }

  lemma NibblesShift(c: Octet)
    ensures ByteOf(Shift(c)) == ByteOf(c) << 1
    ensures ByteOf(c) & 0x80 != 0 <==> c[0]
  {
    var s := Shift(c);
    assert s[0] == c[1] && s[1] == c[2] && s[2] == c[3] && s[3] == c[4];
    assert s[4] == c[5] && s[5] == c[6] && s[6] == c[7] && !s[7];
  }

  lemma StepIsShift(c: Octet, g: Octet)
    ensures ByteOf(Step(c, g)) == Shifted(ByteOf(c), ByteOf(g))
  {
    hide ByteOf, Xor, Shift;
    NibblesShift(c);
    XorOfBytes(Shift(c), g);
  }

  lemma {:induction false} StepsAreShifts(c: Octet, g: Octet, n: nat)
    ensures ByteOf(Steps(c, g, n)) == ShiftedBy(ByteOf(c), ByteOf(g), n)
    decreases n
  {
    hide ByteOf, Shifted, Step;
    if n > 0 {
      StepIsShift(c, g);
      StepsAreShifts(Step(c, g), g, n - 1);
    }
  }

  /** Exclusive or of half bytes, bit by bit. */
  lemma XorNibbles(a: (bool, bool, bool, bool), b: (bool, bool, bool, bool), d: (bool, bool, bool, bool))
    requires d.0 == (a.0 != b.0) && d.1 == (a.1 != b.1) && d.2 == (a.2 != b.2) && d.3 == (a.3 != b.3)
    ensures Nibble(d.0, d.1, d.2, d.3) == Nibble(a.0, a.1, a.2, a.3) ^ Nibble(b.0, b.1, b.2, b.3)
  {
  }

  lemma XorHalves(a: bv8, b: bv8, a': bv8, b': bv8)
    requires a' & 0xF0 == 0 && b' & 0xF0 == 0
    ensures (((a ^ b) << 4) | (a' ^ b')) == ((a << 4) | a') ^ ((b << 4) | b')
  {
  }

  lemma XorOfBytes(c: Octet, x: Octet)
    ensures ByteOf(Xor(c, x)) == ByteOf(c) ^ ByteOf(x)
  {
    hide Nibble, Xor;
    var s := Xor(c, x);
    XorNibbles((c[0], c[1], c[2], c[3]), (x[0], x[1], x[2], x[3]), (s[0], s[1], s[2], s[3]));
    XorNibbles((c[4], c[5], c[6], c[7]), (x[4], x[5], x[6], x[7]), (s[4], s[5], s[6], s[7]));
    XorHalves(Nibble(c[0], c[1], c[2], c[3]), Nibble(x[0], x[1], x[2], x[3]),
              Nibble(c[4], c[5], c[6], c[7]), Nibble(x[4], x[5], x[6], x[7]));
  }

  function BytesOfOctets(m: seq<Octet>): (r: seq<bv8>)
    ensures |r| == |m|
  {
    seq(|m|, i requires 0 <= i < |m| => ByteOf(m[i]))
  }

  /** The CRC as register arithmetic on bytes. */
  lemma {:induction false} CrcOnBytes(c: Octet, g: Octet, m: seq<Octet>)
    ensures ByteOf(Crc(c, g, m)) == ByteCrc(ByteOf(c), ByteOf(g), BytesOfOctets(m))
    decreases |m|
  {
    hide ByteOf, Steps, ShiftedBy, Xor;
    if m != [] {
      var c' := Steps(Xor(c, m[0]), g, 8);
      XorOfBytes(c, m[0]);
      StepsAreShifts(Xor(c, m[0]), g, 8);
      CrcOnBytes(c', g, m[1..]);
      assert BytesOfOctets(m)[1..] == BytesOfOctets(m[1..]);
    }
  }

  function EightShifts(b: bv8, poly: bv8): bv8 {
    Shifted(Shifted(Shifted(Shifted(Shifted(Shifted(Shifted(Shifted(
      b, poly), poly), poly), poly), poly), poly), poly), poly)
  }

  lemma ShiftEightTimes(b: bv8, poly: bv8)
    ensures ShiftedBy(b, poly, 8) == EightShifts(b, poly)
  {
    hide Shifted;
  }

  /** The digits 1 to 9, over which the catalogues of CRCs state their check values. */
  const CHECK: seq<bv8> := [0x31, 0x32, 0x33, 0x34, 0x35, 0x36, 0x37, 0x38, 0x39]

  lemma NextByte(i: nat, b: bv8, poly: bv8, b': bv8)
    requires i < 9 && EightShifts(b ^ CHECK[i], poly) == b'
    ensures ByteCrc(b, poly, CHECK[i..]) == ByteCrc(b', poly, CHECK[i + 1..])
  {
    hide EightShifts;
    ShiftEightTimes(b ^ CHECK[i], poly);
    assert CHECK[i..][1..] == CHECK[i + 1..];
  }

  lemma NoBytes(b: bv8, poly: bv8)
    ensures ByteCrc(b, poly, CHECK[9..]) == b
  {
  }

  /** CRC-8/SAE-J1850: 4B after the final inversion. */
  lemma J1850Check()
    ensures ByteCrc(0xFF, 0x1D, CHECK) == 0x4B ^ 0xFF
  {
    hide ByteCrc;
    assert CHECK[0..] == CHECK;
    NextByte(0, 0xFF, 0x1D, 0x93); NextByte(1, 0x93, 0x1D, 0xBC); NextByte(2, 0xBC, 0x1D, 0x9D);
    NextByte(3, 0x9D, 0x1D, 0x54); NextByte(4, 0x54, 0x1D, 0x89); NextByte(5, 0x89, 0x1D, 0xD7);
    NextByte(6, 0xD7, 0x1D, 0xB2); NextByte(7, 0xB2, 0x1D, 0xF4); NextByte(8, 0xF4, 0x1D, 0xB4);
    NoBytes(0xB4, 0x1D);
  }

  /** CRC-8/AUTOSAR: DF after the final inversion. */
  lemma AutosarCheck()
    ensures ByteCrc(0xFF, 0x2F, CHECK) == 0xDF ^ 0xFF
  {
    hide ByteCrc;
    assert CHECK[0..] == CHECK;
    NextByte(0, 0xFF, 0x2F, 0xB0); NextByte(1, 0xB0, 0x2F, 0xBD); NextByte(2, 0xBD, 0x2F, 0x56);
    NextByte(3, 0x56, 0x2F, 0xCB); NextByte(4, 0xCB, 0x2F, 0x6D); NextByte(5, 0x6D, 0x2F, 0x6E);
    NextByte(6, 0x6E, 0x2F, 0x30); NextByte(7, 0x30, 0x2F, 0x57); NextByte(8, 0x57, 0x2F, 0x20);
    NoBytes(0x20, 0x2F);
  }

  /** CRC-8/DVB-S2, which has the polynomial of the pedal: BC. */
  lemma DvbCheck()
    ensures ByteCrc(0x00, 0xD5, CHECK) == 0xBC
  {
    hide ByteCrc;
    assert CHECK[0..] == CHECK;
    NextByte(0, 0x00, 0xD5, 0x23); NextByte(1, 0x23, 0xD5, 0x87); NextByte(2, 0x87, 0xD5, 0xE7);
    NextByte(3, 0xE7, 0xD5, 0x8A); NextByte(4, 0x8A, 0xD5, 0x64); NextByte(5, 0x64, 0xD5, 0xB0);
    NextByte(6, 0xB0, 0xD5, 0xBB); NextByte(7, 0xBB, 0xD5, 0x45); NextByte(8, 0x45, 0xD5, 0xBC);
    NoBytes(0xBC, 0xD5);
  }

  lemma CrcOne(c: Octet, g: Octet, m: seq<Octet>, x: Octet)
    ensures Crc(c, g, m + [x]) == Steps(Xor(Crc(c, g, m), x), g, 8)
  {
    hide Steps;
    var r := Crc(c, g, m);
    CrcConcat(c, g, m, [x]);
    assert Crc(r, g, [x]) == Crc(Steps(Xor(r, x), g, 8), g, []);
  }

  /** A message followed by its inverted CRC leaves a register that depends on the polynomial only. */
  lemma InvertedResidue(c: Octet, g: Octet, m: seq<Octet>, x: Octet)
    requires x == Inverted(Crc(c, g, m))
    ensures ByteOf(Crc(c, g, m + [x])) == ShiftedBy(0xFF, ByteOf(g), 8)
  {
    hide Steps, ByteOf, ShiftedBy;
    CrcOne(c, g, m, x);
    assert Xor(Crc(c, g, m), x) == ONES;
    StepsAreShifts(ONES, g, 8);
    Polynomials();
  }

  lemma Residues()
    ensures ShiftedBy(0xFF, 0x1D, 8) == 0xC4 && ShiftedBy(0xFF, 0x2F, 8) == 0x42 && ShiftedBy(0, 0xD5, 8) == 0
  {
    ShiftEightTimes(0xFF, 0x1D);
    ShiftEightTimes(0xFF, 0x2F);
    ShiftEightTimes(0, 0xD5);
  }

  lemma NatOfInjective(x: Octet, y: Octet)
    requires NatOf(x) == NatOf(y)
    ensures x == y
  {
    hide NatOf, OctetOf;
    OctetRoundTrip(x);
    OctetRoundTrip(y);
  }

  /** A Chrysler frame, its checksum included, leaves the residue C4 of CRC-8/SAE-J1850. */
  lemma ChryslerResidue(le: Word64, l: nat, x: Octet)
    requires 1 <= l <= 8 && NatOf(x) == Chrysler(le, l)
    ensures ByteOf(Crc(ONES, POLY_1D, Octets(le, 0, l - 1) + [x])) == 0xC4
  {
    hide NatOf, Crc, ByteOf, ShiftedBy;
    var m := Octets(le, 0, l - 1);
    NatOfInjective(x, Inverted(Crc(ONES, POLY_1D, m)));
    InvertedResidue(ONES, POLY_1D, m, x);
    Polynomials();
    Residues();
  }

  /** A Volkswagen frame from its second byte on, with the magic byte and then its checksum, leaves the residue
      42 of CRC-8/AUTOSAR. */
  lemma VolkswagenResidue(address: nat, le: Word64, l: nat, x: Octet)
    requires 1 <= l <= 8 && NatOf(x) == Volkswagen(address, le, l)
    ensures var magic := OctetOf(Magic(address, CounterNibble(le)));
            ByteOf(Crc(ONES, POLY_2F, Octets(le, 1, l) + [magic] + [x])) == 0x42
  {
    hide NatOf, Crc, ByteOf, ShiftedBy, OctetOf, Magic, CounterNibble;
    var m := Octets(le, 1, l) + [OctetOf(Magic(address, CounterNibble(le)))];
    NatOfInjective(x, Inverted(Crc(ONES, POLY_2F, m)));
    InvertedResidue(ONES, POLY_2F, m, x);
    Polynomials();
    Residues();
  }

  /** A pedal message, last byte first and its checksum after that, leaves zero. */
  lemma PedalResidue(be: Word64, l: nat, x: Octet)
    requires 1 <= l <= 8 && NatOf(x) == Pedal(be, l)
    ensures ByteOf(Crc(ONES, POLY_D5, Reversed(FrameOctets(be, l - 1)) + [x])) == 0
  {
    hide NatOf, Crc, ByteOf, ShiftedBy, Steps;
    var m := Reversed(FrameOctets(be, l - 1));
    PedalIsCrcChecksum(be, l);
    NatOfInjective(x, Crc(ONES, POLY_D5, m));
    CrcOne(ONES, POLY_D5, m, x);
    assert Xor(x, x) == ZERO;
    StepsAreShifts(ZERO, POLY_D5, 8);
    Polynomials();
    Residues();
  }

  /** Checksum bits go into the frame as the octet's bits, the highest first. */
  lemma NatOfBits(c: Octet, b: nat)
    requires b < 8
    ensures Low(NatOf(c), 8)[b] == c[7 - b]
  {
    FromBitsLow(c, b);
  }

  lemma {:induction false} FromBitsLow(s: seq<bool>, b: nat)
    requires b < |s|
    ensures Low(FromBits(s), |s|)[b] == s[|s| - 1 - b]
    decreases |s|
  {
    var init := s[..|s| - 1];
    assert FromBits(s) / 2 == FromBits(init);
    if b > 0 {
      FromBitsLow(init, b - 1);
    }
  }

  /** The magic byte is chosen by the low half of the second byte of the frame. */
  lemma CounterNibbleBits(le: Word64)
    ensures CounterNibble(le) == UInt(ByteAt(le, 1)[..4])
  {
    hide UInt;
    var s := ByteAt(le, 1)[..4];
    assert s[0] == le[8] && s[1] == le[9] && s[2] == le[10] && s[3] == le[11];
    assert s[1..][0] == s[1] && s[1..][1..][0] == s[2] && s[1..][1..][1..][0] == s[3];
    UIntNext(s);
    UIntNext(s[1..]);
    UIntNext(s[1..][1..]);
    UIntNext(s[1..][1..][1..]);
  }

  lemma UIntNext(s: seq<bool>)
    ensures UInt([]) == 0
    ensures s != [] ==> UInt(s) == (if s[0] then 1 else 0) + 2 * UInt(s[1..]) && (|s| == 1 ==> s[1..] == [])
  {
  }

  // ---- Sums

  /** The sum of the groups of w bits. */
  function GroupSum(s: seq<bool>, w: nat): nat
    requires w > 0
    decreases |s|
  {
    if |s| <= w then UInt(s) else UInt(s[..w]) + GroupSum(s[w..], w)
  }

  lemma {:induction false} UIntSplit(s: seq<bool>, w: nat)
    requires w <= |s|
    ensures UInt(s) == UInt(s[..w]) + Pow2(w) * UInt(s[w..])
    decreases w
  {
    hide UInt, Pow2;
    PowNext(w);
    if w > 0 {
      UIntSplit(s[1..], w - 1);
      assert s[..w][1..] == s[1..][..w - 1] && s[1..][w - 1..] == s[w..];
      UIntNext(s);
      UIntNext(s[..w]);
      assert 2 * (Pow2(w - 1) * UInt(s[w..])) == Pow2(w) * UInt(s[w..]) by {
        Doubled(Pow2(w - 1), UInt(s[w..]));
      }
    } else {
      UIntNext(s[..0]);
      assert s[0..] == s && s[..0] == [];
    }
  }

  lemma PowNext(w: nat)
    ensures Pow2(0) == 1 && (w > 0 ==> Pow2(w) == 2 * Pow2(w - 1))
  {
  }

  lemma Doubled(p: nat, u: nat)
    ensures 2 * (p * u) == (2 * p) * u
  {
  }

  /** Adding up the digits of a number to base 16 or 256 adds up its groups of four or eight bits. */
  lemma {:induction false} DigitsAreGroups(s: seq<bool>, w: nat)
    requires w == 4 || w == 8
    ensures DigitSum(UInt(s), if w == 4 then 16 else 256) == GroupSum(s, w)
    decreases |s|
  {
    hide UInt, DigitSum, Pow2;
    var base, u := if w == 4 then 16 else 256, UInt(s);
    assert Pow2(w) == base by { PowersOfTwo(); }
    DigitNext(u, base);
    if |s| <= w {
      UIntBound(s);
      PowMonotone(|s|, w);
      LowDigit(u, 0, u, base);
    } else {
      UIntSplit(s, w);
      UIntBound(s[..w]);
      DigitsAreGroups(s[w..], w);
      LowDigit(UInt(s[..w]), UInt(s[w..]), u, base);
    }
  }

  lemma PowersOfTwo()
    ensures Pow2(4) == 16 && Pow2(8) == 256
  {
    assert Pow2(4) == 16;
  }

  lemma LowDigit(low: nat, high: nat, u: nat, base: nat)
    requires (base == 16 || base == 256) && low < base && u == low + base * high
    ensures u % base == low && u / base == high
  {
  }

  lemma {:induction false} PowMonotone(a: nat, b: nat)
    requires a <= b
    ensures Pow2(a) <= Pow2(b)
    decreases b
  {
    if a < b {
      PowMonotone(a, b - 1);
    }
  }

  lemma CoveredBits(d: Word64, l: nat, skip: nat)
    requires 1 <= l <= 8 && skip <= 8
    ensures Covered(d, l, skip) == UInt(d[(8 - l) * 8 + skip..])
  {
    hide UInt;
    var from := (8 - l) * 8 + skip;
    var s := Shr(Shr(d, (8 - l) * 8), skip);
    UIntTrim(s, 64 - from);
    assert s[..64 - from] == d[from..];
  }

  /** All the nibbles of a Honda message, address, data and checksum, add up to 8 modulo 16, or 11 with an
      extended address. */
  lemma HondaTotal(address: nat, d: Word64, l: nat)
    requires 1 <= l <= 8
    ensures (Honda(address, d, l) + DigitSum(address, 16) + GroupSum(d[68 - 8 * l..], 4)) % 16
         == if address < 0x800 then 8 else 11
  {
    hide DigitSum, GroupSum, UInt, Covered;
    CoveredBits(d, l, 4);
    DigitsAreGroups(d[68 - 8 * l..], 4);
  }

  /** A Toyota checksum is the sum of the length, the address bytes and all data bytes before it. */
  lemma ToyotaTotal(address: nat, d: Word64, l: nat)
    requires 1 <= l <= 8
    ensures Toyota(address, d, l) == (l + DigitSum(address, 256) + GroupSum(d[72 - 8 * l..], 8)) % 256
  {
    hide DigitSum, GroupSum, UInt, Covered;
    CoveredBits(d, l, 8);
    DigitsAreGroups(d[72 - 8 * l..], 8);
  }

  /** A Subaru checksum is the sum of the address bytes and all data bytes after it. */
  lemma SubaruTotal(address: nat, d: Word64, l: nat)
    requires 1 <= l <= 8
    ensures Subaru(address, d, l) == (DigitSum(address, 256) + GroupSum(d[64 - 8 * l..56], 8)) % 256
  {
    hide DigitSum, GroupSum, ByteSum;
    var s := Shr(d, (8 - l) * 8);
    BytesAreGroups(s, l - 1);
    assert s[..8 * (l - 1)] == d[64 - 8 * l..56];
  }

  lemma {:induction false} BytesAreGroups(s: Word64, n: nat)
    requires n <= 8
    ensures ByteSum(s, n) == GroupSum(s[..8 * n], 8)
  {
    hide UInt;
    if n == 0 {
      UIntNext(s[..0]);
    } else if n > 1 {
      BytesAreGroups(s, n - 1);
      GroupSnoc(s[..8 * (n - 1)], ByteAt(s, n - 1));
      assert s[..8 * n] == s[..8 * (n - 1)] + ByteAt(s, n - 1);
    } else {
      assert s[..8] == ByteAt(s, 0) && ByteSum(s, 0) == 0;
    }
  }

  lemma {:induction false} GroupSnoc(a: seq<bool>, b: seq<bool>)
    requires |a| % 8 == 0 && |a| > 0 && |b| == 8
    ensures GroupSum(a + b, 8) == GroupSum(a, 8) + UInt(b)
    decreases |a|
  {
    hide UInt;
    assert (a + b)[..8] == a[..8] && (a + b)[8..] == a[8..] + b;
    if |a| > 8 {
      GroupSnoc(a[8..], b);
    } else {
      assert a[8..] + b == b && a[..8] == a;
    }
  }

  lemma DigitNext(n: nat, base: nat)
    requires base == 16 || base == 256
    ensures DigitSum(0, base) == 0 && DigitSum(n, base) == n % base + DigitSum(n / base, base)
  {
  }

  /** The address enters digit by digit. */
  lemma AddressNibbles(address: nat)
    requires address < 0x1000
    ensures DigitSum(address, 16) == address / 256 + address / 16 % 16 + address % 16
  {
    hide DigitSum;
    var high := address / 16;
    DigitNext(address, 16);
    TwoNibbles(high);
    assert high / 16 == address / 256;
  }

  lemma TwoNibbles(n: nat)
    requires n < 0x100
    ensures DigitSum(n, 16) == n / 16 + n % 16
  {
    hide DigitSum;
    DigitNext(n, 16);
    DigitNext(n / 16, 16);
  }

  lemma AddressBytes(address: nat)
    requires address < 0x1_0000
    ensures DigitSum(address, 256) == address / 256 + address % 256
  {
    hide DigitSum;
    DigitNext(address, 256);
    DigitNext(address / 256, 256);
  }

  // ---- By type of signal

  /** `c` is the right checksum, seen from the frame: a total, or the residue of a CRC run over it as well. */
  ghost predicate Right(kind: SignalType, address: nat, be: Word64, l: nat, c: int)
    requires DbcMessage.CheckedChecksum(kind) && 1 <= l <= 8
  {
    match kind
    case HondaChecksum =>
      && 0 <= c < 16
      && (c + DigitSum(address, 16) + GroupSum(be[68 - 8 * l..], 4)) % 16 == if address < 0x800 then 8 else 11
    case ToyotaChecksum =>
      0 <= c < 256 && c == (l + DigitSum(address, 256) + GroupSum(be[72 - 8 * l..], 8)) % 256
    case SubaruChecksum =>
      0 <= c < 256 && c == (DigitSum(address, 256) + GroupSum(be[64 - 8 * l..56], 8)) % 256
    case ChryslerChecksum =>
      exists x: Octet :: NatOf(x) == c
        && ByteOf(Crc(ONES, POLY_1D, Octets(ReverseBytes(be), 0, l - 1) + [x])) == 0xC4
    case VolkswagenChecksum =>
      var magic := OctetOf(Magic(address, CounterNibble(ReverseBytes(be))));
      exists x: Octet :: NatOf(x) == c
        && ByteOf(Crc(ONES, POLY_2F, Octets(ReverseBytes(be), 1, l) + [magic] + [x])) == 0x42
    case _ =>
      exists x: Octet :: NatOf(x) == c
        && ByteOf(Crc(ONES, POLY_D5, Reversed(FrameOctets(be, l - 1)) + [x])) == 0
  }

  /** Each type of checksum signal has its own checksum. */
  lemma ChecksumIsRight(kind: SignalType, address: nat, be: Word64, l: nat)
    requires DbcMessage.CheckedChecksum(kind) && 1 <= l <= 8
    ensures Right(kind, address, be, l, DbcMessage.Checksum(kind, address, be, l))
  {
    hide NatOf, Crc, ByteOf, Honda, Toyota, Subaru, DigitSum, GroupSum, Magic, CounterNibble, OctetOf, ReverseBytes;
    match kind {
      case HondaChecksum => HondaTotal(address, be, l);
      case ToyotaChecksum => ToyotaTotal(address, be, l);
      case SubaruChecksum => SubaruTotal(address, be, l);
      case ChryslerChecksum =>
        var le := ReverseBytes(be);
        ChryslerResidue(le, l, Inverted(Crc(ONES, POLY_1D, Octets(le, 0, l - 1))));
      case VolkswagenChecksum =>
        var le := ReverseBytes(be);
        var magic := OctetOf(Magic(address, CounterNibble(le)));
        VolkswagenResidue(address, le, l, Inverted(Crc(ONES, POLY_2F, Octets(le, 1, l) + [magic])));
      case PedalChecksum =>
        var m := Reversed(FrameOctets(be, l - 1));
        PedalIsCrcChecksum(be, l);
        PedalResidue(be, l, Crc(ONES, POLY_D5, m));
    }
  }

  /** So the checksum read back from a packed word is right for that word. */
  lemma PackedIsRight(m: DbcMessage.Message, ret: Word64)
    requires DbcMessage.WellFormed(m) && DbcMessage.Lookup(m.sigs, "CHECKSUM").Some?
    requires DbcMessage.PackedChecksum(DbcMessage.Lookup(m.sigs, "CHECKSUM").value.kind)
    ensures var sig, w := DbcMessage.Lookup(m.sigs, "CHECKSUM").value, DbcMessage.PutChecksum(m, ret);
            1 <= m.size <= 8 && Right(sig.kind, m.address, w, m.size, Extract(w, ReverseBytes(w), sig))
  {
    hide Right, Extract, ReverseBytes, DbcMessage.PutChecksum, DbcMessage.Checksum;
    var kind := DbcMessage.Lookup(m.sigs, "CHECKSUM").value.kind;
    DbcMessage.ChecksumHolds(m, ret);
    ChecksumIsRight(kind, m.address, DbcMessage.PutChecksum(m, ret), m.size);
  }
}
