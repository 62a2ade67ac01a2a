// The message checksums and counters of opendbc/can: computed by the packer into the frame they cover,
// checked by the parser.

module DbcCheck {
  import opened Words
  import opened Bits64
  import opened Crc8

  // ---- Sums

  /** The sum of the digits of n in the given base. */
  function DigitSum(n: nat, base: nat): nat
    requires base == 16 || base == 256
  {
    if n == 0 then 0 else n % base + DigitSum(n / base, base)
  }

  lemma DigitStep(n: nat, base: nat)
    requires (base == 16 || base == 256) && n > 0
    ensures 0 <= n / base < n && n % base >= 0 && DigitSum(n, base) == n % base + DigitSum(n / base, base)
  {
  }

  lemma DigitNone(base: nat)
    requires base == 16 || base == 256
    ensures DigitSum(0, base) == 0
  {
  }

  /** `while (n) { s += n & (base - 1); n /= base }`, for bases 16 and 256. */
  method AddDigits(s0: nat, n0: nat, base: nat) returns (s: nat)
    requires base == 16 || base == 256
    ensures s == s0 + DigitSum(n0, base)
  {
    hide DigitSum;
    assert DigitSum(0, base) == 0 by { DigitNone(base); }
    var n: nat := n0;
    s := s0;
    while n != 0
      invariant s + DigitSum(n, base) == s0 + DigitSum(n0, base)
    {
      DigitStep(n, base);
      s := s + n % base;
      n := n / base;
    }
  }

  function Covered(d: Word64, l: nat, skip: nat): nat
    requires l <= 8
  {
    UInt(Shr(Shr(d, (8 - l) * 8), skip))
  }

  function Honda(address: nat, d: Word64, l: nat): (s: nat)
    requires l <= 8
    ensures s < 16
  {
    (8 - (DigitSum(address, 16) + DigitSum(Covered(d, l, 4), 16)) + if address > 0x7FF then 3 else 0) % 16
  }

  method ComputeHonda(address: nat, d: Word64, l: nat) returns (r: nat)
    requires l <= 8
    ensures r == Honda(address, d, l)
  {
    var s := AddDigits(0, address, 16);
    s := AddDigits(s, Covered(d, l, 4), 16);
    var t := 8 - (s as int);
    if address > 0x7FF {
      t := t + 3;
    }
    r := t % 16;
  }

  function Toyota(address: nat, d: Word64, l: nat): (s: nat)
    requires l <= 8
    ensures s < 256
  {
    (l + DigitSum(address, 256) + DigitSum(Covered(d, l, 8), 256)) % 256
  }

  method ComputeToyota(address: nat, d: Word64, l: nat) returns (r: nat)
    requires l <= 8
    ensures r == Toyota(address, d, l)
  {
    var s := AddDigits(l, address, 256);
    s := AddDigits(s, Covered(d, l, 8), 256);
    r := s % 256;
  }

  /** The sum of the n low bytes. */
  function ByteSum(d: Word64, n: nat): nat
    requires n <= 8
  {
    if n == 0 then 0 else ByteSum(d, n - 1) + UInt(ByteAt(d, n - 1))
  }

  function Subaru(address: nat, d: Word64, l: nat): (s: nat)
    requires 1 <= l <= 8
    ensures s < 256
  {
    (DigitSum(address, 256) + ByteSum(Shr(d, (8 - l) * 8), l - 1)) % 256
  }

  method ComputeSubaru(address: nat, d0: Word64, l0: nat) returns (r: nat)
    requires 1 <= l0 <= 8
    ensures r == Subaru(address, d0, l0)
  {
    hide ByteSum, DigitSum;
    var start := Shr(d0, (8 - l0) * 8);
    var d, l := start, l0 - 1;
    var s := AddDigits(0, address, 256);
    assert ByteSum(start, 0) == 0 by { ByteSumStep(start, 0); }
    while l != 0
      invariant 0 <= l <= l0 - 1 && d == Shr(start, 8 * (l0 - 1 - l))
      invariant s == DigitSum(address, 256) + ByteSum(start, l0 - 1 - l)
    {
      ByteSumStep(start, l0 - 1 - l);
      s := s + UInt(ByteAt(d, 0));
      d, l := Shr(d, 8), l - 1;
    }
    r := s % 256;
  }

  lemma ByteSumStep(start: Word64, n: nat)
    requires n < 8
    ensures ByteSum(start, 0) == 0
    ensures ByteSum(start, n + 1) == ByteSum(start, n) + UInt(ByteAt(Shr(start, 8 * n), 0))
    ensures Shr(Shr(start, 8 * n), 8) == Shr(start, 8 * (n + 1))
  {
    assert ByteAt(Shr(start, 8 * n), 0) == ByteAt(start, n);
  }

  // ---- CRCs

  /** Byte k of a word as the CRC loops see it, its high bit first. */
  function OctetAt(d: Word64, k: nat): Octet
    requires k < 8
  {
    [d[8 * k + 7], d[8 * k + 6], d[8 * k + 5], d[8 * k + 4], d[8 * k + 3], d[8 * k + 2], d[8 * k + 1], d[8 * k]]
  }

  function Octets(d: Word64, from: nat, to: nat): (m: seq<Octet>)
    requires from <= to <= 8
    ensures |m| == to - from && forall k :: 0 <= k < |m| ==> m[k] == OctetAt(d, from + k)
  {
    if from == to then [] else Octets(d, from, to - 1) + [OctetAt(d, to - 1)]
  }

  function Inverted(c: Octet): Octet { Xor(c, ONES) }

  function Chrysler(le: Word64, l: nat): (s: nat)
    requires 1 <= l <= 8
    ensures s < 256
  {
    NatOf(Inverted(Crc(ONES, POLY_1D, Octets(le, 0, l - 1))))
  }

  method ComputeChrysler(le: Word64, l: nat) returns (r: nat)
    requires 1 <= l <= 8
    ensures r == Chrysler(le, l)
  {
    var checksum := ChryslerLoop(Octets(le, 0, l - 1));
    r := NatOf(Inverted(checksum));
  }

  /** The last byte volkswagen_crc adds, by address and message counter. */
  function Magic(address: nat, counter: nat): byte
    requires counter < 16
  {
    MagicRow(address)[counter]
  }

  function Same(b: byte): (r: seq<byte>)
    ensures |r| == 16
  {
    seq(16, _ => b)
  }

  function MagicRow(address: nat): (r: seq<byte>)
    ensures |r| == 16
  {
    match address
    case 0x86 => Same(0x86)
    case 0x9F => Same(0xF5)
    case 0xAD => [0x3F, 0x69, 0x39, 0xDC, 0x94, 0xF9, 0x14, 0x64, 0xD8, 0x6A, 0x34, 0xCE, 0xA2, 0x55, 0xB5, 0x2C]
    case 0xFD => [0xB4, 0xEF, 0xF8, 0x49, 0x1E, 0xE5, 0xC2, 0xC0, 0x97, 0x19, 0x3C, 0xC9, 0xF1, 0x98, 0xD6, 0x61]
    case 0x106 => Same(0x07)
    case 0x117 => Same(0x16)
    case 0x120 => [0xC4, 0xE2, 0x4F, 0xE4, 0xF8, 0x2F, 0x56, 0x81, 0x9F, 0xE5, 0x83, 0x44, 0x05, 0x3F, 0x97, 0xDF]
    case 0x121 => [0xE9, 0x65, 0xAE, 0x6B, 0x7B, 0x35, 0xE5, 0x5F, 0x4E, 0xC7, 0x86, 0xA2, 0xBB, 0xDD, 0xEB, 0xB4]
    case 0x122 => [0x37, 0x7D, 0xF3, 0xA9, 0x18, 0x46, 0x6D, 0x4D, 0x3D, 0x71, 0x92, 0x9C, 0xE5, 0x32, 0x10, 0xB9]
    case 0x126 => Same(0xDA)
    case 0x12B => [0x6A, 0x38, 0xB4, 0x27, 0x22, 0xEF, 0xE1, 0xBB, 0xF8, 0x80, 0x84, 0x49, 0xC7, 0x9E, 0x1E, 0x2B]
    case 0x12E => [0xF8, 0xE5, 0x97, 0xC9, 0xD6, 0x07, 0x47, 0x21, 0x66, 0xDD, 0xCF, 0x6F, 0xA1, 0x94, 0x74, 0x63]
    case 0x187 => [0x7F, 0xED, 0x17, 0xC2, 0x7C, 0xEB, 0x44, 0x21, 0x01, 0xFA, 0xDB, 0x15, 0x4A, 0x6B, 0x23, 0x05]
    case 0x30C => Same(0x0F)
    case 0x30F => Same(0x0C)
    case 0x324 => Same(0x27)
    case 0x3C0 => Same(0xC3)
    case 0x65D => [0xAC, 0xB3, 0xAB, 0xEB, 0x7A, 0xE1, 0x3B, 0xF7, 0x73, 0xBA, 0x7C, 0x9E, 0x06, 0x5F, 0x02, 0xD9]
    case _ => Same(0x00)
  }

  /** The low nibble of byte 1. */
  function CounterNibble(le: Word64): (c: nat)
    ensures c < 16
  {
    (if le[11] then 8 else 0) + (if le[10] then 4 else 0) + (if le[9] then 2 else 0) + (if le[8] then 1 else 0)
  }

  /** The CRC of bytes 1 to l - 1 and the magic byte, inverted. */
  function Volkswagen(address: nat, le: Word64, l: nat): (s: nat)
    requires 1 <= l <= 8
    ensures s < 256
  {
    NatOf(Inverted(Crc(ONES, POLY_2F, Octets(le, 1, l) + [OctetOf(Magic(address, CounterNibble(le)))])))
  }

  method ComputeVolkswagen(address: nat, le: Word64, l: nat, crcLut: array<Octet>) returns (r: nat)
    requires 1 <= l <= 8 && TableFor(crcLut, POLY_2F)
    ensures r == Volkswagen(address, le, l)
  {
    hide OctetOf, NatOf, Steps, Magic;
    var crc := TableCrc(ONES, crcLut, Octets(le, 1, l), POLY_2F);
    CrcConcat(ONES, POLY_2F, Octets(le, 1, l), [OctetOf(Magic(address, CounterNibble(le)))]);
    crc := TableCrc(crc, crcLut, [OctetOf(Magic(address, CounterNibble(le)))], POLY_2F);
    r := NatOf(Inverted(crc));
  }

  function Pedal(be: Word64, l: nat): (s: nat)
    requires 1 <= l <= 8
    ensures s < 256
  {
    NatOf(Crc(ONES, POLY_D5, Octets(Shr(Shr(be, (8 - l) * 8), 8), 0, l - 1)))
  }

  method ComputePedal(be: Word64, l: nat) returns (r: nat)
    requires 1 <= l <= 8
    ensures r == Pedal(be, l)
  {
    hide Steps, NatOf;
    var d := Shr(Shr(be, (8 - l) * 8), 8);
    var crc := ONES;
    for i := 0 to l - 1
      invariant crc == Crc(ONES, POLY_D5, Octets(d, 0, i))
    {
      CrcConcat(ONES, POLY_D5, Octets(d, 0, i), [OctetAt(d, i)]);
      crc := Xor(crc, OctetAt(d, i));
      crc := ShiftEight(crc, POLY_D5);
    }
    r := NatOf(crc);
  }

  /** The bytes of the frame in the order they travel, as octets. */
  function FrameOctets(be: Word64, n: nat): (m: seq<Octet>)
    requires n <= 8
    ensures |m| == n && forall k :: 0 <= k < n ==> m[k] == OctetAt(be, 7 - k)
  {
    seq(n, k requires 0 <= k < n => OctetAt(be, 7 - k))
  }

  lemma {:induction false} ReversedAt(m: seq<Octet>, k: nat)
    requires k < |m|
    ensures Reversed(m)[k] == m[|m| - 1 - k]
    decreases |m|
  {
    if |m| > 1 && k < |m| - 1 {
      ReversedAt(m[1..], k);
    }
  }

  /** pedal_checksum is crc_checksum with 0xD5 over the bytes before the checksum. */
  lemma PedalIsCrcChecksum(be: Word64, l: nat)
    requires 1 <= l <= 8
    ensures Pedal(be, l) == NatOf(Crc(ONES, POLY_D5, Reversed(FrameOctets(be, l - 1))))
  {
    hide NatOf, Crc;
    var d := Shr(Shr(be, (8 - l) * 8), 8);
    var m := FrameOctets(be, l - 1);
    forall k | 0 <= k < l - 1
      ensures Octets(d, 0, l - 1)[k] == Reversed(m)[k]
    {
      ReversedAt(m, k);
      assert OctetAt(d, k) == OctetAt(be, k + 9 - l);
    }
    assert Octets(d, 0, l - 1) == Reversed(m);
  }
}
