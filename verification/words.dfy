// Machine words and byte strings shared by the models.

module Words {

  const TWO_32: int := 0x1_0000_0000
  const TWO_63: int := 0x8000_0000_0000_0000
  const TWO_64: int := 0x1_0000_0000_0000_0000

  type byte = x: int | 0 <= x < 256
  type word = x: int | 0 <= x < TWO_32 witness 0

  datatype Option<+T> = None | Some(value: T)

  /** Rounds up to a multiple of eight, as the ALIGN macro does. */
  function Align(n: nat): (r: nat)
    ensures r % 8 == 0 && n <= r < n + 8
  {
    (n + 7) / 8 * 8
  }

  /** The `count` low bytes of `v`, least significant first. */
  function LittleEndian(v: nat, count: nat): (s: seq<byte>)
    ensures |s| == count
  {
    if count == 0 then [] else [v % 256] + LittleEndian(v / 256, count - 1)
  }

  function FromLittleEndian(s: seq<byte>): nat {
    if s == [] then 0 else s[0] + 256 * FromLittleEndian(s[1..])
  }

  function Min(a: int, b: int): int { if a < b then a else b }

  function Pow2(n: nat): (p: nat)
    ensures p > 0
  {
    if n == 0 then 1 else 2 * Pow2(n - 1)
  }

  function Power256(n: nat): (p: nat)
    ensures p > 0
  {
    if n == 0 then 1 else 256 * Power256(n - 1)
  }

  lemma {:induction false} LittleEndianRoundTrip(v: nat, count: nat)
    requires v < Power256(count)
    ensures FromLittleEndian(LittleEndian(v, count)) == v
  {
    if count > 0 {
      var s := LittleEndian(v, count);
      assert s[1..] == LittleEndian(v / 256, count - 1);
      LittleEndianRoundTrip(v / 256, count - 1);
    }
  }

  /** The eight bytes of a signed 64-bit integer. */
  function EncodeInt64(v: int): (s: seq<byte>)
    requires -TWO_63 <= v < TWO_63
    ensures |s| == 8
  {
    LittleEndian(if v < 0 then v + TWO_64 else v, 8)
  }

  function DecodeInt64(s: seq<byte>): int {
    var u := FromLittleEndian(s);
    if u < TWO_63 then u else u - TWO_64
  }

  lemma Int64RoundTrip(v: int)
    requires -TWO_63 <= v < TWO_63
    ensures DecodeInt64(EncodeInt64(v)) == v
  {
    assert Power256(8) == TWO_64 by {
      assert Power256(4) == TWO_32;
      assert Power256(6) == 0x1_0000_0000_0000;
    }
    LittleEndianRoundTrip(if v < 0 then v + TWO_64 else v, 8);
  }

  /** `data` with `bytes` stored at `at`. */
  function Put(data: seq<byte>, at: nat, bytes: seq<byte>): (r: seq<byte>)
    requires at + |bytes| <= |data|
    ensures |r| == |data|
    ensures r[at..at + |bytes|] == bytes
    ensures forall i :: 0 <= i < |data| && !(at <= i < at + |bytes|) ==> r[i] == data[i]
  {
    data[..at] + bytes + data[at + |bytes|..]
  }
}
