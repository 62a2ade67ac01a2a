// Bit fields of opendbc/can: the C++ packer (packer.cc), the C++ parser (parser.cc) and the Python
// implementation (dbc.py). Values are raw integers, before factor and offset.

module Dbc {
  import opened Words
  import opened Bits64

  datatype SignalType = Plain | HondaChecksum | HondaCounter | ToyotaChecksum | PedalChecksum | PedalCounter
                      | VolkswagenChecksum | VolkswagenCounter | SubaruChecksum | ChryslerChecksum

  datatype Signal = Signal(name: string, b1: int, b2: int, bo: int, isSigned: bool, isLittleEndian: bool,
      kind: SignalType)

  datatype SignalValue = SignalValue(sig: Signal, raw: int)

  function ShiftOf(sig: Signal): int {
    if sig.isLittleEndian then sig.b1 else sig.bo
  }

  /** Width 1 to 63, inside the eight bytes. */
  predicate Fits(sig: Signal) {
    1 <= sig.b2 <= 63 && ShiftOf(sig) >= 0 && ShiftOf(sig) + sig.b2 <= 64
  }

  /** The bit of the signal's value stored at bit i of the packed word, if it lies in 0 .. b2. */
  function IndexAt(sig: Signal, i: nat): int
    requires i < 64
  {
    (if sig.isLittleEndian then Mirror(i) else i) - ShiftOf(sig)
  }

  predicate Covers(sig: Signal, i: nat)
    requires i < 64
  {
    0 <= IndexAt(sig, i) < sig.b2
  }

  predicate Disjoint(s: Signal, t: Signal) {
    forall i :: 0 <= i < 64 ==> !(Covers(s, i) && Covers(t, i))
  }

  // ---- Packing

  /** set_value. */
  function SetValue(ret: Word64, sig: Signal, ival: int): Word64
    requires Fits(sig)
  {
    var mask := Shl(LowMask(sig.b2), ShiftOf(sig));
    var dat := Shl(And(WordOf(ival), LowMask(sig.b2)), ShiftOf(sig));
    if sig.isLittleEndian then Or(And(ret, Not(ReverseBytes(mask))), ReverseBytes(dat))
    else Or(And(ret, Not(mask)), dat)
  }

  /** It stores the low bits of the value in the signal's own bits and touches no other. */
  lemma SetValueAt(ret: Word64, sig: Signal, ival: int, i: nat)
    requires Fits(sig) && i < 64
    ensures SetValue(ret, sig, ival)[i] == if Covers(sig, i) then Low(ival, sig.b2)[IndexAt(sig, i)] else ret[i]
  {
    hide ReverseBytes, Low, Shl, And, Or, Not, LowMask;
    LowPrefix(ival, 64, sig.b2);
    if sig.isLittleEndian {
      ReverseBytesAt(Shl(LowMask(sig.b2), sig.b1), i);
      ReverseBytesAt(Shl(And(WordOf(ival), LowMask(sig.b2)), sig.b1), i);
    }
  }

  /** The integer pack stores: a negative value is moved up by 2^b2. */
  function Stored(sig: Signal, ival: int): int
    requires Fits(sig)
  {
    if ival < 0 then Pow2(sig.b2) + ival else ival
  }

  lemma {:induction false} LowPeriodic(v: int, w: nat)
    ensures Low(Pow2(w) + v, w) == Low(v, w)
    decreases w
  {
    if w > 0 {
      assert (Pow2(w) + v) / 2 == Pow2(w - 1) + v / 2;
      LowPeriodic(v / 2, w - 1);
    }
  }

  function PackAll(vals: seq<SignalValue>): Word64
    requires AllFit(vals)
  {
    if vals == [] then NoBits()
    else
      var last := vals[|vals| - 1];
      SetValue(PackAll(vals[..|vals| - 1]), last.sig, Stored(last.sig, last.raw))
  }

  predicate AllFit(vals: seq<SignalValue>) {
    forall i :: 0 <= i < |vals| ==> Fits(vals[i].sig)
  }

  ghost predicate PairwiseDisjoint(vals: seq<SignalValue>) {
    forall i, j :: 0 <= i < j < |vals| ==> Disjoint(vals[i].sig, vals[j].sig)
  }

  /** Each bit of the packed word is a bit of the one signal that covers it, or zero. */
  lemma {:induction false} PackAllAt(vals: seq<SignalValue>, i: nat)
    requires AllFit(vals) && PairwiseDisjoint(vals) && i < 64
    ensures forall k :: 0 <= k < |vals| && Covers(vals[k].sig, i) ==>
        PackAll(vals)[i] == Low(vals[k].raw, vals[k].sig.b2)[IndexAt(vals[k].sig, i)]
    ensures (forall k :: 0 <= k < |vals| ==> !Covers(vals[k].sig, i)) ==> !PackAll(vals)[i]
  {
    hide SetValue, IndexAt, Low;
    if vals != [] {
      var init, last := vals[..|vals| - 1], vals[|vals| - 1];
      var sig, ival := last.sig, last.raw;
      PackAllAt(init, i);
      SetValueAt(PackAll(init), sig, Stored(sig, ival), i);
      LowPeriodic(ival, sig.b2);
      forall k | 0 <= k < |vals| && Covers(vals[k].sig, i)
        ensures PackAll(vals)[i] == Low(vals[k].raw, vals[k].sig.b2)[IndexAt(vals[k].sig, i)]
      {
        if k < |init| {
          assert init[k] == vals[k] && Disjoint(vals[k].sig, sig);
        }
      }
    }
  }

  // ---- Extraction

  /** tmp of MessageState::parse before sign adjustment, as bits. */
  function Extracted(be: Word64, le: Word64, sig: Signal): Word64
    requires Fits(sig)
  {
    And(Shr(if sig.isLittleEndian then le else be, ShiftOf(sig)), LowMask(sig.b2))
  }

  /** The signed or unsigned reading of a field. */
  function Signed(sig: Signal, field: nat): int
    requires Fits(sig)
  {
    if sig.isSigned && field / Pow2(sig.b2 - 1) != 0 then field - Pow2(sig.b2) else field
  }

  function Extract(be: Word64, le: Word64, sig: Signal): int
    requires Fits(sig)
  {
    Signed(sig, UInt(Extracted(be, le, sig)))
  }

  /** What a signal can hold. */
  predicate InRange(sig: Signal, v: int)
    requires Fits(sig)
  {
    if sig.isSigned then v + Pow2(sig.b2 - 1) >= 0 && v < Pow2(sig.b2 - 1) else 0 <= v < Pow2(sig.b2)
  }

  lemma {:induction false} UIntZeros(s: seq<bool>)
    requires forall i :: 0 <= i < |s| ==> !s[i]
    ensures UInt(s) == 0
  {
    if s != [] {
      UIntZeros(s[1..]);
    }
  }

  lemma {:induction false} UIntTrim(s: seq<bool>, w: nat)
    requires w <= |s| && forall i :: w <= i < |s| ==> !s[i]
    ensures UInt(s) == UInt(s[..w])
    decreases w
  {
    if w == 0 {
      UIntZeros(s);
    } else {
      UIntTrim(s[1..], w - 1);
      assert s[1..][..w - 1] == s[..w][1..];
    }
  }

  lemma ExtractedAt(be: Word64, sig: Signal, k: nat)
    requires Fits(sig) && k < sig.b2
    ensures var i := if sig.isLittleEndian then Mirror(ShiftOf(sig) + k) else ShiftOf(sig) + k;
            && IndexAt(sig, i) == k && Extracted(be, ReverseBytes(be), sig)[k] == be[i]
  {
    hide ReverseBytes;
    if sig.isLittleEndian {
      ReverseBytesAt(be, sig.b1 + k);
      MirrorTwice(sig.b1 + k);
    }
  }

  /** A word whose covered bits are those of v yields the reading of v modulo 2^b2. */
  lemma ExtractsStored(be: Word64, sig: Signal, v: int)
    requires Fits(sig)
    requires forall i :: 0 <= i < 64 && Covers(sig, i) ==> be[i] == Low(v, sig.b2)[IndexAt(sig, i)]
    ensures Extract(be, ReverseBytes(be), sig) == Signed(sig, v % Pow2(sig.b2))
  {
    hide ReverseBytes, Low;
    var x := Extracted(be, ReverseBytes(be), sig);
    forall k | 0 <= k < sig.b2
      ensures x[..sig.b2][k] == Low(v, sig.b2)[k]
    {
      ExtractedAt(be, sig, k);
    }
    assert x[..sig.b2] == Low(v, sig.b2);
    UIntTrim(x, sig.b2);
    LowUInt(v, sig.b2);
  }

  /** The reading gives back exactly the values in range. */
  lemma SignedIs(sig: Signal, v: int)
    requires Fits(sig)
    ensures Signed(sig, v % Pow2(sig.b2)) == v <==> InRange(sig, v)
  {
    var p := Pow2(sig.b2 - 1);
    assert Pow2(sig.b2) == 2 * p;
    var r := v % (2 * p);
    assert 0 <= r < 2 * p;
    HighHalf(r, p);
    if InRange(sig, v) {
      if v >= 0 {
        ModOf(v, 2 * p, 0, v);
      } else {
        ModOf(v, 2 * p, -1, v + 2 * p);
      }
    }
  }

  lemma HighHalf(r: nat, p: nat)
    requires p > 0 && r < 2 * p
    ensures r / p != 0 <==> r >= p
  {
    if r < p {
      ModOf(r, p, 0, r);
      assert r / p == 0;
    } else {
      assert r / p >= 1;
    }
  }

  /** Any set of disjoint signals, in any order, mixed byte order and signedness: extracting the k-th from
      the packed word returns its value exactly when the value is in range; other bits are zero. */
  lemma PackExtract(vals: seq<SignalValue>, k: nat)
    requires AllFit(vals) && PairwiseDisjoint(vals) && k < |vals|
    ensures var w, sig, v := PackAll(vals), vals[k].sig, vals[k].raw;
            Extract(w, ReverseBytes(w), sig) == v <==> InRange(sig, v)
    ensures forall i :: 0 <= i < 64 && (forall j :: 0 <= j < |vals| ==> !Covers(vals[j].sig, i)) ==> !PackAll(vals)[i]
  {
    hide PackAll, Extract, ReverseBytes, Low, Signed, InRange;
    forall i | 0 <= i < 64
      ensures Covers(vals[k].sig, i) ==> PackAll(vals)[i] == Low(vals[k].raw, vals[k].sig.b2)[IndexAt(vals[k].sig, i)]
      ensures (forall j :: 0 <= j < |vals| ==> !Covers(vals[j].sig, i)) ==> !PackAll(vals)[i]
    {
      PackAllAt(vals, i);
    }
    ExtractsStored(PackAll(vals), vals[k].sig, vals[k].raw);
    SignedIs(vals[k].sig, vals[k].raw);
  }

  // ---- dbc.py

  /** DBCSignal: the position as the DBC file gives it. */
  datatype DbcSignal = DbcSignal(name: string, startBit: nat, size: int, isLittleEndian: bool, isSigned: bool)

  /** b1 and bo as the code generator derives them from the DBC file. */
  function SignalOf(s: DbcSignal, kind: SignalType): Signal {
    var b1 := if s.isLittleEndian then s.startBit else s.startBit / 8 * 8 + (-(s.startBit as int) - 1) % 8;
    Signal(s.name, b1, s.size, 64 - (b1 + s.size), s.isSigned, s.isLittleEndian, kind)
  }

  datatype Given = Given(s: DbcSignal, raw: Option<int>)

  function Assignments(given: seq<Given>): seq<SignalValue> {
    if given == [] then []
    else
      var last := given[|given| - 1];
      Assignments(given[..|given| - 1])
      + if last.raw.Some? then [SignalValue(SignalOf(last.s, Plain), last.raw.value)] else []
  }

  lemma MaskedPeriodic(v: int, w: nat)
    requires w <= 64
    ensures And(WordOf(Pow2(w) + v), LowMask(w)) == And(WordOf(v), LowMask(w))
  {
    hide Low;
    LowPeriodic(v, w);
    LowPrefix(v, 64, w);
    LowPrefix(Pow2(w) + v, 64, w);
    forall i | 0 <= i < w
      ensures WordOf(Pow2(w) + v)[i] == WordOf(v)[i]
    {
      assert Low(v, 64)[..w][i] == Low(Pow2(w) + v, 64)[..w][i];
    }
  }

  /** One pass of encode's loop. */
  method EncodeOne(ret: Word64, s: DbcSignal, raw: int) returns (result: Word64)
    requires Fits(SignalOf(s, Plain))
    ensures result == SetValue(ret, SignalOf(s, Plain), Stored(SignalOf(s, Plain), raw))
  {
    hide Low, ReverseBytes, Pow2, Shl, And, Or, Not, LowMask;
    MaskedPeriodic(raw, s.size);
    var ival := raw;
    if s.isSigned && ival < 0 {
      ival := Pow2(s.size) + ival;
    }
    var shift := s.startBit as int;
    if !s.isLittleEndian {
      var b1 := s.startBit / 8 * 8 + (-(s.startBit as int) - 1) % 8;
      shift := 64 - (b1 + s.size);
    }
    var mask := Shl(LowMask(s.size), shift);
    var field := And(WordOf(ival), LowMask(s.size));
    assert field == And(WordOf(Stored(SignalOf(s, Plain), raw)), LowMask(s.size));
    var dat := Shl(field, shift);
    if s.isLittleEndian {
      mask, dat := ReverseBytes(mask), ReverseBytes(dat);
    }
    result := Or(And(ret, Not(mask)), dat);
  }

  /** encode: the bytes it returns are those the C++ packer's word is sent as. */
  method Encode(given: seq<Given>, size: nat) returns (bytes: seq<Byte8>)
    requires size <= 8
    requires forall k :: 0 <= k < |given| ==> Fits(SignalOf(given[k].s, Plain))
    ensures AllFit(Assignments(given)) && bytes == BytesOf(PackAll(Assignments(given)))[..size]
  {
    hide SetValue, BytesOf, Fits, SignalOf;
    var result := NoBits();
    for n := 0 to |given|
      invariant AllFit(Assignments(given[..n])) && result == PackAll(Assignments(given[..n]))
    {
      assert given[..n + 1][..n] == given[..n];
      var s := given[n].s;
      ghost var before := Assignments(given[..n]);
      if given[n].raw.Some? {
        result := EncodeOne(result, s, given[n].raw.value);
        ghost var after := before + [SignalValue(SignalOf(s, Plain), given[n].raw.value)];
        assert after[..|after| - 1] == before;
      } else {
        assert before + [] == before;
      }
    }
    assert given[..|given|] == given;
    bytes := BytesOf(result)[..size];
  }

  /** The value decode finds for one signal in the zero-padded data of a frame; it skips a signal that
      does not fit. */
  method DecodeSignal(x: seq<Byte8>, s: DbcSignal) returns (tmp: Option<int>)
    requires |x| <= 8 && 1 <= s.size <= 63 && (s.isLittleEndian ==> s.startBit + s.size <= 64)
    ensures var st := x + seq(8 - |x|, _ => NoByte());
            var sig := SignalOf(s, Plain);
            tmp == if Fits(sig) then Some(Extract(ReadU64Be(st), ReadU64Le(st), sig)) else None
  {
    var st := x + seq(8 - |x|, _ => NoByte());
    var tmp0, shiftAmount := ReadU64Le(st), s.startBit as int;
    if !s.isLittleEndian {
      tmp0 := ReadU64Be(st);
      var b1 := s.startBit / 8 * 8 + (-(s.startBit as int) - 1) % 8;
      shiftAmount := 64 - (b1 + s.size);
    }
    if shiftAmount < 0 {
      return None;
    }
    var field: int := UInt(And(Shr(tmp0, shiftAmount), LowMask(s.size)));
    if s.isSigned && field / Pow2(s.size - 1) != 0 {
      field := field - Pow2(s.size);
    }
    tmp := Some(field);
  }
}
