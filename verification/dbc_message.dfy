// Whole messages: CANPacker::pack (packer.cc) against MessageState::parse (parser.cc).

module DbcMessage {
  import opened Words
  import opened Bits64
  import opened Crc8
  import opened Dbc
  import opened DbcCheck

  const MAX_BAD_COUNTER: nat := 5

  datatype Message = Message(address: nat, size: nat, sigs: seq<Signal>)

  datatype NamedValue = NamedValue(name: string, raw: int)

  predicate MessageFits(m: Message) {
    1 <= m.size <= 8 && forall i :: 0 <= i < |m.sigs| ==> Fits(m.sigs[i])
  }

  /** signal_lookup: the last signal entered under a name. */
  function Lookup(sigs: seq<Signal>, name: string): (r: Option<Signal>)
    ensures r.Some? ==> r.value in sigs && r.value.name == name
  {
    if sigs == [] then None
    else if sigs[|sigs| - 1].name == name then Some(sigs[|sigs| - 1])
    else Lookup(sigs[..|sigs| - 1], name)
  }

  predicate DistinctNames(sigs: seq<Signal>) {
    forall i, j :: 0 <= i < j < |sigs| ==> sigs[i].name != sigs[j].name
  }

  lemma {:induction false} LookupFinds(sigs: seq<Signal>, k: nat)
    requires DistinctNames(sigs) && k < |sigs|
    ensures Lookup(sigs, sigs[k].name) == Some(sigs[k])
  {
    if k < |sigs| - 1 {
      LookupFinds(sigs[..|sigs| - 1], k);
    }
  }

  // ---- Checksums by type

  predicate PackedChecksum(kind: SignalType) {
    kind.HondaChecksum? || kind.ToyotaChecksum? || kind.VolkswagenChecksum? || kind.SubaruChecksum?
        || kind.ChryslerChecksum?
  }

  predicate CheckedChecksum(kind: SignalType) { PackedChecksum(kind) || kind.PedalChecksum? }

  predicate CounterKind(kind: SignalType) { kind.HondaCounter? || kind.VolkswagenCounter? || kind.PedalCounter? }

  function Checksum(kind: SignalType, address: nat, be: Word64, size: nat): nat
    requires CheckedChecksum(kind) && 1 <= size <= 8
  {
    match kind
    case HondaChecksum => Honda(address, be, size)
    case ToyotaChecksum => Toyota(address, be, size)
    case VolkswagenChecksum => Volkswagen(address, ReverseBytes(be), size)
    case SubaruChecksum => Subaru(address, be, size)
    case ChryslerChecksum => Chrysler(ReverseBytes(be), size)
    case _ => Pedal(be, size)
  }

  method ComputeChecksum(kind: SignalType, address: nat, be: Word64, le: Word64, size: nat, crcLut: array<Octet>)
    returns (s: nat)
    requires CheckedChecksum(kind) && 1 <= size <= 8 && le == ReverseBytes(be) && TableFor(crcLut, POLY_2F)
    ensures s == Checksum(kind, address, be, size)
  {
    hide ReverseBytes, TableFor;
    match kind {
      case HondaChecksum => s := ComputeHonda(address, be, size);
      case ToyotaChecksum => s := ComputeToyota(address, be, size);
      case VolkswagenChecksum => s := ComputeVolkswagen(address, le, size, crcLut);
      case SubaruChecksum => s := ComputeSubaru(address, be, size);
      case ChryslerChecksum => s := ComputeChrysler(le, size);
      case _ => s := ComputePedal(be, size);
    }
  }

  /** Where process_dbc.py requires the checksum to be, with the byte pinned to the one the sum leaves out. */
  predicate Placed(sig: Signal, size: nat) {
    && Fits(sig) && !sig.isSigned && 1 <= size <= 8
    && match sig.kind
       case HondaChecksum => !sig.isLittleEndian && sig.b2 == 4 && sig.bo == 8 * (8 - size)
       case ToyotaChecksum => !sig.isLittleEndian && sig.b2 == 8 && sig.bo == 8 * (8 - size)
       case ChryslerChecksum => !sig.isLittleEndian && sig.b2 == 8 && sig.bo == 8 * (8 - size)
       case VolkswagenChecksum => sig.isLittleEndian && sig.b2 == 8 && sig.b1 == 0
       case SubaruChecksum => sig.isLittleEndian && sig.b2 == 8 && sig.b1 == 0
       case _ => false
  }

  ghost predicate SameOutside(w: Word64, w': Word64, sig: Signal) {
    forall i :: 0 <= i < 64 && !Covers(sig, i) ==> w[i] == w'[i]
  }

  lemma OctetsAgree(le: Word64, le': Word64, from: nat, to: nat)
    requires from <= to <= 8 && forall i :: 8 * from <= i < 8 * to ==> le[i] == le'[i]
    ensures Octets(le, from, to) == Octets(le', from, to)
  {
    forall k | 0 <= k < to - from
      ensures Octets(le, from, to)[k] == Octets(le', from, to)[k]
    {
    }
  }

  lemma {:induction false} ByteSumAgree(d: Word64, d': Word64, n: nat)
    requires n <= 8 && forall i :: 0 <= i < 8 * n ==> d[i] == d'[i]
    ensures ByteSum(d, n) == ByteSum(d', n)
  {
    if n > 0 {
      ByteSumAgree(d, d', n - 1);
      assert ByteAt(d, n - 1) == ByteAt(d', n - 1);
    }
  }

  /** Bits of the reversed word outside a byte of the field. */
  lemma ReversedAgree(w: Word64, w': Word64, from: nat, to: nat)
    requires from <= to <= 8 && forall i :: 0 <= i < 64 && from <= 7 - i / 8 < to ==> w[i] == w'[i]
    ensures forall i :: 8 * from <= i < 8 * to ==> ReverseBytes(w)[i] == ReverseBytes(w')[i]
  {
    hide ReverseBytes;
    forall i | 8 * from <= i < 8 * to
      ensures ReverseBytes(w)[i] == ReverseBytes(w')[i]
    {
      ReverseBytesAt(w, i);
      ReverseBytesAt(w', i);
    }
  }

  /** Writing the checksum never changes the bits it is computed over. */
  lemma ChecksumIgnoresItself(sig: Signal, address: nat, w: Word64, w': Word64, size: nat)
    requires Placed(sig, size) && SameOutside(w, w', sig)
    ensures PackedChecksum(sig.kind) && Checksum(sig.kind, address, w, size) == Checksum(sig.kind, address, w', size)
  {
    hide ReverseBytes, DigitSum, UInt, Steps, NatOf, MagicRow, OctetOf, Octets, ByteSum, Crc;
    match sig.kind {
      case HondaChecksum => assert Shr(Shr(w, (8 - size) * 8), 4) == Shr(Shr(w', (8 - size) * 8), 4);
      case ToyotaChecksum => assert Shr(Shr(w, (8 - size) * 8), 8) == Shr(Shr(w', (8 - size) * 8), 8);
      case SubaruChecksum => ByteSumAgree(Shr(w, (8 - size) * 8), Shr(w', (8 - size) * 8), size - 1);
      case ChryslerChecksum =>
        ReversedAgree(w, w', 0, size - 1);
        OctetsAgree(ReverseBytes(w), ReverseBytes(w'), 0, size - 1);
      case VolkswagenChecksum =>
        ReversedAgree(w, w', 1, 8);
        OctetsAgree(ReverseBytes(w), ReverseBytes(w'), 1, size);
    }
  }

  // ---- Packing

  function PackSignals(m: Message, given: seq<NamedValue>): Word64
    requires MessageFits(m)
  {
    if given == [] then NoBits()
    else
      var ret, last := PackSignals(m, given[..|given| - 1]), given[|given| - 1];
      match Lookup(m.sigs, last.name)
      case None => ret
      case Some(sig) => SetValue(ret, sig, Stored(sig, last.raw))
  }

  function PutChecksum(m: Message, ret: Word64): Word64
    requires MessageFits(m)
  {
    match Lookup(m.sigs, "CHECKSUM")
    case None => ret
    case Some(sig) =>
        if PackedChecksum(sig.kind) then SetValue(ret, sig, Checksum(sig.kind, m.address, ret, m.size)) else ret
  }

  /** A message asked for a counter it does not define is returned as it is, without a checksum. */
  function Packed(m: Message, given: seq<NamedValue>, counter: int): Word64
    requires MessageFits(m)
  {
    var ret := PackSignals(m, given);
    if counter < 0 then PutChecksum(m, ret)
    else match Lookup(m.sigs, "COUNTER")
      case None => ret
      case Some(sig) => PutChecksum(m, SetValue(ret, sig, counter))
  }

  /** CANPacker::pack. */
  method Pack(m: Message, given: seq<NamedValue>, counter: int, crcLut: array<Octet>) returns (ret: Word64)
    requires MessageFits(m) && TableFor(crcLut, POLY_2F)
    ensures ret == Packed(m, given, counter)
  {
    hide SetValue, Checksum, TableFor, ReverseBytes, Stored;
    ret := NoBits();
    for n := 0 to |given|
      invariant ret == PackSignals(m, given[..n])
    {
      assert given[..n + 1][..n] == given[..n];
      var found := Lookup(m.sigs, given[n].name);
      if found.Some? {
        ret := SetValue(ret, found.value, Stored(found.value, given[n].raw));
      }
    }
    assert given[..|given|] == given;
    if counter >= 0 {
      var found := Lookup(m.sigs, "COUNTER");
      if found.None? {
        return;
      }
      ret := SetValue(ret, found.value, counter);
    }
    var found := Lookup(m.sigs, "CHECKSUM");
    if found.Some? && PackedChecksum(found.value.kind) {
      var chksm := ComputeChecksum(found.value.kind, m.address, ret, ReverseBytes(ret), m.size, crcLut);
      ret := SetValue(ret, found.value, chksm);
    }
  }

  /** A word in which no bit outside the message's signals is set. */
  ghost predicate Inside(m: Message, w: Word64) {
    forall i :: 0 <= i < 64 && w[i] ==> exists k :: 0 <= k < |m.sigs| && Covers(m.sigs[k], i)
  }

  lemma SetKeepsInside(m: Message, w: Word64, sig: Signal, v: int)
    requires MessageFits(m) && Inside(m, w) && sig in m.sigs
    ensures Inside(m, SetValue(w, sig, v))
  {
    hide SetValue, Covers;
    forall i | 0 <= i < 64 && SetValue(w, sig, v)[i]
      ensures exists k :: 0 <= k < |m.sigs| && Covers(m.sigs[k], i)
    {
      SetValueAt(w, sig, v, i);
      if Covers(sig, i) {
        var k :| 0 <= k < |m.sigs| && m.sigs[k] == sig;
        assert Covers(m.sigs[k], i);
      }
    }
  }

  lemma {:induction false} PackSignalsInside(m: Message, given: seq<NamedValue>)
    requires MessageFits(m)
    ensures Inside(m, PackSignals(m, given))
  {
    hide SetValue, Inside;
    if given == [] {
      NothingSet(m);
    } else {
      var last := given[|given| - 1];
      PackSignalsInside(m, given[..|given| - 1]);
      match Lookup(m.sigs, last.name)
      case None =>
      case Some(sig) => SetKeepsInside(m, PackSignals(m, given[..|given| - 1]), sig, Stored(sig, last.raw));
    }
  }

  lemma NothingSet(m: Message)
    ensures Inside(m, NoBits())
  {
  }

  lemma PackedInside(m: Message, given: seq<NamedValue>, counter: int)
    requires MessageFits(m)
    ensures Inside(m, Packed(m, given, counter))
  {
    hide SetValue, Inside, Checksum;
    var ret := PackSignals(m, given);
    PackSignalsInside(m, given);
    if counter >= 0 && Lookup(m.sigs, "COUNTER").Some? {
      SetKeepsInside(m, ret, Lookup(m.sigs, "COUNTER").value, counter);
      ret := SetValue(ret, Lookup(m.sigs, "COUNTER").value, counter);
    }
    var found := Lookup(m.sigs, "CHECKSUM");
    if found.Some? && PackedChecksum(found.value.kind) {
      SetKeepsInside(m, ret, found.value, Checksum(found.value.kind, m.address, ret, m.size));
    }
  }

  /** Every signal lies in the bytes that are sent. */
  ghost predicate InBytes(m: Message) {
    forall k, i :: 0 <= k < |m.sigs| && 0 <= i < 64 && Covers(m.sigs[k], i) ==> i >= 8 * (8 - m.size)
  }

  /** The frame as sent, and as the parser pads it again. */
  function Frame(w: Word64, size: nat): (d: seq<Byte8>)
    requires size <= 8
    ensures |d| == 8
  {
    BytesOf(w)[..size] + seq(8 - size, _ => NoByte())
  }

  lemma FrameIsWhole(m: Message, w: Word64)
    requires MessageFits(m) && InBytes(m) && Inside(m, w)
    ensures Frame(w, m.size) == BytesOf(w)
  {
    hide Covers;
    forall j | m.size <= j < 8
      ensures BytesOf(w)[j] == NoByte()
    {
      assert forall i :: 0 <= i < 8 * (8 - m.size) ==> !w[i];
    }
  }

  // ---- Parsing

  datatype Track = Track(counter: nat, fail: nat, ok: bool)

  /** update_counter_generic; both counters are bytes. */
  function CounterStep(counter: nat, fail: nat, v: int, cntSize: nat): Track {
    var c := v % 256;
    if (counter + 1) % Pow2(cntSize) != v then
      var f := (fail + 1) % 256;
      Track(c, f, f < MAX_BAD_COUNTER)
    else Track(c, if fail > 0 then fail - 1 else fail, true)
  }

  datatype Options = Options(address: nat, size: nat, sigs: seq<Signal>, ignoreChecksum: bool, ignoreCounter: bool)

  predicate OptionsFit(o: Options) {
    1 <= o.size <= 8 && forall i :: 0 <= i < |o.sigs| ==> Fits(o.sigs[i])
  }

  /** The checks of one signal of a frame. */
  function CheckOne(o: Options, sig: Signal, be: Word64, t: Track): Track
    requires 1 <= o.size <= 8 && Fits(sig)
  {
    var tmp := Extract(be, ReverseBytes(be), sig);
    if !o.ignoreChecksum && CheckedChecksum(sig.kind) && Checksum(sig.kind, o.address, be, o.size) != tmp then
      Track(t.counter, t.fail, false)
    else if !o.ignoreCounter && CounterKind(sig.kind) then CounterStep(t.counter, t.fail, tmp, sig.b2)
    else t
  }

  /** The first n signals, stopping at the first check that fails. */
  function CheckAll(o: Options, n: nat, be: Word64, t: Track): Track
    requires OptionsFit(o) && n <= |o.sigs|
  {
    if n == 0 then t
    else
      var before := CheckAll(o, n - 1, be, t);
      if before.ok then CheckOne(o, o.sigs[n - 1], be, before) else before
  }

  /** The checks of the first signals up to and including the i-th pass. */
  predicate Passes(o: Options, i: nat, be: Word64, t: Track)
    requires OptionsFit(o) && i < |o.sigs|
  {
    CheckAll(o, i + 1, be, t).ok
  }

  class MessageState {
    const options: Options
    var vals: seq<int>
    var seen: int
    var counter: nat
    var counterFail: nat

    constructor (options: Options)
      ensures this.options == options && counter == 0 && counterFail == 0 && |vals| == |options.sigs|
    {
      this.options := options;
      vals := seq(|options.sigs|, _ => 0);
      seen, counter, counterFail := 0, 0, 0;
    }

    method UpdateCounterGeneric(v: int, cntSize: nat) returns (ok: bool)
      modifies this`counter, this`counterFail
      ensures Track(counter, counterFail, ok) == CounterStep(old(counter), old(counterFail), v, cntSize)
    {
      var oldCounter := counter;
      counter := v % 256;
      if (oldCounter + 1) % Pow2(cntSize) != v {
        counterFail := (counterFail + 1) % 256;
        if counterFail >= MAX_BAD_COUNTER {
          return false;
        }
      } else if counterFail > 0 {
        counterFail := counterFail - 1;
      }
      ok := true;
    }

    method Parse(sec: int, dat: seq<Byte8>, crcLut: array<Octet>) returns (ok: bool)
      requires |dat| == 8 && OptionsFit(options) && |vals| == |options.sigs| && TableFor(crcLut, POLY_2F)
      modifies this
      ensures |vals| == |options.sigs|
      ensures Track(counter, counterFail, ok)
          == CheckAll(options, |options.sigs|, ReadU64Be(dat), Track(old(counter), old(counterFail), true))
      ensures ok ==> forall i :: 0 <= i < |vals| ==> vals[i] == Extract(ReadU64Be(dat), ReadU64Le(dat), options.sigs[i])
      ensures var t := Track(old(counter), old(counterFail), true);
              forall i :: 0 <= i < |vals| ==>
                vals[i] == if Passes(options, i, ReadU64Be(dat), t)
                           then Extract(ReadU64Be(dat), ReadU64Le(dat), options.sigs[i]) else old(vals)[i]
      ensures seen == if ok then sec else old(seen)
    {
      hide Checksum, Extracted, Signed, TableFor, ReverseBytes, CounterStep, Pow2;
      var be, le := ReadU64Be(dat), ReadU64Le(dat);
      LittleIsReversed(dat);
      ghost var start := Track(counter, counterFail, true);
      var i := 0;
      while i < |options.sigs|
        invariant 0 <= i <= |options.sigs| && |vals| == |options.sigs| && seen == old(seen)
        invariant Track(counter, counterFail, true) == CheckAll(options, i, be, start)
        invariant forall k :: 0 <= k < i ==> vals[k] == Extract(be, le, options.sigs[k])
        invariant forall k :: i <= k < |vals| ==> vals[k] == old(vals)[k]
      {
        OkBefore(options, i, be, start);
        var sig := options.sigs[i];
        var tmp := Extract(be, le, sig);
        if !options.ignoreChecksum && CheckedChecksum(sig.kind) {
          var s := ComputeChecksum(sig.kind, options.address, be, le, options.size, crcLut);
          if s != tmp {
            StoppedAt(options, i, be, start);
            return false;
          }
        }
        if !options.ignoreCounter && CounterKind(sig.kind) {
          ok := UpdateCounterGeneric(tmp, sig.b2);
          if !ok {
            StoppedAt(options, i, be, start);
            return false;
          }
        }
        vals := vals[i := tmp];
        i := i + 1;
      }
      OkBefore(options, i, be, start);
      seen := sec;
      ok := true;
    }
  }

  lemma {:induction false} OkBefore(o: Options, n: nat, be: Word64, t: Track)
    requires OptionsFit(o) && n <= |o.sigs| && CheckAll(o, n, be, t).ok
    ensures forall k :: 0 <= k < n ==> Passes(o, k, be, t)
  {
    hide CheckOne;
    if n > 0 {
      OkBefore(o, n - 1, be, t);
      assert Passes(o, n - 1, be, t);
    }
  }

  lemma StoppedAt(o: Options, i: nat, be: Word64, t: Track)
    requires OptionsFit(o) && i < |o.sigs| && !CheckAll(o, i + 1, be, t).ok
    ensures CheckAll(o, |o.sigs|, be, t) == CheckAll(o, i + 1, be, t)
    ensures forall k :: i <= k < |o.sigs| ==> !Passes(o, k, be, t)
  {
    hide CheckAll;
    Stopped(o, i + 1, |o.sigs|, be, t);
    forall k | i <= k < |o.sigs| ensures !Passes(o, k, be, t) {
      Stopped(o, i + 1, k + 1, be, t);
    }
  }

  lemma {:induction false} Stopped(o: Options, n: nat, end: nat, be: Word64, t: Track)
    requires OptionsFit(o) && n <= end <= |o.sigs| && !CheckAll(o, n, be, t).ok
    ensures CheckAll(o, end, be, t) == CheckAll(o, n, be, t)
    decreases end
  {
    if n < end {
      Stopped(o, n, end - 1, be, t);
    }
  }

  lemma LittleIsReversed(dat: seq<Byte8>)
    requires |dat| == 8
    ensures ReadU64Le(dat) == ReverseBytes(ReadU64Be(dat))
  {
    hide ReverseBytes;
    forall i | 0 <= i < 64
      ensures ReadU64Le(dat)[i] == ReverseBytes(ReadU64Be(dat))[i]
    {
      ReverseBytesAt(ReadU64Be(dat), i);
    }
  }

  // ---- Frames of the packer in front of the parser

  /** What process_dbc.py and the code generator establish for a message with the five packed checksums. */
  ghost predicate WellFormed(m: Message) {
    && MessageFits(m) && DistinctNames(m.sigs) && InBytes(m)
    && (forall k :: 0 <= k < |m.sigs| ==> SignalRules(m, m.sigs[k]))
    && var counter, checksum := Lookup(m.sigs, "COUNTER"), Lookup(m.sigs, "CHECKSUM");
       counter.Some? && checksum.Some? ==> Disjoint(counter.value, checksum.value)
  }

  predicate SignalRules(m: Message, sig: Signal) {
    && (CheckedChecksum(sig.kind) ==> sig.name == "CHECKSUM" && Placed(sig, m.size))
    && (CounterKind(sig.kind) ==> sig.name == "COUNTER" && !sig.isSigned && sig.b2 <= 8)
  }

  /** A counter is given when, and only when, the message has one. */
  predicate CounterGiven(m: Message, counter: int) {
    counter >= 0 <==> Lookup(m.sigs, "COUNTER").Some?
  }

  lemma ReadsBack(w: Word64, sig: Signal, v: int, be: Word64)
    requires Fits(sig) && forall i :: 0 <= i < 64 && Covers(sig, i) ==> be[i] == SetValue(w, sig, v)[i]
    ensures Extract(be, ReverseBytes(be), sig) == Signed(sig, v % Pow2(sig.b2))
  {
    hide SetValue, Extract, ReverseBytes, Signed, Low;
    forall i | 0 <= i < 64 && Covers(sig, i)
      ensures be[i] == Low(v, sig.b2)[IndexAt(sig, i)]
    {
      SetValueAt(w, sig, v, i);
    }
    ExtractsStored(be, sig, v);
  }

  lemma ChecksumSmall(sig: Signal, address: nat, w: Word64, size: nat)
    requires Placed(sig, size)
    ensures PackedChecksum(sig.kind) && InRange(sig, Checksum(sig.kind, address, w, size))
  {
    hide Honda, Toyota, Subaru, Chrysler, Volkswagen;
    assert Pow2(4) == 16;
    assert Pow2(8) == 256 by {
      assert Pow2(6) == 64;
    }
  }

  /** The checksum in a packed word is the checksum of that word. */
  lemma ChecksumHolds(m: Message, ret: Word64)
    requires WellFormed(m) && Lookup(m.sigs, "CHECKSUM").Some? && PackedChecksum(Lookup(m.sigs, "CHECKSUM").value.kind)
    ensures var sig, w := Lookup(m.sigs, "CHECKSUM").value, PutChecksum(m, ret);
            Extract(w, ReverseBytes(w), sig) == Checksum(sig.kind, m.address, w, m.size)
  {
    hide SetValue, Extract, ReverseBytes, Signed, Checksum, InRange, Disjoint, Placed, Covers;
    var sig := Lookup(m.sigs, "CHECKSUM").value;
    var v := Checksum(sig.kind, m.address, ret, m.size);
    var w := SetValue(ret, sig, v);
    forall i | 0 <= i < 64 && !Covers(sig, i)
      ensures ret[i] == w[i]
    {
      SetValueAt(ret, sig, v, i);
    }
    assert SignalRules(m, sig);
    ChecksumIgnoresItself(sig, m.address, ret, w, m.size);
    ChecksumSmall(sig, m.address, ret, m.size);
    ReadsBack(ret, sig, v, w);
    SignedIs(sig, v);
  }

  /** The counter in a packed word is the counter given, modulo its width. */
  lemma CounterHolds(m: Message, ret: Word64, counter: nat)
    requires WellFormed(m) && Lookup(m.sigs, "COUNTER").Some?
    ensures var sig := Lookup(m.sigs, "COUNTER").value;
            var w := PutChecksum(m, SetValue(ret, sig, counter));
            Extract(w, ReverseBytes(w), sig) == Signed(sig, counter % Pow2(sig.b2))
  {
    hide SetValue, Extract, ReverseBytes, Signed, Checksum, Covers;
    var sig, chk := Lookup(m.sigs, "COUNTER").value, Lookup(m.sigs, "CHECKSUM");
    var before := SetValue(ret, sig, counter);
    var w := PutChecksum(m, before);
    forall i | 0 <= i < 64 && Covers(sig, i)
      ensures w[i] == before[i]
    {
      if chk.Some? && PackedChecksum(chk.value.kind) {
        SetValueAt(before, chk.value, Checksum(chk.value.kind, m.address, before, m.size), i);
      }
    }
    ReadsBack(ret, sig, counter, w);
  }

  // ---- What a parser is subscribed to

  /** The signals with a checksum or counter type, tracked without being asked for. */
  function Tracked(sigs: seq<Signal>): (r: seq<Signal>)
    ensures forall s :: s in r <==> s in sigs && s.kind != Plain
  {
    if sigs == [] then []
    else (if sigs[0].kind != Plain then [sigs[0]] else []) + Tracked(sigs[1..])
  }

  /** The first plain signal of each requested name. */
  function Requested(sigs: seq<Signal>, names: seq<string>): (r: seq<Signal>)
    ensures forall s :: s in r ==> s in sigs && s.kind == Plain && s.name in names
  {
    if names == [] then [] else FirstPlain(sigs, names[0]) + Requested(sigs, names[1..])
  }

  function FirstPlain(sigs: seq<Signal>, name: string): (r: seq<Signal>)
    ensures forall s :: s in r ==> s in sigs && s.kind == Plain && s.name == name
  {
    if sigs == [] then []
    else if sigs[0].name == name && sigs[0].kind == Plain then [sigs[0]]
    else FirstPlain(sigs[1..], name)
  }

  /** The options the constructor of CANParser gives a message. */
  function OptionsFor(m: Message, names: seq<string>): Options {
    Options(m.address, m.size, Tracked(m.sigs) + Requested(m.sigs, names), false, false)
  }

  /** Signals of the message, each counter once; a requested signal may be there more than once. */
  ghost predicate Subscribed(m: Message, o: Options) {
    && o.address == m.address && o.size == m.size
    && (forall k :: 0 <= k < |o.sigs| ==> o.sigs[k] in m.sigs)
    && (forall s :: s in m.sigs && CounterKind(s.kind) ==> s in o.sigs)
    && (forall j, k :: 0 <= j < k < |o.sigs| && CounterKind(o.sigs[k].kind) ==> o.sigs[j] != o.sigs[k])
  }

  lemma {:induction false} TrackedOnce(sigs: seq<Signal>)
    requires DistinctNames(sigs)
    ensures forall j, k :: 0 <= j < k < |Tracked(sigs)| ==> Tracked(sigs)[j] != Tracked(sigs)[k]
  {
    if sigs != [] {
      TrackedOnce(sigs[1..]);
      assert sigs[0] !in sigs[1..];
    }
  }

  /** Both ways of subscribing: to some names, or to everything. */
  lemma SubscribesTo(m: Message, names: seq<string>, ignoreChecksum: bool, ignoreCounter: bool)
    requires WellFormed(m)
    ensures Subscribed(m, OptionsFor(m, names))
    ensures Subscribed(m, Options(m.address, m.size, m.sigs, ignoreChecksum, ignoreCounter))
  {
    hide MessageFits, InBytes, SignalRules, Disjoint;
    TrackedOnce(m.sigs);
    var t, r := Tracked(m.sigs), Requested(m.sigs, names);
    forall k | 0 <= k < |t + r|
      ensures (t + r)[k] in m.sigs
    {
      assert (t + r)[k] in t || (t + r)[k] in r;
    }
    forall k | |t| <= k < |t + r|
      ensures !CounterKind((t + r)[k].kind)
    {
      assert (t + r)[k] == r[k - |t|];
    }
    forall j, k | 0 <= j < k < |t + r| && CounterKind((t + r)[k].kind)
      ensures (t + r)[j] != (t + r)[k]
    {
      assert (t + r)[j] == t[j] && (t + r)[k] == t[k];
    }
  }

  lemma SubscribedFits(m: Message, o: Options)
    requires WellFormed(m) && Subscribed(m, o)
    ensures OptionsFit(o) && MessageFits(m) && InBytes(m)
  {
  }

  /** One frame: only the counter moves the parser's state, and by exactly one step. */
  function AfterCounter(m: Message, counter: int, t: Track): Track
    requires MessageFits(m)
  {
    match Lookup(m.sigs, "COUNTER")
    case None => t
    case Some(sig) =>
        if CounterKind(sig.kind) then CounterStep(t.counter, t.fail, counter % Pow2(sig.b2), sig.b2) else t
  }

  function AfterFrame(m: Message, o: Options, counter: int, t: Track): Track
    requires MessageFits(m)
  {
    if o.ignoreCounter then t else AfterCounter(m, counter, t)
  }

  lemma CheckPacked(m: Message, o: Options, given: seq<NamedValue>, counter: int, k: nat, t: Track)
    requires WellFormed(m) && Subscribed(m, o) && OptionsFit(o) && CounterGiven(m, counter) && k < |o.sigs| && t.ok
    ensures CheckOne(o, o.sigs[k], Packed(m, given, counter), t)
         == if CounterKind(o.sigs[k].kind) then AfterFrame(m, o, counter, t) else t
  {
    hide SetValue, Extract, ReverseBytes, Checksum, Placed, PackSignals, Pow2, Disjoint, CounterStep;
    var sig, ret := o.sigs[k], PackSignals(m, given);
    var j :| 0 <= j < |m.sigs| && m.sigs[j] == sig;
    assert SignalRules(m, sig);
    LookupFinds(m.sigs, j);
    if CounterKind(sig.kind) {
      CounterHolds(m, ret, counter);
      UnsignedReads(sig, counter % Pow2(sig.b2));
    } else if CheckedChecksum(sig.kind) {
      ChecksumKinds(sig, m.size);
      ChecksumHolds(m, if counter < 0 then ret else SetValue(ret, Lookup(m.sigs, "COUNTER").value, counter));
    }
  }

  lemma UnsignedReads(sig: Signal, field: nat)
    requires Fits(sig) && !sig.isSigned
    ensures Signed(sig, field) == field
  {
  }

  lemma ChecksumKinds(sig: Signal, size: nat)
    requires Placed(sig, size)
    ensures PackedChecksum(sig.kind)
  {
  }

  /** The counter is among the signals already checked. */
  ghost predicate CounterSeen(o: Options, n: nat)
    requires n <= |o.sigs|
  {
    exists k :: 0 <= k < n && CounterKind(o.sigs[k].kind)
  }

  lemma OneCounter(m: Message, o: Options, n: nat)
    requires WellFormed(m) && Subscribed(m, o) && n < |o.sigs| && CounterKind(o.sigs[n].kind)
    ensures !CounterSeen(o, n)
  {
    hide Fits, InBytes, Disjoint, MessageFits, Placed;
    assert SignalRules(m, o.sigs[n]);
    forall k | 0 <= k < n
      ensures !CounterKind(o.sigs[k].kind)
    {
      assert SignalRules(m, o.sigs[k]);
      SameName(m.sigs, o.sigs[k], o.sigs[n]);
    }
  }

  lemma SameName(sigs: seq<Signal>, s: Signal, t: Signal)
    requires DistinctNames(sigs) && s in sigs && t in sigs
    ensures s.name == t.name ==> s == t
  {
  }

  lemma {:induction false} CheckAllPacked(m: Message, o: Options, given: seq<NamedValue>, counter: int, n: nat,
                                          t: Track)
    requires WellFormed(m) && Subscribed(m, o) && OptionsFit(o) && CounterGiven(m, counter) && n <= |o.sigs| && t.ok
    ensures CheckAll(o, n, Packed(m, given, counter), t)
         == if CounterSeen(o, n) then AfterFrame(m, o, counter, t) else t
  {
    hide CheckOne, AfterFrame, Packed, WellFormed, Subscribed, OptionsFit;
    SubscribedFits(m, o);
    if n > 0 {
      CheckAllPacked(m, o, given, counter, n - 1, t);
      var before := CheckAll(o, n - 1, Packed(m, given, counter), t);
      if before.ok {
        CheckPacked(m, o, given, counter, n - 1, before);
      }
      if CounterKind(o.sigs[n - 1].kind) {
        OneCounter(m, o, n - 1);
        assert CounterSeen(o, n);
      } else if CounterSeen(o, n) {
        var k :| 0 <= k < n && CounterKind(o.sigs[k].kind);
        assert CounterSeen(o, n - 1);
      }
    }
  }

  /** A packed frame passes every check but its counter's, whatever its signals hold. */
  lemma FrameChecked(m: Message, o: Options, given: seq<NamedValue>, counter: int, t: Track)
    requires WellFormed(m) && Subscribed(m, o) && OptionsFit(o) && CounterGiven(m, counter) && t.ok
    ensures CheckAll(o, |o.sigs|, Packed(m, given, counter), t) == AfterFrame(m, o, counter, t)
  {
    hide CheckAll, Packed, CounterStep;
    CheckAllPacked(m, o, given, counter, |o.sigs|, t);
    var found := Lookup(m.sigs, "COUNTER");
    if found.Some? && CounterKind(found.value.kind) {
      var k :| 0 <= k < |o.sigs| && o.sigs[k] == found.value;
      assert CounterSeen(o, |o.sigs|);
    } else if CounterSeen(o, |o.sigs|) {
      var k :| 0 <= k < |o.sigs| && CounterKind(o.sigs[k].kind);
      var j :| 0 <= j < |m.sigs| && m.sigs[j] == o.sigs[k];
      assert SignalRules(m, m.sigs[j]);
      LookupFinds(m.sigs, j);
    }
  }

  /** The counter of the n-th frame of a stream; -1 if the message has none. */
  function CounterFor(m: Message, start: nat, n: nat): int {
    if Lookup(m.sigs, "COUNTER").Some? then start + n else -1
  }

  /** The state after the frame with this counter, if the frame was accepted. */
  ghost predicate Follows(m: Message, counter: int, t: Track) {
    match Lookup(m.sigs, "COUNTER")
    case None => true
    case Some(sig) => counter >= 0 && (CounterKind(sig.kind) ==> sig.b2 >= 0 && t.counter == counter % Pow2(sig.b2))
  }

  lemma WidthAtMost8(w: nat)
    requires 1 <= w <= 8
    ensures 2 <= Pow2(w) <= 256
    decreases w
  {
    if w > 1 {
      WidthAtMost8At(w);
    }
  }

  lemma WidthAtMost8At(w: nat)
    requires 1 <= w <= 8
    ensures Pow2(w) == [2, 4, 8, 16, 32, 64, 128, 256][w - 1]
  {
    assert Pow2(1) == 2 && Pow2(3) == 8;
    assert Pow2(5) == 32;
    assert Pow2(7) == 128;
  }

  /** The next counter is accepted whatever the failure count. */
  lemma NextCounter(m: Message, o: Options, counter: nat, t: Track)
    requires WellFormed(m) && CounterGiven(m, counter) && t.ok && counter > 0 && Follows(m, counter - 1, t)
    ensures AfterFrame(m, o, counter, t).ok
  {
    hide MessageFits, DistinctNames, InBytes, Disjoint, Placed, Pow2;
    var found := Lookup(m.sigs, "COUNTER");
    if found.Some? && CounterKind(found.value.kind) {
      var sig := found.value;
      assert SignalRules(m, sig);
      CounterFits(m, sig);
      WidthAtMost8(sig.b2);
      NextMod(counter, Pow2(sig.b2));
    }
  }

  /** Accepted or not, the counter of the frame is the parser's counter afterwards. */
  lemma CounterTaken(m: Message, counter: int, t: Track)
    requires WellFormed(m) && CounterGiven(m, counter)
    ensures Follows(m, counter, AfterCounter(m, counter, t))
  {
    hide MessageFits, DistinctNames, InBytes, Disjoint, Placed, Pow2;
    var found := Lookup(m.sigs, "COUNTER");
    if found.Some? && CounterKind(found.value.kind) {
      var sig := found.value;
      assert SignalRules(m, sig);
      CounterFits(m, sig);
      WidthAtMost8(sig.b2);
    }
  }

  lemma CounterFits(m: Message, sig: Signal)
    requires MessageFits(m) && sig in m.sigs
    ensures 1 <= sig.b2
  {
  }

  lemma NextMod(c: nat, p: nat)
    requires c > 0 && p >= 2
    ensures ((c - 1) % p + 1) % p == c % p
  {
    var q, r := (c - 1) / p, (c - 1) % p;
    assert c - 1 == q * p + r;
    if r + 1 < p {
      ModOf(r + 1, p, 0, r + 1);
      ModOf(c, p, q, r + 1);
    } else {
      ModOf(r + 1, p, 1, 0);
      assert (q + 1) * p == q * p + p;
      ModOf(c, p, q + 1, 0);
    }
  }

  /**
   * A stream packed with consecutive counters, from any start and to any
   * parser of the message: every frame after the first is accepted, and the
   * first is accepted exactly when its counter is.
   */
  method Stream(m: Message, state: MessageState, givens: seq<seq<NamedValue>>, start: nat, crcLut: array<Octet>)
    returns (accepted: seq<bool>)
    requires WellFormed(m) && Subscribed(m, state.options) && |state.vals| == |state.options.sigs|
    requires TableFor(crcLut, POLY_2F)
    modifies state
    ensures |accepted| == |givens| && forall n :: 1 <= n < |givens| ==> accepted[n]
    ensures MessageFits(m)
    ensures givens != [] ==>
              var t := Track(old(state.counter), old(state.counterFail), true);
              accepted[0] == AfterFrame(m, state.options, CounterFor(m, start, 0), t).ok
  {
    hide WellFormed, CheckAll, Packed, AfterFrame, Follows, TableFor, Inside, OptionsFit, MessageFits, InBytes;
    hide Frame, BytesOf, ReadU64Be, ReadU64Le, ReverseBytes, Extract, Subscribed, AfterCounter;
    accepted := [];
    SubscribedFits(m, state.options);
    for n := 0 to |givens|
      invariant |accepted| == n && |state.vals| == |state.options.sigs|
      invariant forall i :: 1 <= i < n ==> accepted[i]
      invariant n == 0 ==> state.counter == old(state.counter) && state.counterFail == old(state.counterFail)
      invariant n > 0 ==>
                  accepted[0] == AfterFrame(m, state.options, CounterFor(m, start, 0),
                                            Track(old(state.counter), old(state.counterFail), true)).ok
      invariant n > 0 ==> Tracks(m, state.options, CounterFor(m, start, n - 1), state.counter)
    {
      var counter := CounterFor(m, start, n);
      ghost var t := Track(state.counter, state.counterFail, true);
      CounterForGiven(m, start, n);
      FrameChecked(m, state.options, givens[n], counter, t);
      PackedInside(m, givens[n], counter);
      StreamStep(m, state.options, start, n, t);
      var w := Pack(m, givens[n], counter, crcLut);
      FrameIsWhole(m, w);
      ReadBack(w);
      var ok := state.Parse(n, Frame(w, m.size), crcLut);
      accepted := accepted + [ok];
    }
  }

  lemma CounterForGiven(m: Message, start: nat, n: nat)
    ensures CounterGiven(m, CounterFor(m, start, n))
  {
  }

  /** The parser's counter is that of the last frame, unless counters are ignored. */
  ghost predicate Tracks(m: Message, o: Options, counter: int, stored: nat) {
    o.ignoreCounter || Follows(m, counter, Track(stored, 0, true))
  }

  lemma StreamStep(m: Message, o: Options, start: nat, n: nat, t: Track)
    requires WellFormed(m) && t.ok
    requires n > 0 ==> Tracks(m, o, CounterFor(m, start, n - 1), t.counter)
    ensures MessageFits(m)
        && Tracks(m, o, CounterFor(m, start, n), AfterFrame(m, o, CounterFor(m, start, n), t).counter)
    ensures n > 0 ==> AfterFrame(m, o, CounterFor(m, start, n), t).ok
  {
    hide CounterStep, Pow2, InBytes, Disjoint, DistinctNames, SignalRules;
    var c := CounterFor(m, start, n);
    CounterForGiven(m, start, n);
    if !o.ignoreCounter {
      CounterTaken(m, c, t);
      if n > 0 && Lookup(m.sigs, "COUNTER").Some? {
        NextCounter(m, o, c, t);
      }
    }
  }

  // ---- Values

  /** The raw value given to a name, the last one if there are several; zero if there is none. */
  function ValueOf(given: seq<NamedValue>, name: string): int {
    if given == [] then 0
    else if given[|given| - 1].name == name then given[|given| - 1].raw
    else ValueOf(given[..|given| - 1], name)
  }

  ghost predicate SignalsDisjoint(m: Message) {
    forall s, t :: s in m.sigs && t in m.sigs && s != t ==> Disjoint(s, t)
  }

  lemma {:induction false} LowZero(w: nat)
    ensures forall i :: 0 <= i < w ==> !Low(0, w)[i]
    decreases w
  {
    if w > 0 {
      LowZero(w - 1);
    }
  }

  /** The bits of a signal are those of its value. */
  ghost predicate HoldsValue(w: Word64, sig: Signal, v: int)
    requires Fits(sig)
  {
    forall i :: 0 <= i < 64 && Covers(sig, i) ==> w[i] == Low(v, sig.b2)[IndexAt(sig, i)]
  }

  lemma SetHolds(w: Word64, sig: Signal, raw: int)
    requires Fits(sig)
    ensures HoldsValue(SetValue(w, sig, Stored(sig, raw)), sig, raw)
  {
    hide SetValue, Low, IndexAt;
    LowPeriodic(raw, sig.b2);
    forall i | 0 <= i < 64 && Covers(sig, i)
      ensures SetValue(w, sig, Stored(sig, raw))[i] == Low(raw, sig.b2)[IndexAt(sig, i)]
    {
      SetValueAt(w, sig, Stored(sig, raw), i);
    }
  }

  lemma SetElsewhereHolds(w: Word64, other: Signal, raw: int, sig: Signal, v: int)
    requires Fits(sig) && Fits(other) && Disjoint(sig, other) && HoldsValue(w, sig, v)
    ensures HoldsValue(SetValue(w, other, raw), sig, v)
  {
    hide SetValue, Low, IndexAt;
    forall i | 0 <= i < 64 && Covers(sig, i)
      ensures SetValue(w, other, raw)[i] == w[i]
    {
      SetValueAt(w, other, raw, i);
    }
  }

  lemma {:induction false} PackSignalsHolds(m: Message, given: seq<NamedValue>, sig: Signal)
    requires MessageFits(m) && DistinctNames(m.sigs) && SignalsDisjoint(m) && sig in m.sigs
    ensures HoldsValue(PackSignals(m, given), sig, ValueOf(given, sig.name))
  {
    hide SetValue, Covers, HoldsValue, Disjoint;
    if given == [] {
      NothingHolds(sig);
    } else {
      var init, last := given[..|given| - 1], given[|given| - 1];
      PackSignalsHolds(m, init, sig);
      var k :| 0 <= k < |m.sigs| && m.sigs[k] == sig;
      LookupFinds(m.sigs, k);
      match Lookup(m.sigs, last.name)
      case None =>
      case Some(other) =>
        if other == sig {
          SetHolds(PackSignals(m, init), sig, last.raw);
        } else {
          SetElsewhereHolds(PackSignals(m, init), other, Stored(other, last.raw), sig, ValueOf(init, sig.name));
        }
    }
  }

  lemma NothingHolds(sig: Signal)
    requires Fits(sig)
    ensures HoldsValue(NoBits(), sig, 0)
  {
    hide Low;
    LowZero(sig.b2);
  }

  /** A counter given for a message that defines none: every signal, the checksum too, is left as given. */
  lemma UndefinedCounter(m: Message, given: seq<NamedValue>, counter: int, sig: Signal)
    requires MessageFits(m) && DistinctNames(m.sigs) && SignalsDisjoint(m) && sig in m.sigs
    requires counter >= 0 && Lookup(m.sigs, "COUNTER").None?
    ensures HoldsValue(Packed(m, given, counter), sig, ValueOf(given, sig.name))
  {
    hide HoldsValue, Disjoint;
    PackSignalsHolds(m, given, sig);
  }

  /** A signal the packer does not fill in by itself. */
  predicate Ordinary(sig: Signal) {
    sig.name != "COUNTER" && sig.name != "CHECKSUM"
  }

  /** Neither the counter nor the checksum disturbs another signal. */
  lemma PackedHolds(m: Message, given: seq<NamedValue>, counter: int, sig: Signal)
    requires MessageFits(m) && DistinctNames(m.sigs) && SignalsDisjoint(m) && sig in m.sigs
    requires Ordinary(sig)
    ensures HoldsValue(Packed(m, given, counter), sig, ValueOf(given, sig.name))
  {
    hide SetValue, Checksum, HoldsValue, Disjoint;
    var ret, v := PackSignals(m, given), ValueOf(given, sig.name);
    PackSignalsHolds(m, given, sig);
    var cnt, chk := Lookup(m.sigs, "COUNTER"), Lookup(m.sigs, "CHECKSUM");
    if counter >= 0 && cnt.Some? {
      SetElsewhereHolds(ret, cnt.value, counter, sig, v);
      ret := SetValue(ret, cnt.value, counter);
    }
    if chk.Some? && PackedChecksum(chk.value.kind) {
      SetElsewhereHolds(ret, chk.value, Checksum(chk.value.kind, m.address, ret, m.size), sig, v);
    }
  }

  /** A signal that is neither comes back out of a packed frame exactly when its value is in range. */
  lemma ValueReturnsIff(m: Message, given: seq<NamedValue>, counter: int, sig: Signal)
    requires MessageFits(m) && DistinctNames(m.sigs) && SignalsDisjoint(m) && sig in m.sigs
    requires Ordinary(sig)
    ensures var w, v := Packed(m, given, counter), ValueOf(given, sig.name);
            Extract(w, ReverseBytes(w), sig) == v <==> InRange(sig, v)
  {
    hide Packed, Extract, ReverseBytes, InRange, Signed, Low, Covers, IndexAt;
    PackedHolds(m, given, counter, sig);
    ExtractsStored(Packed(m, given, counter), sig, ValueOf(given, sig.name));
    SignedIs(sig, ValueOf(given, sig.name));
  }

  /**
   * The packer in front of the parser: the frame is accepted exactly when its
   * counter is, and then every subscribed signal other than COUNTER and
   * CHECKSUM has the value it was given exactly when that value is in range.
   */
  method PackAndParse(m: Message, state: MessageState, given: seq<NamedValue>, counter: int, sec: int,
                      crcLut: array<Octet>)
    returns (ok: bool)
    requires WellFormed(m) && SignalsDisjoint(m) && CounterGiven(m, counter)
    requires Subscribed(m, state.options) && |state.vals| == |state.options.sigs| && TableFor(crcLut, POLY_2F)
    modifies state
    ensures OptionsFit(state.options) && |state.vals| == |state.options.sigs| && MessageFits(m)
    ensures ok == AfterFrame(m, state.options, counter, Track(old(state.counter), old(state.counterFail), true)).ok
    ensures ok ==>
              forall k :: 0 <= k < |state.vals| && Ordinary(state.options.sigs[k]) ==>
                var sig := state.options.sigs[k];
                state.vals[k] == ValueOf(given, sig.name) <==> InRange(sig, ValueOf(given, sig.name))
  {
    hide CheckAll, Packed, AfterFrame, TableFor, Inside, Frame, BytesOf, ReadU64Be, ReadU64Le, ReverseBytes, Extract,
        InRange, SignalRules, Disjoint;
    SubscribedFits(m, state.options);
    FrameChecked(m, state.options, given, counter, Track(state.counter, state.counterFail, true));
    PackedInside(m, given, counter);
    var w := Pack(m, given, counter, crcLut);
    FrameIsWhole(m, w);
    ReadBack(w);
    ok := state.Parse(sec, Frame(w, m.size), crcLut);
    forall k | 0 <= k < |state.vals| && Ordinary(state.options.sigs[k])
      ensures var sig := state.options.sigs[k];
              Extract(w, ReverseBytes(w), sig) == ValueOf(given, sig.name) <==> InRange(sig, ValueOf(given, sig.name))
    {
      ValueReturnsIff(m, given, counter, state.options.sigs[k]);
    }
  }

  /** A frame is accepted only if every checksum in it is the checksum of the frame. */
  lemma {:induction false} AcceptedAgrees(o: Options, n: nat, be: Word64, t: Track, k: nat)
    requires OptionsFit(o) && k < n <= |o.sigs| && !o.ignoreChecksum && CheckedChecksum(o.sigs[k].kind)
    requires CheckAll(o, n, be, t).ok
    ensures Extract(be, ReverseBytes(be), o.sigs[k]) == Checksum(o.sigs[k].kind, o.address, be, o.size)
  {
    hide Extract, Checksum, CounterStep, ReverseBytes;
    if k < n - 1 {
      AcceptedAgrees(o, n - 1, be, t, k);
    }
  }

  /** Without the counter checks, a frame is accepted if and only if checksums are ignored too or every one is
      the checksum of the frame; the counters stay as they are. */
  lemma {:induction false} AcceptedIff(o: Options, n: nat, be: Word64, t: Track)
    requires OptionsFit(o) && n <= |o.sigs| && o.ignoreCounter && t.ok
    ensures CheckAll(o, n, be, t).ok <==>
              o.ignoreChecksum || forall k :: 0 <= k < n && CheckedChecksum(o.sigs[k].kind) ==>
                Checksum(o.sigs[k].kind, o.address, be, o.size) == Extract(be, ReverseBytes(be), o.sigs[k])
    ensures CheckAll(o, n, be, t).counter == t.counter && CheckAll(o, n, be, t).fail == t.fail
  {
    hide Extract, Checksum, ReverseBytes;
    if n > 0 {
      AcceptedIff(o, n - 1, be, t);
    }
  }

  /** The stored counter that the i-th value is compared with. */
  function Before(counter: nat, vs: seq<int>, i: nat): int
    requires i < |vs|
  {
    if i == 0 then counter else vs[i - 1] % 256
  }

  /** Every value fails to follow the one before it. */
  ghost predicate AllWrong(counter: nat, vs: seq<int>, cntSize: nat) {
    forall i :: 0 <= i < |vs| ==> vs[i] != (Before(counter, vs, i) + 1) % Pow2(cntSize)
  }

  lemma AllWrongPrefix(counter: nat, vs: seq<int>, cntSize: nat, n: nat)
    requires AllWrong(counter, vs, cntSize) && n <= |vs|
    ensures AllWrong(counter, vs[..n], cntSize)
  {
    hide Pow2;
    forall i | 0 <= i < n
      ensures vs[..n][i] != (Before(counter, vs[..n], i) + 1) % Pow2(cntSize)
    {
      assert Before(counter, vs[..n], i) == Before(counter, vs, i);
    }
  }

  function CounterRun(counter: nat, fail: nat, vs: seq<int>, cntSize: nat): Track {
    if vs == [] then Track(counter, fail, true)
    else
      var before := CounterRun(counter, fail, vs[..|vs| - 1], cntSize);
      CounterStep(before.counter, before.fail, vs[|vs| - 1], cntSize)
  }

  /** One wrong counter adds one to the count, which is a byte. */
  lemma WrongStep(counter: nat, fail: nat, n: nat, v: int, cntSize: nat)
    requires v != (counter + 1) % Pow2(cntSize)
    ensures CounterStep(counter, (fail + n) % 256, v, cntSize)
         == Track(v % 256, (fail + n + 1) % 256, (fail + n + 1) % 256 < 5)
  {
    hide Pow2;
    assert ((fail + n) % 256 + 1) % 256 == (fail + n + 1) % 256;
  }

  /** n wrong counters in a row, from any failure count: the count is a byte, so the n-th is accepted if and
      only if the count and n together leave less than five modulo 256. */
  lemma {:induction false} WrongCountersIff(counter: nat, fail: nat, vs: seq<int>, cntSize: nat)
    requires AllWrong(counter, vs, cntSize) && fail < 256
    ensures var t := CounterRun(counter, fail, vs, cntSize);
            && t.fail == (fail + |vs|) % 256
            && (vs != [] ==> t.counter == vs[|vs| - 1] % 256 && (t.ok <==> (fail + |vs|) % 256 < 5))
  {
    hide Pow2, CounterStep;
    if vs != [] {
      var n := |vs| - 1;
      AllWrongPrefix(counter, vs, cntSize, n);
      assert vs[n] != (Before(counter, vs, n) + 1) % Pow2(cntSize);
      WrongCountersIff(counter, fail, vs[..n], cntSize);
      WrongStep(Before(counter, vs, n), fail, n, vs[n], cntSize);
    }
  }

  /** A sender whose counter is stuck at zero: refused from the fifth frame, accepted again from the 256th. */
  lemma StuckCounter(n: nat)
    requires n > 0
    ensures var vs := seq(n, _ => 0); AllWrong(0, vs, 2) && (CounterRun(0, 0, vs, 2).ok <==> n % 256 < 5)
  {
    assert Pow2(2) == 4;
    WrongCountersIff(0, 0, seq(n, _ => 0), 2);
  }

  /** Every value follows the one before it. */
  ghost predicate AllRight(counter: nat, vs: seq<int>, cntSize: nat) {
    forall i :: 0 <= i < |vs| ==> vs[i] == (Before(counter, vs, i) + 1) % Pow2(cntSize)
  }

  lemma AllRightPrefix(counter: nat, vs: seq<int>, cntSize: nat, n: nat)
    requires AllRight(counter, vs, cntSize) && n <= |vs|
    ensures AllRight(counter, vs[..n], cntSize)
  {
    hide Pow2;
    forall i | 0 <= i < n
      ensures vs[..n][i] == (Before(counter, vs[..n], i) + 1) % Pow2(cntSize)
    {
      assert Before(counter, vs[..n], i) == Before(counter, vs, i);
    }
  }

  /** n right counters in a row, from any failure count: each is accepted, and the count goes down by one
      with each until it is zero. */
  lemma {:induction false} RightCounters(counter: nat, fail: nat, vs: seq<int>, cntSize: nat)
    requires AllRight(counter, vs, cntSize)
    ensures var t := CounterRun(counter, fail, vs, cntSize);
            && t.ok && t.fail == (if fail >= |vs| then fail - |vs| else 0)
            && t.counter == (if vs == [] then counter else vs[|vs| - 1] % 256)
  {
    hide Pow2;
    if vs != [] {
      var n := |vs| - 1;
      AllRightPrefix(counter, vs, cntSize, n);
      assert vs[n] == (Before(counter, vs, n) + 1) % Pow2(cntSize);
      RightCounters(counter, fail, vs[..n], cntSize);
    }
  }

  /** A wrong counter after n right ones is accepted if and only if what they leave of the failure count, and
      one more, is below five modulo 256. */
  lemma RightThenWrong(counter: nat, fail: nat, vs: seq<int>, w: int, cntSize: nat)
    requires AllRight(counter, vs, cntSize)
    requires w != ((if vs == [] then counter else vs[|vs| - 1] % 256) + 1) % Pow2(cntSize)
    ensures var t, left := CounterRun(counter, fail, vs + [w], cntSize), if fail >= |vs| then fail - |vs| else 0;
            && t.fail == (left + 1) % 256 && t.counter == w % 256
            && (t.ok <==> (left + 1) % 256 < 5)
  {
    hide Pow2;
    RightCounters(counter, fail, vs, cntSize);
    assert (vs + [w])[..|vs|] == vs;
  }
}
