// What the bytes of a msgq segment hold (cereal/messaging/msgq.cc).
//
// A segment is annotated with the messages whose bytes are still intact in it.
// An intact message may have lost its size tag to a wraparound tag, so the
// payloads and the tags are recorded separately.  The four ways in which the
// writer changes a segment are functions on the annotated segment, and every
// one of them keeps `Inv`.

module MsgqRing {
  import opened Words

  /**
   * An annotated segment.
   *   off     offset part of the write pointer
   *   sent    every message published so far
   *   pay     offset of a tag whose payload is intact -> index of the message
   *   sizes   offsets that hold the size tag of an intact payload
   *   wraps   offsets that hold a wraparound tag
   *   first   index of the first message of the lap being written
   *   prev    index of the first message of the lap before it
   */
  datatype Ring = Ring(
    size: nat, data: seq<byte>, off: nat, sent: seq<seq<byte>>,
    pay: map<nat, nat>, sizes: set<nat>, wraps: set<nat>, first: nat, prev: nat)

  const WRAP_TAG: int := -1

  /** Bytes a message takes in the segment, tag included. */
  function Footprint(msg: seq<byte>): (n: nat)
    ensures n >= 8 + |msg| && n % 8 == 0
  {
    Align(|msg| + 8)
  }

  /** Where the block at `x` ends. */
  function End(r: Ring, x: nat): nat
    requires x in r.pay && r.pay[x] < |r.sent|
  {
    x + Footprint(r.sent[r.pay[x]])
  }

  lemma AlignedApart(x: nat, y: nat)
    requires x % 8 == 0 && y % 8 == 0
    ensures x < y ==> x + 8 <= y
    ensures (x + y) % 8 == 0
  {
  }

  /** Index of the message a reader finds at offset 0. */
  function Base(r: Ring): int {
    if r.off == 0 then |r.sent| else if 0 in r.pay then r.pay[0] else -1
  }

  /** Index of the message that a reader finds by following the tag at `p`; -1 when there is no tag there. */
  function Tagged(r: Ring, p: nat): int {
    if p in r.wraps then Base(r)
    else if p in r.sizes && p in r.pay then r.pay[p]
    else -1
  }

  /** Index of the message that a reader resting at `p` delivers next. */
  function Next(r: Ring, p: nat): int {
    if p == r.off then |r.sent| else Tagged(r, p)
  }

  ghost predicate Message(m: seq<byte>) {
    0 < |m| < TWO_32
  }

  ghost predicate Holds(data: seq<byte>, at: nat, bytes: seq<byte>) {
    at + |bytes| <= |data| && data[at..at + |bytes|] == bytes
  }

  ghost predicate Block(r: Ring, x: nat)
    requires x in r.pay
  {
    && x % 8 == 0
    && r.pay[x] < |r.sent|
    && End(r, x) + 8 <= r.size
    && Holds(r.data, x + 8, r.sent[r.pay[x]])
    && (x < r.off ==> End(r, x) <= r.off)
  }

  /** Reading on from an intact block never goes back, and skips nothing if the block is not older than the
      previous lap. */
  ghost predicate Chained(r: Ring, x: nat)
    requires x in r.pay && r.pay[x] < |r.sent|
  {
    && Next(r, End(r, x)) > r.pay[x]
    && (r.pay[x] >= r.prev ==> Next(r, End(r, x)) == r.pay[x] + 1)
  }

  ghost predicate SizeTag(r: Ring, x: nat) {
    x in r.pay && r.pay[x] < |r.sent| && |r.sent[r.pay[x]]| < TWO_32
        && Holds(r.data, x, EncodeInt64(|r.sent[r.pay[x]]|))
  }

  ghost predicate WrapTag(r: Ring, x: nat) {
    x % 8 == 0 && x + 8 <= r.size && Holds(r.data, x, EncodeInt64(WRAP_TAG)) && r.off <= x
  }

  ghost predicate Shape(r: Ring) {
    && |r.data| == r.size < TWO_32
    && r.off % 8 == 0 && r.off + 8 <= r.size
    && r.prev <= r.first <= |r.sent|
    && (r.off == 0 ==> r.first == |r.sent|)
    && (r.off != 0 ==> 0 in r.sizes && 0 in r.pay && r.pay[0] == r.first)
    && (forall k :: 0 <= k < |r.sent| ==> Message(r.sent[k]))
  }

  /** The layout of the segment while nothing is half written. */
  ghost predicate Inv(r: Ring) {
    && Shape(r)
    && r.sizes !! r.wraps
    && (forall x {:trigger Block(r, x)} :: x in r.pay ==> Block(r, x))
    && (forall x {:trigger Chained(r, x)} :: x in r.pay ==> r.pay[x] < |r.sent| && Chained(r, x))
    && (forall x {:trigger r.pay[x]} :: x in r.pay && r.off != 0 ==> (x < r.off <==> r.first <= r.pay[x]))
    && (forall x {:trigger SizeTag(r, x)} :: x in r.sizes ==> SizeTag(r, x))
    && (forall x {:trigger WrapTag(r, x)} :: x in r.wraps ==> WrapTag(r, x))
  }

  /** Nothing intact starts in [off, end): the writer may store there. */
  ghost predicate Cleared(r: Ring, end: nat) {
    && end <= r.size
    && (forall x :: x in r.pay && r.off <= x ==> end <= x)
    && (forall x :: x in r.sizes && r.off <= x ==> end <= x)
    && (forall x :: x in r.wraps && r.off <= x ==> end <= x)
  }

  /** The wraparound tag is stored at the write offset. */
  function TagWrap(r: Ring): Ring
    requires r.off + 8 <= |r.data|
  {
    r.(data := Put(r.data, r.off, EncodeInt64(WRAP_TAG)), sizes := r.sizes - {r.off}, wraps := r.wraps + {r.off})
  }

  /** The write pointer moves to the start of the segment. */
  function StartLap(r: Ring): Ring {
    r.(off := 0, prev := r.first, first := |r.sent|)
  }

  /** Storing a size tag at the write offset gives up everything that starts in [off, end). */
  function StoreSize(r: Ring, end: nat, msg: seq<byte>): Ring
    requires r.off + 8 <= |r.data| && Message(msg)
  {
    r.(data := Put(r.data, r.off, EncodeInt64(|msg|)),
       pay := (map x | x in r.pay && !(r.off <= x < end) :: r.pay[x]),
       sizes := (set x | x in r.sizes && !(r.off <= x < end)),
       wraps := (set x | x in r.wraps && !(r.off <= x < end)))
  }

  /** The write pointer moves past the new message. */
  function Publish(r: Ring, msg: seq<byte>): Ring {
    r.(off := r.off + Footprint(msg), sent := r.sent + [msg],
       pay := r.pay[r.off := |r.sent|], sizes := r.sizes + {r.off})
  }

  ghost predicate SameOutside(data: seq<byte>, data': seq<byte>, lo: nat, hi: nat) {
    |data| == |data'| && forall i :: 0 <= i < |data| && !(lo <= i < hi) ==> data'[i] == data[i]
  }

  lemma HoldsElsewhere(data: seq<byte>, data': seq<byte>, lo: nat, hi: nat, at: nat, bytes: seq<byte>)
    requires SameOutside(data, data', lo, hi) && Holds(data, at, bytes)
    requires at + |bytes| <= lo || hi <= at
    ensures Holds(data', at, bytes)
  {
    assert data'[at..at + |bytes|] == data[at..at + |bytes|];
  }

  /** A block keeps its bytes when the writer stores elsewhere. */
  lemma BlockElsewhere(r: Ring, r': Ring, x: nat, lo: nat, hi: nat)
    requires x in r.pay && Block(r, x)
    requires x in r'.pay && r'.pay[x] == r.pay[x] && r.sent <= r'.sent && r'.size == r.size
    requires SameOutside(r.data, r'.data, lo, hi) && (End(r, x) <= lo || hi <= x + 8)
    requires x < r'.off ==> End(r, x) <= r'.off
    ensures Block(r', x) && End(r', x) == End(r, x)
  {
    HoldsElsewhere(r.data, r'.data, lo, hi, x + 8, r.sent[r.pay[x]]);
  }

  /** So does a tag. */
  lemma TagElsewhere(r: Ring, r': Ring, x: nat, lo: nat, hi: nat)
    requires SameOutside(r.data, r'.data, lo, hi) && (x + 8 <= lo || hi <= x)
    requires r'.size == r.size && r.sent <= r'.sent
    ensures SizeTag(r, x) && x in r'.pay && r'.pay[x] == r.pay[x] ==> SizeTag(r', x)
    ensures WrapTag(r, x) && r'.off <= x ==> WrapTag(r', x)
  {
    if SizeTag(r, x) {
      HoldsElsewhere(r.data, r'.data, lo, hi, x, EncodeInt64(|r.sent[r.pay[x]]|));
    }
    if WrapTag(r, x) {
      HoldsElsewhere(r.data, r'.data, lo, hi, x, EncodeInt64(WRAP_TAG));
    }
  }

  lemma StoreKeepsBytes(r: Ring, r': Ring, end: nat)
    requires Inv(r) && Cleared(r, end)
    requires r' == r.(data := r'.data) && SameOutside(r.data, r'.data, r.off, end)
    ensures forall x {:trigger Block(r', x)} :: x in r'.pay ==> Block(r', x)
    ensures forall x {:trigger SizeTag(r', x)} :: x in r'.sizes ==> SizeTag(r', x)
    ensures forall x {:trigger WrapTag(r', x)} :: x in r'.wraps ==> WrapTag(r', x)
  {
    forall x | x in r'.pay ensures Block(r', x) {
      assert Block(r, x);
      BlockElsewhere(r, r', x, r.off, end);
    }
    forall x | x in r'.sizes ensures SizeTag(r', x) {
      assert SizeTag(r, x) && Block(r, x);
      TagElsewhere(r, r', x, r.off, end);
    }
    forall x | x in r'.wraps ensures WrapTag(r', x) {
      assert WrapTag(r, x);
      TagElsewhere(r, r', x, r.off, end);
    }
  }

  /** Where a scan gets does not depend on the bytes. */
  lemma SameReading(r: Ring, r': Ring)
    requires r' == r.(data := r'.data)
    ensures forall p: nat :: Next(r', p) == Next(r, p) && Tagged(r', p) == Tagged(r, p)
    ensures forall x {:trigger Chained(r', x)} :: x in r.pay && r.pay[x] < |r.sent| && Chained(r, x) ==> Chained(r', x)
  {
    forall x | x in r.pay && r.pay[x] < |r.sent| && Chained(r, x) ensures Chained(r', x) {
      assert End(r', x) == End(r, x);
    }
  }

  /** Changing bytes of [off, end) where nothing intact starts keeps the layout. */
  lemma StoreKeepsInv(r: Ring, r': Ring, end: nat)
    requires Inv(r) && Cleared(r, end)
    requires r' == r.(data := r'.data) && SameOutside(r.data, r'.data, r.off, end)
    ensures Inv(r') && Cleared(r', end)
    ensures forall p: nat :: Next(r', p) == Next(r, p) && Tagged(r', p) == Tagged(r, p)
  {
    hide Next, Tagged, Chained, SizeTag, WrapTag, Holds;
    StoreKeepsBytes(r, r', end);
    SameReading(r, r');
    forall x | x in r'.pay ensures r'.pay[x] < |r'.sent| && Chained(r', x) {
      assert Block(r, x);
      assert Chained(r, x);
    }
  }

  lemma TagWrapReading(r: Ring)
    requires Inv(r) && r.off != 0
    ensures Base(TagWrap(r)) == Base(r)
    ensures forall p: nat :: Next(TagWrap(r), p) == Next(r, p)
    ensures forall p: nat :: Tagged(TagWrap(r), p) >= Tagged(r, p)
  {
    var r' := TagWrap(r);
    if r.off in r.sizes && r.off in r.pay {
      assert r.pay[r.off] < r.first;
    }
  }

  lemma TagWrapKeepsBytes(r: Ring)
    requires Inv(r) && r.off != 0
    ensures var r' := TagWrap(r);
            && (forall x {:trigger Block(r', x)} :: x in r'.pay ==> Block(r', x))
            && (forall x {:trigger SizeTag(r', x)} :: x in r'.sizes ==> SizeTag(r', x))
            && (forall x {:trigger WrapTag(r', x)} :: x in r'.wraps ==> WrapTag(r', x))
  {
    var r', y := TagWrap(r), r.off;
    assert SameOutside(r.data, r'.data, y, y + 8);
    forall x | x in r'.pay ensures Block(r', x) {
      assert Block(r, x);
      BlockElsewhere(r, r', x, y, y + 8);
    }
    forall x | x in r'.sizes ensures SizeTag(r', x) {
      assert SizeTag(r, x) && Block(r, x);
      AlignedApart(x, y);
      AlignedApart(y, x);
      TagElsewhere(r, r', x, y, y + 8);
    }
    forall x | x in r'.wraps ensures WrapTag(r', x) {
      if x != y {
        assert WrapTag(r, x);
        AlignedApart(y, x);
        TagElsewhere(r, r', x, y, y + 8);
      }
    }
  }

  lemma TagWrapKeepsInv(r: Ring)
    requires Inv(r) && r.off != 0
    ensures Inv(TagWrap(r))
  {
    var r' := TagWrap(r);
    TagWrapKeepsBytes(r);
    TagWrapReading(r);
    forall x | x in r'.pay ensures r'.pay[x] < |r'.sent| && Chained(r', x) {
      assert Block(r, x) && Chained(r, x);
      assert End(r', x) == End(r, x);
    }
  }

  lemma StartLapReading(r: Ring)
    requires Inv(r) && r.off != 0 && r.off in r.wraps
    ensures forall p: nat :: p == r.off || p == 0 ==> Next(StartLap(r), p) == |r.sent|
    ensures forall p: nat :: p !in r.wraps && p != 0 ==> Next(StartLap(r), p) == Next(r, p)
    ensures forall p: nat :: Next(StartLap(r), p) >= Next(r, p) && Tagged(StartLap(r), p) >= Tagged(r, p)
    ensures Base(StartLap(r)) == |r.sent| >= Base(r)
  {
    var r' := StartLap(r);
    assert Block(r, 0);
    forall p: nat ensures Next(r', p) >= Next(r, p) && Tagged(r', p) >= Tagged(r, p) {
      if p in r.sizes && p in r.pay {
        assert Block(r, p);
      }
    }
  }

  lemma StartLapKeepsInv(r: Ring)
    requires Inv(r) && r.off != 0 && r.off in r.wraps
    ensures Inv(StartLap(r))
  {
    var r' := StartLap(r);
    StartLapReading(r);
    forall x | x in r'.pay ensures Block(r', x) && Chained(r', x) {
      assert Block(r, x) && Chained(r, x);
      BlockElsewhere(r, r', x, 0, 0);
      var e := End(r, x);
      if r.pay[x] >= r.first && e in r.wraps {
        assert WrapTag(r, e);
      }
    }
    forall x | x in r'.sizes ensures SizeTag(r', x) {
      assert SizeTag(r, x);
    }
    forall x | x in r'.wraps ensures WrapTag(r', x) {
      assert WrapTag(r, x);
    }
  }

  lemma StoreSizeReading(r: Ring, end: nat, msg: seq<byte>)
    requires Inv(r) && Message(msg) && r.off + 8 <= end <= r.size
    ensures Base(StoreSize(r, end, msg)) == Base(r)
    ensures forall p: nat :: !(r.off < p < end) ==> Next(StoreSize(r, end, msg), p) == Next(r, p)
    ensures forall p: nat :: !(r.off <= p < end) ==> Tagged(StoreSize(r, end, msg), p) == Tagged(r, p)
  {
  }

  lemma StoreSizeKeepsInv(r: Ring, end: nat, msg: seq<byte>)
    requires Inv(r) && Message(msg) && r.off + 8 <= end <= r.size
    ensures var r' := StoreSize(r, end, msg);
            Inv(r') && Cleared(r', end) && Holds(r'.data, r.off, EncodeInt64(|msg|))
  {
    var r' := StoreSize(r, end, msg);
    StoreSizeReading(r, end, msg);
    forall x | x in r'.pay ensures Block(r', x) && Chained(r', x) {
      assert Block(r, x) && Chained(r, x);
      BlockElsewhere(r, r', x, r.off, r.off + 8);
    }
    forall x | x in r'.sizes ensures SizeTag(r', x) {
      assert SizeTag(r, x) && Block(r, x);
      TagElsewhere(r, r', x, r.off, r.off + 8);
    }
    forall x | x in r'.wraps ensures WrapTag(r', x) {
      assert WrapTag(r, x);
      TagElsewhere(r, r', x, r.off, r.off + 8);
    }
  }

  lemma PublishReading(r: Ring, msg: seq<byte>)
    requires Inv(r) && Cleared(r, r.off + Footprint(msg))
    ensures Next(Publish(r, msg), r.off + Footprint(msg)) == |r.sent| + 1
    ensures forall p: nat :: p != r.off + Footprint(msg) ==> Next(Publish(r, msg), p) == Next(r, p)
    ensures forall p: nat :: p != r.off ==> Tagged(Publish(r, msg), p) == Tagged(r, p)
    ensures Tagged(r, r.off) == -1 && Tagged(Publish(r, msg), r.off) == |r.sent|
    ensures Base(Publish(r, msg)) == Base(r)
  {
  }

  ghost predicate Publishable(r: Ring, msg: seq<byte>) {
    && Message(msg)
    && r.off + Footprint(msg) + 8 <= r.size
    && Cleared(r, r.off + Footprint(msg))
    && Holds(r.data, r.off, EncodeInt64(|msg|))
    && Holds(r.data, r.off + 8, msg)
  }

  lemma PublishKeepsBytes(r: Ring, msg: seq<byte>)
    requires Inv(r) && Publishable(r, msg)
    ensures var r' := Publish(r, msg);
            && (forall x {:trigger Block(r', x)} :: x in r'.pay ==> Block(r', x))
            && (forall x {:trigger SizeTag(r', x)} :: x in r'.sizes ==> SizeTag(r', x))
            && (forall x {:trigger WrapTag(r', x)} :: x in r'.wraps ==> WrapTag(r', x))
  {
    var r' := Publish(r, msg);
    forall x | x in r'.pay ensures Block(r', x) {
      if x != r.off {
        assert Block(r, x);
        BlockElsewhere(r, r', x, 0, 0);
      }
    }
    forall x | x in r'.sizes ensures SizeTag(r', x) {
      if x != r.off {
        assert SizeTag(r, x);
        TagElsewhere(r, r', x, 0, 0);
      }
    }
    forall x | x in r'.wraps ensures WrapTag(r', x) {
      assert WrapTag(r, x);
      TagElsewhere(r, r', x, 0, 0);
    }
  }

  lemma PublishKeepsChain(r: Ring, msg: seq<byte>, x: nat)
    requires Inv(r) && Publishable(r, msg) && x in Publish(r, msg).pay
    ensures Publish(r, msg).pay[x] <= |r.sent| && Chained(Publish(r, msg), x)
  {
    PublishReading(r, msg);
    if x != r.off {
      assert Block(r, x) && Chained(r, x);
      assert End(Publish(r, msg), x) == End(r, x);
    }
  }

  lemma PublishKeepsShape(r: Ring, msg: seq<byte>)
    requires Inv(r) && Publishable(r, msg)
    ensures Shape(Publish(r, msg)) && Publish(r, msg).sizes !! Publish(r, msg).wraps
  {
    AlignedApart(r.off, Footprint(msg));
    assert forall k :: 0 <= k < |r.sent| ==> (r.sent + [msg])[k] == r.sent[k];
  }

  lemma PublishKeepsInv(r: Ring, msg: seq<byte>)
    requires Inv(r) && Publishable(r, msg)
    ensures Inv(Publish(r, msg))
  {
    var r' := Publish(r, msg);
    PublishKeepsShape(r, msg);
    PublishKeepsBytes(r, msg);
    forall x | x in r'.pay ensures r'.pay[x] < |r'.sent| && Chained(r', x) {
      PublishKeepsChain(r, msg, x);
    }
  }

  lemma NoWrapBelow(r: Ring)
    requires Inv(r)
    ensures forall x :: x in r.wraps ==> r.off <= x
  {
    forall x | x in r.wraps ensures r.off <= x {
      assert WrapTag(r, x);
    }
  }

  /** Messages k, k + 1, ... lie back to back from `x` up to the write offset, each behind its size tag. */
  ghost predicate Tiled(data: seq<byte>, sent: seq<seq<byte>>, off: nat, x: nat, k: nat)
    decreases |sent| - k
  {
    if k >= |sent| then k == |sent| && x == off
    else
      && x % 8 == 0 && |sent[k]| < TWO_32
      && Holds(data, x, EncodeInt64(|sent[k]|))
      && Holds(data, x + 8, sent[k])
      && Tiled(data, sent, off, x + Footprint(sent[k]), k + 1)
  }

  lemma {:induction false} TiledFrom(r: Ring, x: nat)
    requires Inv(r) && x in r.sizes && x in r.pay && x < r.off && r.pay[x] >= r.prev
    ensures Tiled(r.data, r.sent, r.off, x, r.pay[x])
    decreases |r.sent| - r.pay[x]
  {
    assert Block(r, x) && Chained(r, x) && SizeTag(r, x);
    var e := End(r, x);
    if e != r.off {
      assert e in r.wraps ==> WrapTag(r, e);
      TiledFrom(r, e);
    }
  }

  /** The current lap tiles [0, off), and the next wraparound tag fits behind it. */
  lemma CurrentLapTiles(r: Ring)
    requires Inv(r)
    ensures Tiled(r.data, r.sent, r.off, 0, r.first) && r.off + 8 <= r.size
  {
    if r.off != 0 {
      TiledFrom(r, 0);
    }
  }
}
