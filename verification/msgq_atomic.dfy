// msgq with send and recv as single operations (cereal/messaging/msgq.cc).
//
// The functions give the whole effect of one call on the annotated segment and
// on the readers' cursors; the lemmas say which messages a reader gets.

module MsgqAtomic {
  import opened Words
  import opened MsgqRing
  import opened MsgqSteps

  /** A reader between two calls; `due` is the index after the last message it passed, and `lap` the lap its
      pointer is on, without wrapping around. */
  datatype Cursor = Cursor(ptr: Ptr, valid: bool, due: nat, lap: nat)

  datatype Queue = Queue(ring: Ring, laps: nat, cursors: seq<Cursor>)

  function WritePtr(q: Queue): Ptr {
    Ptr(q.laps % TWO_32, q.ring.off)
  }

  /** A cursor is a reader of the step machine that is not inside a call. */
  function AsReader(c: Cursor): Reader {
    Reader(c.ptr, c.valid, RStart, false, [], c.lap)
  }

  function AsTrace(c: Cursor): Trace {
    Trace(c.due - 1, 0, [])
  }

  ghost predicate CursorOk(r: Ring, laps: nat, c: Cursor) {
    ReaderOk(r, laps, AsReader(c), AsTrace(c))
  }

  ghost predicate Ok(q: Queue) {
    && Inv(q.ring)
    && (forall i {:trigger q.cursors[i]} :: 0 <= i < |q.cursors| ==> CursorOk(q.ring, q.laps, q.cursors[i]))
  }

  /** Between two sends the write pointer is at offset 0 only before the first message. */
  ghost predicate Settled(r: Ring) {
    r.off == 0 ==> r.sent == [] && r.pay == map[] && r.wraps == {} && r.sizes == {}
  }

  function Revoke(c: Cursor, kill: bool): Cursor {
    if kill then c.(valid := false) else c
  }

  predicate KilledByWrap(c: Cursor, wp: Ptr) {
    c.ptr.off > wp.off && c.ptr.cycles != wp.cycles
  }

  predicate KilledByStore(c: Cursor, wp: Ptr, end: nat) {
    wp.off <= c.ptr.off < end && c.ptr.cycles != wp.cycles
  }

  predicate NeedsWrap(size: nat, off: nat, msg: seq<byte>) {
    size - off - Footprint(msg) - 8 <= 0
  }

  function SendWrap(q: Queue): Queue
    requires q.ring.off + 8 <= |q.ring.data|
  {
    Queue(StartLap(TagWrap(q.ring)), q.laps + 1,
          seq(|q.cursors|, i requires 0 <= i < |q.cursors| =>
              Revoke(q.cursors[i], KilledByWrap(q.cursors[i], WritePtr(q)))))
  }

  function Written(r: Ring, msg: seq<byte>): Ring
    requires Message(msg) && r.off + Footprint(msg) <= |r.data|
  {
    var r' := StoreSize(r, r.off + Footprint(msg), msg);
    r'.(data := Put(r'.data, r.off + 8, msg))
  }

  function SendAt(q: Queue, msg: seq<byte>): Queue
    requires Message(msg) && q.ring.off + Footprint(msg) <= |q.ring.data|
  {
    Queue(Publish(Written(q.ring, msg), msg), q.laps,
          seq(|q.cursors|, i requires 0 <= i < |q.cursors| =>
            Revoke(q.cursors[i], KilledByStore(q.cursors[i], WritePtr(q), q.ring.off + Footprint(msg)))))
  }

  /** The whole effect of msgq_msg_send. */
  function Send(q: Queue, msg: seq<byte>): Queue
    requires Message(msg) && Sendable(q.ring.size, msg) && |q.ring.data| == q.ring.size && q.ring.off + 8 <= q.ring.size
  {
    if NeedsWrap(q.ring.size, q.ring.off, msg) then SendAt(SendWrap(q), msg) else SendAt(q, msg)
  }

  // ---- Send

  /** A message starts the next lap unless it, its tag and another tag fit before the end, with room to spare:
      then the publisher always finds space for a wraparound tag. */
  lemma WrapsIff(q: Queue, msg: seq<byte>)
    requires Message(msg) && Sendable(q.ring.size, msg) && |q.ring.data| == q.ring.size && q.ring.off + 8 <= q.ring.size
    ensures var taken := (|msg| + 15) / 8 * 8;
            if q.ring.off + taken + 8 < q.ring.size
            then Send(q, msg).laps == q.laps && Send(q, msg).ring.off == q.ring.off + taken
            else Send(q, msg).laps == q.laps + 1 && Send(q, msg).ring.off == taken
  {
  }

  /** No valid reader is 2^32 laps behind, where the packed cycles would repeat. */
  predicate InTime(q: Queue) {
    forall i :: 0 <= i < |q.cursors| && q.cursors[i].valid ==> q.laps < q.cursors[i].lap + TWO_32
  }

  lemma SendWrapKeeps(q: Queue)
    requires Ok(q) && q.ring.off != 0 && InTime(SendWrap(q))
    ensures Ok(SendWrap(q))
  {
    var q' := SendWrap(q);
    var r := TagWrap(q.ring);
    TagWrapKeepsInv(q.ring);
    StartLapKeepsInv(r);
    forall i | 0 <= i < |q'.cursors| ensures CursorOk(q'.ring, q'.laps, q'.cursors[i]) {
      var rd, tr := AsReader(q.cursors[i]), AsTrace(q.cursors[i]);
      assert CursorOk(q.ring, q.laps, q.cursors[i]);
      ReaderAfterTagWrap(q.ring, q.laps, rd, tr);
      if q'.cursors[i].valid {
        assert q'.cursors[i] == q.cursors[i];
        ReaderAfterStartLap(r, q.laps, rd, tr);
      }
    }
  }

  lemma WrittenKeeps(r: Ring, msg: seq<byte>)
    requires Inv(r) && Message(msg) && r.off + Footprint(msg) + 8 <= r.size
    ensures Inv(Written(r, msg)) && Publishable(Written(r, msg), msg)
    ensures var end := r.off + Footprint(msg);
            forall p: nat :: Next(Written(r, msg), p) == Next(StoreSize(r, end, msg), p)
                          && Tagged(Written(r, msg), p) == Tagged(StoreSize(r, end, msg), p)
  {
    var end := r.off + Footprint(msg);
    var r1, r2 := StoreSize(r, end, msg), Written(r, msg);
    StoreSizeKeepsInv(r, end, msg);
    StoreKeepsInv(r1, r2, end);
    HoldsElsewhere(r1.data, r2.data, r.off + 8, end, r.off, EncodeInt64(|msg|));
  }

  lemma ReaderAfterWritten(r: Ring, laps: nat, rd: Reader, tr: Trace, msg: seq<byte>)
    requires Inv(r) && Message(msg) && r.off + Footprint(msg) + 8 <= r.size
    requires ReaderOk(r, laps, rd, tr) && Clear(r.off, r.off + Footprint(msg), rd)
    ensures ReaderOk(Written(r, msg), laps, rd, tr)
  {
    ReaderAfterStoreSize(r, laps, rd, tr, r.off + Footprint(msg), msg);
    WrittenKeeps(r, msg);
  }

  /** A reader the scan has not revoked survives the store and the publication. */
  lemma CursorAfterSendAt(q: Queue, msg: seq<byte>, i: nat)
    requires Ok(q) && Message(msg) && q.ring.off + Footprint(msg) + 8 <= q.ring.size && i < |q.cursors|
    ensures CursorOk(SendAt(q, msg).ring, q.laps, SendAt(q, msg).cursors[i])
  {
    hide Block, Chained, SizeTag, WrapTag, Holds, OnLap;
    var r, end, c := Written(q.ring, msg), q.ring.off + Footprint(msg), q.cursors[i];
    var rd, tr := AsReader(c), AsTrace(c);
    assert CursorOk(q.ring, q.laps, c);
    WrittenKeeps(q.ring, msg);
    if !KilledByStore(c, WritePtr(q), end) {
      NotKilledIsClear(q.ring, q.laps, rd, tr, end);
      ReaderAfterWritten(q.ring, q.laps, rd, tr, msg);
      ReaderAfterPublish(r, q.laps, rd, tr, msg);
    }
  }

  lemma SendAtKeeps(q: Queue, msg: seq<byte>)
    requires Ok(q) && Message(msg) && q.ring.off + Footprint(msg) + 8 <= q.ring.size
    ensures Ok(SendAt(q, msg)) && Settled(SendAt(q, msg).ring)
  {
    hide Block, Chained, SizeTag, WrapTag, CursorOk, Publishable;
    var r := Written(q.ring, msg);
    WrittenKeeps(q.ring, msg);
    PublishKeepsInv(r, msg);
    forall i | 0 <= i < |q.cursors| ensures CursorOk(SendAt(q, msg).ring, q.laps, SendAt(q, msg).cursors[i]) {
      CursorAfterSendAt(q, msg, i);
    }
  }

  /** A send that begins a lap must not leave a valid reader 2^32 laps behind. */
  ghost predicate SendRequires(q: Queue, msg: seq<byte>) {
    && Ok(q) && Settled(q.ring) && Sendable(q.ring.size, msg)
    && (NeedsWrap(q.ring.size, q.ring.off, msg) ==> InTime(SendWrap(q)))
  }

  lemma SendableFits(r: Ring, msg: seq<byte>)
    requires Inv(r) && Sendable(r.size, msg)
    ensures Message(msg) && Footprint(msg) + 8 <= r.size
    ensures NeedsWrap(r.size, r.off, msg) ==> r.off != 0
  {
  }

  lemma SendKeeps(q: Queue, msg: seq<byte>)
    requires SendRequires(q, msg)
    ensures Message(msg) && Ok(Send(q, msg)) && Settled(Send(q, msg).ring)
  {
    SendableFits(q.ring, msg);
    if NeedsWrap(q.ring.size, q.ring.off, msg) {
      SendWrapKeeps(q);
      SendAtKeeps(SendWrap(q), msg);
    } else {
      SendAtKeeps(q, msg);
    }
  }

  /** The reader will get every message from `due` on: its position is the next undelivered message, written no
      earlier than the previous lap. */
  ghost predicate InSync(r: Ring, c: Cursor) {
    && c.valid
    && Next(r, c.ptr.off) == c.due
    && (c.ptr.off != r.off && c.ptr.off !in r.wraps ==> c.ptr.off in r.pay && r.pay[c.ptr.off] >= r.prev)
  }

  lemma SendWrapKeepsSync(q: Queue, i: nat)
    requires Ok(q) && q.ring.off != 0 && i < |q.cursors| && InSync(q.ring, q.cursors[i])
    requires SendWrap(q).cursors[i].valid && q.cursors[i].ptr.off != 0
    ensures InSync(SendWrap(q).ring, SendWrap(q).cursors[i])
    ensures q.cursors[i].ptr.off <= q.ring.off
  {
    var c, r := q.cursors[i], TagWrap(q.ring);
    assert CursorOk(q.ring, q.laps, c);
    TagWrapKeepsInv(q.ring);
    TagWrapReading(q.ring);
    StartLapReading(r);
    NoWrapBelow(q.ring);
  }

  /** A send changes what a reader finds only where it stored, and at the new write offset. */
  lemma SendAtReading(q: Queue, msg: seq<byte>)
    requires Ok(q) && Message(msg) && q.ring.off + Footprint(msg) + 8 <= q.ring.size
    ensures var r', end := SendAt(q, msg).ring, q.ring.off + Footprint(msg);
            && Next(r', end) == |q.ring.sent| + 1
            && (forall p: nat :: !(q.ring.off < p <= end) ==> Next(r', p) == Next(q.ring, p))
  {
    StoreSizeReading(q.ring, q.ring.off + Footprint(msg), msg);
    WrittenKeeps(q.ring, msg);
    PublishReading(Written(q.ring, msg), msg);
  }

  lemma SendAtSync(q: Queue, msg: seq<byte>, i: nat)
    requires Ok(q) && Message(msg) && q.ring.off + Footprint(msg) + 8 <= q.ring.size
    requires i < |q.cursors| && InSync(q.ring, q.cursors[i]) && SendAt(q, msg).cursors[i].valid
    ensures InSync(SendAt(q, msg).ring, q.cursors[i]) <==> q.cursors[i].ptr.off != SendAt(q, msg).ring.off
  {
    var c, end := q.cursors[i], q.ring.off + Footprint(msg);
    assert CursorOk(q.ring, q.laps, c);
    NotKilledIsClear(q.ring, q.laps, AsReader(c), AsTrace(c), end);
    SendAtReading(q, msg);
  }

  /**
   * What decides, before a send, whether reader `i` will get the messages due
   * to it: its read offset against the area the send takes.
   */
  predicate Survives(q: Queue, msg: seq<byte>, i: nat)
    requires i < |q.cursors|
  {
    var c, off, taken := q.cursors[i], q.ring.off, Footprint(msg);
    if NeedsWrap(q.ring.size, off, msg) then taken < c.ptr.off <= off
    else c.ptr.off < off || c.ptr.off > off + taken || (c.ptr.off == off && c.ptr.cycles == q.laps % TWO_32)
  }

  /** Afterwards the flag is still set, and the offsets differ. */
  predicate NotLapped(q: Queue, i: nat) {
    i < |q.cursors| && q.cursors[i].valid && q.cursors[i].ptr.off != q.ring.off
  }

  lemma SurvivesIsNotLapped(q: Queue, msg: seq<byte>, i: nat)
    requires SendRequires(q, msg) && Message(msg) && i < |q.cursors| && q.cursors[i].valid
    ensures Survives(q, msg, i) <==> NotLapped(Send(q, msg), i)
  {
    hide Inv, Settled, Next, Tagged, Authentic, InBounds;
    assert CursorOk(q.ring, q.laps, q.cursors[i]);
    SendableFitsOk(q, msg);
    LapsDiffer(q.cursors[i].lap, q.laps);
    if NeedsWrap(q.ring.size, q.ring.off, msg) && SendWrap(q).cursors[i].valid {
      assert InTime(SendWrap(q));
      LapsDiffer(q.cursors[i].lap, q.laps + 1);
    }
  }

  lemma SendableFitsOk(q: Queue, msg: seq<byte>)
    requires SendRequires(q, msg)
    ensures Message(msg) && Footprint(msg) + 8 <= q.ring.size == |q.ring.data| && q.ring.off + 8 <= q.ring.size
    ensures NeedsWrap(q.ring.size, q.ring.off, msg) ==> q.ring.off != 0
  {
    SendableFits(q.ring, msg);
  }

  /** A reader in sync stays in sync over a send exactly when it survives it. */
  lemma SendKeepsSyncIff(q: Queue, msg: seq<byte>, i: nat)
    requires SendRequires(q, msg) && Message(msg)
    requires i < |q.cursors| && InSync(q.ring, q.cursors[i])
    ensures InSync(Send(q, msg).ring, Send(q, msg).cursors[i]) <==> Survives(q, msg, i)
  {
    SurvivesIsNotLapped(q, msg, i);
    SendableFits(q.ring, msg);
    if Send(q, msg).cursors[i].valid {
      if NeedsWrap(q.ring.size, q.ring.off, msg) {
        SendWrapKeeps(q);
        assert CursorOk(q.ring, q.laps, q.cursors[i]);
        SendWrapKeepsSync(q, i);
        SendAtSync(SendWrap(q), msg, i);
      } else {
        SendAtSync(q, msg, i);
      }
    }
  }

  // ---- Recv

  /** Abort is a failed assertion on the size. */
  datatype Outcome = Again(c: Cursor) | Return(c: Cursor, msg: Option<seq<byte>>) | Abort(c: Cursor)

  function Slice(data: seq<byte>, lo: int, hi: int): seq<byte> {
    if 0 <= lo <= hi <= |data| then data[lo..hi] else []
  }

  /** A cursor straight after msgq_reset_reader. */
  function Synced(r: Ring, laps: nat): Cursor {
    Cursor(Ptr(laps % TWO_32, r.off), true, |r.sent|, laps)
  }

  /** One pass of msgq_msg_recv from `start` to a `goto start` or a return, on the stored bytes. */
  function Attempt(r: Ring, laps: nat, c: Cursor, conflate: bool): Outcome {
    if !c.valid then Again(Synced(r, laps))
    else if c.ptr.off == r.off then Return(c, None)
    else
      var size := LoadInt64(r.data, c.ptr.off);
      if size == WRAP_TAG then Again(c.(ptr := Ptr((c.ptr.cycles + 1) % TWO_32, 0), lap := c.lap + 1))
      else if !(0 < size < r.size) then Abort(c)
      else
        var next := c.(ptr := Ptr(c.ptr.cycles, NextRead(c.ptr, size)),
                       due := if c.ptr.off in r.pay then r.pay[c.ptr.off] + 1 else c.due);
        if conflate && next.ptr.off != r.off then Again(next)
        else Return(next, Some(Slice(r.data, c.ptr.off + 8, c.ptr.off + 8 + size)))
  }

  /** How far a reader still is from the end of the goto loop. */
  function OnWrap(r: Ring, c: Cursor): nat {
    if c.ptr.off != r.off && c.ptr.off in r.wraps then 1 else 0
  }

  ghost predicate RecvRequires(r: Ring, laps: nat, c: Cursor) {
    Inv(r) && Settled(r) && CursorOk(r, laps, c)
  }

  /** The bytes of an intact message. */
  lemma FoundSize(r: Ring, rp: Ptr)
    requires |r.data| == r.size < TWO_32 && rp.off in r.pay && SizeTag(r, rp.off) && Block(r, rp.off)
    requires Message(r.sent[r.pay[rp.off]])
    ensures var x, size := rp.off, LoadInt64(r.data, rp.off);
            && size == |r.sent[r.pay[x]]| > 0 && x + 8 + size <= |r.data|
            && NextRead(rp, size) == End(r, x) && Slice(r.data, x + 8, x + 8 + size) == r.sent[r.pay[x]]
  {
    var m := r.sent[r.pay[rp.off]];
    Int64RoundTrip(|m|);
    NextReadInside(r.size, rp, |m|);
  }

  /** The tag a valid reader finds: a wraparound, or the size of the message with index Next. */
  lemma FoundTag(r: Ring, laps: nat, c: Cursor)
    requires RecvRequires(r, laps, c) && c.valid && c.ptr.off != r.off
    ensures c.ptr.off + 8 <= |r.data| == r.size
    ensures var x, size := c.ptr.off, LoadInt64(r.data, c.ptr.off);
            if x in r.wraps then size == WRAP_TAG && c.lap < laps
            else
              && x in r.pay && Block(r, x) && Chained(r, x)
              && Next(r, x) == r.pay[x] && size == |r.sent[r.pay[x]]| > 0
              && x + 8 + size <= |r.data| && NextRead(c.ptr, size) == End(r, x)
              && Slice(r.data, x + 8, x + 8 + size) == r.sent[r.pay[x]]
  {
    hide Slice, NextRead, End;
    var x := c.ptr.off;
    if x in r.wraps {
      assert WrapTag(r, x);
      Int64RoundTrip(WRAP_TAG);
    } else {
      assert SizeTag(r, x) && Block(r, x) && Chained(r, x);
      FoundSize(r, c.ptr);
    }
  }

  /** A revoked reader is put back at the write pointer. */
  lemma ResetKeeps(r: Ring, laps: nat, c: Cursor)
    requires RecvRequires(r, laps, c)
    ensures CursorOk(r, laps, Synced(r, laps))
  {
    hide Block, Chained, SizeTag, WrapTag;
  }

  /** A pass that jumps back has moved the reader on. */
  ghost predicate Progress(r: Ring, c: Cursor, c': Cursor) {
    || Next(r, c'.ptr.off) > Next(r, c.ptr.off)
    || (Next(r, c'.ptr.off) == Next(r, c.ptr.off) && OnWrap(r, c') < OnWrap(r, c))
  }

  lemma WrapAttemptKeeps(r: Ring, laps: nat, c: Cursor)
    requires RecvRequires(r, laps, c) && c.valid && c.ptr.off != r.off && c.ptr.off in r.wraps
    ensures var c' := c.(ptr := Ptr((c.ptr.cycles + 1) % TWO_32, 0), lap := c.lap + 1);
            CursorOk(r, laps, c') && Progress(r, c, c')
  {
    hide OnLap, Block, Chained, SizeTag;
    FoundTag(r, laps, c);
    NoWrapBelow(r);
    NextLap(c.ptr, c.lap);
  }

  lemma ReadAttemptKeeps(r: Ring, laps: nat, c: Cursor)
    requires RecvRequires(r, laps, c) && c.valid && c.ptr.off != r.off && c.ptr.off !in r.wraps
    ensures c.ptr.off in r.pay && 0 < LoadInt64(r.data, c.ptr.off) < r.size
    ensures var next := Ptr(c.ptr.cycles, NextRead(c.ptr, LoadInt64(r.data, c.ptr.off)));
            var c' := c.(ptr := next, due := r.pay[c.ptr.off] + 1);
            CursorOk(r, laps, c') && Progress(r, c, c')
  {
    hide OnLap;
    FoundTag(r, laps, c);
    SameLap(c.ptr, c.lap, Ptr(c.ptr.cycles, NextRead(c.ptr, LoadInt64(r.data, c.ptr.off))));
  }

  lemma AttemptKeeps(r: Ring, laps: nat, c: Cursor, conflate: bool)
    requires RecvRequires(r, laps, c)
    ensures !Attempt(r, laps, c, conflate).Abort?
    ensures CursorOk(r, laps, Attempt(r, laps, c, conflate).c) && Attempt(r, laps, c, conflate).c.valid
    ensures Attempt(r, laps, c, conflate).Again? && c.valid ==> Progress(r, c, Attempt(r, laps, c, conflate).c)
  {
    hide CursorOk, Progress, Inv;
    if !c.valid {
      ResetKeeps(r, laps, c);
    } else if c.ptr.off != r.off {
      FoundTag(r, laps, c);
      if c.ptr.off in r.wraps {
        WrapAttemptKeeps(r, laps, c);
      } else {
        ReadAttemptKeeps(r, laps, c);
      }
    }
  }

  /** The whole effect of msgq_msg_recv while nobody else acts: the goto loop ends. */
  function Recv(r: Ring, laps: nat, c: Cursor, conflate: bool): (Cursor, Option<seq<byte>>)
    requires RecvRequires(r, laps, c)
    decreases if c.valid then 0 else 1, |r.sent| - Next(r, c.ptr.off), OnWrap(r, c)
  {
    AttemptKeeps(r, laps, c, conflate);
    match Attempt(r, laps, c, conflate)
    case Again(c') => Recv(r, laps, c', conflate)
    case Return(c', msg) => (c', msg)
  }

  lemma NextBounded(r: Ring, x: nat)
    requires Inv(r)
    ensures Next(r, x) <= |r.sent|
  {
    if x in r.pay {
      assert Block(r, x);
    }
  }

  /** What msgq_msg_ready answers: after revalidation, the offsets differ. */
  predicate Ready(r: Ring, c: Cursor) {
    c.valid && c.ptr.off != r.off
  }

  /** What it leaves behind. */
  function Poll(r: Ring, laps: nat, c: Cursor): Cursor {
    if c.valid then c else Synced(r, laps)
  }

  /** After polling, the flag is set, and the reader is as before or in sync with nothing due. */
  lemma PollSyncs(r: Ring, laps: nat, c: Cursor)
    requires RecvRequires(r, laps, c)
    ensures var c' := Poll(r, laps, c);
            && CursorOk(r, laps, c') && c'.valid
            && (if c.valid then c' == c else InSync(r, c') && c'.due == |r.sent|)
  {
    ResetKeeps(r, laps, c);
  }

  /**
   * What recv returns.  Without conflation it is the message at the reader's
   * position, and nothing is skipped in the segment; with conflation it is the
   * newest message.  It returns something exactly when msgq_msg_ready says so.
   */
  lemma {:induction false} RecvDelivers(r: Ring, laps: nat, c: Cursor, conflate: bool)
    requires RecvRequires(r, laps, c)
    ensures var (c', msg) := Recv(r, laps, c, conflate);
            && CursorOk(r, laps, c') && c'.valid
            && (msg.Some? <==> Ready(r, c))
            && (msg == None ==> c'.ptr.off == r.off)
            && (msg.Some? ==> var k := if conflate then |r.sent| - 1 else Next(r, c.ptr.off);
                  && 0 <= k < |r.sent| && msg.value == r.sent[k] && c'.due == k + 1
                  && (conflate ==> c'.ptr.off == r.off))
    decreases if c.valid then 0 else 1, |r.sent| - Next(r, c.ptr.off), OnWrap(r, c)
  {
    AttemptKeeps(r, laps, c, conflate);
    if c.valid && c.ptr.off != r.off {
      FoundTag(r, laps, c);
      NextBounded(r, c.ptr.off);
      NoWrapBelow(r);
    }
    match Attempt(r, laps, c, conflate)
    case Again(c') => RecvDelivers(r, laps, c', conflate);
    case Return(_, _) =>
  }

  /** A reader in sync gets exactly the message that is due, or nothing if it is caught up, and stays in sync. */
  lemma {:induction false} RecvInSync(r: Ring, laps: nat, c: Cursor)
    requires RecvRequires(r, laps, c) && InSync(r, c)
    ensures var (c', msg) := Recv(r, laps, c, false);
            && InSync(r, c')
            && (if c.due == |r.sent| then msg == None && c' == c
                else c.due < |r.sent| && msg == Some(r.sent[c.due]) && c'.due == c.due + 1)
    decreases |r.sent| - Next(r, c.ptr.off), OnWrap(r, c)
  {
    AttemptKeeps(r, laps, c, false);
    NextBounded(r, c.ptr.off);
    if c.ptr.off != r.off {
      FoundTag(r, laps, c);
      NoWrapBelow(r);
      assert r.off != 0 ==> Block(r, 0);
    }
    match Attempt(r, laps, c, false)
    case Again(c') => RecvInSync(r, laps, c');
    case Return(c', _) =>
      if c'.ptr.off in r.pay && c'.ptr.off != r.off {
        assert Block(r, c'.ptr.off);
      }
  }

  // ---- Sequences of calls

  datatype Call = SendCall(msg: seq<byte>) | RecvCall(reader: nat, conflate: bool) | ReadyCall(reader: nat)

  ghost predicate Callable(q: Queue, call: Call) {
    match call
    case SendCall(msg) => SendRequires(q, msg) && Message(msg)
    case RecvCall(i, _) => Ok(q) && Settled(q.ring) && i < |q.cursors|
    case ReadyCall(i) => Ok(q) && Settled(q.ring) && i < |q.cursors|
  }

  function Apply(q: Queue, call: Call): Queue
    requires Callable(q, call)
  {
    match call
    case SendCall(msg) => Send(q, msg)
    case RecvCall(i, conflate) => q.(cursors := q.cursors[i := Recv(q.ring, q.laps, q.cursors[i], conflate).0])
    case ReadyCall(i) => q.(cursors := q.cursors[i := Poll(q.ring, q.laps, q.cursors[i])])
  }

  /** What reader `i` gets out of one call. */
  function Got(q: Queue, call: Call, i: nat): seq<seq<byte>>
    requires Callable(q, call)
  {
    if call.RecvCall? && call.reader == i then
      var msg := Recv(q.ring, q.laps, q.cursors[i], call.conflate).1;
      if msg.Some? then [msg.value] else []
    else []
  }

  lemma ApplyKeeps(q: Queue, call: Call)
    requires Callable(q, call)
    ensures Ok(Apply(q, call)) && Settled(Apply(q, call).ring)
    ensures |Apply(q, call).cursors| == |q.cursors|
    ensures Apply(q, call).ring.size == q.ring.size && q.ring.sent <= Apply(q, call).ring.sent
  {
    match call
    case SendCall(msg) => SendKeeps(q, msg);
    case RecvCall(i, conflate) => RecvDelivers(q.ring, q.laps, q.cursors[i], conflate);
    case ReadyCall(i) => PollSyncs(q.ring, q.laps, q.cursors[i]);
  }

  /** Every call can be made, and reader `i` reads without conflation. */
  ghost predicate Admissible(q: Queue, calls: seq<Call>, i: nat)
    decreases |calls|
  {
    && Ok(q) && Settled(q.ring) && i < |q.cursors|
    && (calls == [] ||
        (&& Callable(q, calls[0]) && (calls[0].RecvCall? && calls[0].reader == i ==> !calls[0].conflate)
         && Admissible(Apply(q, calls[0]), calls[1..], i)))
  }

  function RunCalls(q: Queue, calls: seq<Call>, i: nat): Queue
    requires Admissible(q, calls, i)
    decreases |calls|
  {
    if calls == [] then q else RunCalls(Apply(q, calls[0]), calls[1..], i)
  }

  function Delivered(q: Queue, calls: seq<Call>, i: nat): seq<seq<byte>>
    requires Admissible(q, calls, i)
    decreases |calls|
  {
    if calls == [] then []
    else Got(q, calls[0], i) + Delivered(Apply(q, calls[0]), calls[1..], i)
  }

  /** The send-order indices of what reader `i` gets. */
  function DeliveredAt(q: Queue, calls: seq<Call>, i: nat): seq<nat>
    requires Admissible(q, calls, i)
    decreases |calls|
  {
    if calls == [] then []
    else GotAt(q, calls[0], i) + DeliveredAt(Apply(q, calls[0]), calls[1..], i)
  }

  function GotAt(q: Queue, call: Call, i: nat): (k: seq<nat>)
    requires Callable(q, call)
    ensures |k| == |Got(q, call, i)|
    ensures forall j :: 0 <= j < |k| ==> k[j] < |q.ring.sent| && Got(q, call, i)[j] == q.ring.sent[k[j]]
  {
    if call.RecvCall? && call.reader == i then
      RecvDelivers(q.ring, q.laps, q.cursors[i], call.conflate);
      var (c, msg) := Recv(q.ring, q.laps, q.cursors[i], call.conflate);
      if msg.Some? then [c.due - 1] else []
    else []
  }

  /** Reader `i` survives every send. */
  ghost predicate Undisturbed(q: Queue, calls: seq<Call>, i: nat)
    requires Admissible(q, calls, i)
    decreases |calls|
  {
    calls == [] ||
    (&& (calls[0].SendCall? ==> Survives(q, calls[0].msg, i))
     && Undisturbed(Apply(q, calls[0]), calls[1..], i))
  }

  /** `got` is exactly the run of messages that reader `i` passed between `q` and `q'`. */
  ghost predicate FifoFrom(q: Queue, q': Queue, i: nat, got: seq<seq<byte>>) {
    && i < |q.cursors| && i < |q'.cursors| && InSync(q'.ring, q'.cursors[i]) && q.ring.sent <= q'.ring.sent
    && q.cursors[i].due <= q'.cursors[i].due <= |q'.ring.sent|
    && got == q'.ring.sent[q.cursors[i].due..q'.cursors[i].due]
  }

  lemma OneSendInSync(q: Queue, msg: seq<byte>, i: nat)
    requires SendRequires(q, msg) && Message(msg) && i < |q.cursors| && InSync(q.ring, q.cursors[i])
    requires Survives(q, msg, i)
    ensures FifoFrom(q, Send(q, msg), i, [])
  {
    SendKeepsSyncIff(q, msg, i);
    SurvivesIsNotLapped(q, msg, i);
    assert CursorOk(q.ring, q.laps, q.cursors[i]);
    assert Send(q, msg).ring.sent == q.ring.sent + [msg];
  }

  lemma OneCallInSync(q: Queue, call: Call, i: nat)
    requires Callable(q, call) && i < |q.cursors| && InSync(q.ring, q.cursors[i])
    requires call.RecvCall? && call.reader == i ==> !call.conflate
    requires call.SendCall? ==> Survives(q, call.msg, i)
    ensures FifoFrom(q, Apply(q, call), i, Got(q, call, i))
  {
    ApplyKeeps(q, call);
    assert CursorOk(q.ring, q.laps, q.cursors[i]);
    match call
    case SendCall(msg) => OneSendInSync(q, msg, i);
    case RecvCall(r, _) =>
      if r == i {
        RecvInSync(q.ring, q.laps, q.cursors[i]);
      }
    case ReadyCall(_) =>
  }

  lemma FifoJoins(q: Queue, q1: Queue, q2: Queue, i: nat, got1: seq<seq<byte>>, got2: seq<seq<byte>>)
    requires FifoFrom(q, q1, i, got1) && FifoFrom(q1, q2, i, got2)
    ensures FifoFrom(q, q2, i, got1 + got2)
  {
    var a, b, c := q.cursors[i].due, q1.cursors[i].due, q2.cursors[i].due;
    assert q1.ring.sent[a..b] == q2.ring.sent[a..b];
    assert q2.ring.sent[a..c] == q2.ring.sent[a..b] + q2.ring.sent[b..c];
  }

  /**
   * Lossless FIFO over any sequence of calls and any number of wraparounds: a
   * reader in sync that survives every send gets exactly the messages from the one
   * due onwards, in order, and the rest is still waiting for it.
   */
  lemma {:induction false} LosslessFifo(q: Queue, calls: seq<Call>, i: nat)
    requires Admissible(q, calls, i) && InSync(q.ring, q.cursors[i]) && Undisturbed(q, calls, i)
    ensures FifoFrom(q, RunCalls(q, calls, i), i, Delivered(q, calls, i))
    decreases |calls|
  {
    if calls == [] {
      assert CursorOk(q.ring, q.laps, q.cursors[i]);
    } else {
      var q1 := Apply(q, calls[0]);
      OneCallInSync(q, calls[0], i);
      LosslessFifo(q1, calls[1..], i);
      FifoJoins(q, q1, RunCalls(q, calls, i), i, Got(q, calls[0], i), Delivered(q1, calls[1..], i));
    }
  }

  // ---- What a reader that does not survive a send loses

  /** Reader `i` can only get messages from index `low` on. */
  ghost predicate Past(q: Queue, i: nat, low: nat) {
    i < |q.cursors| && low <= |q.ring.sent| && CursorOk(q.ring, q.laps, q.cursors[i].(due := low))
  }

  lemma LappedIsPast(q: Queue, i: nat)
    requires Ok(q) && i < |q.cursors| && !NotLapped(q, i)
    ensures Past(q, i, |q.ring.sent|)
  {
    assert CursorOk(q.ring, q.laps, q.cursors[i]);
  }

  /** The queue in which reader `i` counts as having passed everything below `low`. */
  function Forget(q: Queue, i: nat, low: nat): Queue
    requires i < |q.cursors|
  {
    q.(cursors := q.cursors[i := q.cursors[i].(due := low)])
  }

  lemma ForgetSends(q: Queue, msg: seq<byte>, i: nat, low: nat)
    requires SendRequires(q, msg) && Message(msg) && Past(q, i, low)
    ensures SendRequires(Forget(q, i, low), msg)
    ensures Send(Forget(q, i, low), msg) == Forget(Send(q, msg), i, low)
  {
    hide CursorOk, Inv;
    var q2 := Forget(q, i, low);
    SendableFitsOk(q, msg);
    if NeedsWrap(q.ring.size, q.ring.off, msg) {
      var w, w2 := SendWrap(q), SendWrap(q2);
      forall j | 0 <= j < |w2.cursors| && w2.cursors[j].valid
        ensures w2.laps < w2.cursors[j].lap + TWO_32
      {
        assert w.cursors[j].valid && w.cursors[j].lap == w2.cursors[j].lap;
      }
    }
    assert Send(q2, msg).cursors == Forget(Send(q, msg), i, low).cursors;
  }

  lemma PastAfterSend(q: Queue, msg: seq<byte>, i: nat, low: nat)
    requires SendRequires(q, msg) && Message(msg) && Past(q, i, low)
    ensures Past(Send(q, msg), i, low)
  {
    hide CursorOk, Inv, SendWrap, SendAt;
    SendableFitsOk(q, msg);
    SendAddsOne(q, msg);
    ForgetSends(q, msg, i, low);
    SendKeeps(Forget(q, i, low), msg);
    var q2 := Forget(Send(q, msg), i, low);
    assert CursorOk(q2.ring, q2.laps, q2.cursors[i]);
  }

  lemma SendAddsOne(q: Queue, msg: seq<byte>)
    requires SendRequires(q, msg) && Message(msg)
    ensures Send(q, msg).ring.sent == q.ring.sent + [msg] && |Send(q, msg).cursors| == |q.cursors|
  {
  }

  lemma PastAfterRecv(q: Queue, call: Call, i: nat, low: nat)
    requires Callable(q, call) && call.RecvCall? && Past(q, i, low)
    ensures Past(Apply(q, call), i, low) && forall k :: k in GotAt(q, call, i) && !call.conflate ==> k >= low
  {
    RecvDelivers(q.ring, q.laps, q.cursors[call.reader], call.conflate);
  }

  lemma PastAfterPoll(q: Queue, r: nat, i: nat, low: nat)
    requires Callable(q, ReadyCall(r)) && Past(q, i, low)
    ensures Past(Apply(q, ReadyCall(r)), i, low)
  {
    PollSyncs(q.ring, q.laps, q.cursors[r]);
  }

  /** Nothing sent before is ever delivered again, whatever is called. */
  lemma {:induction false} OnlyLater(q: Queue, calls: seq<Call>, i: nat, low: nat)
    requires Admissible(q, calls, i) && Past(q, i, low)
    ensures forall k :: k in DeliveredAt(q, calls, i) ==> k >= low
    decreases |calls|
  {
    hide Past, Callable;
    if calls != [] {
      var q1 := Apply(q, calls[0]);
      match calls[0] {
        case SendCall(msg) => SendCallPast(q, msg, i, low);
        case RecvCall(_, _) => PastAfterRecv(q, calls[0], i, low);
        case ReadyCall(r) => PastAfterPoll(q, r, i, low);
      }
      OnlyLater(q1, calls[1..], i, low);
    }
  }

  lemma SendCallPast(q: Queue, msg: seq<byte>, i: nat, low: nat)
    requires Callable(q, SendCall(msg)) && Past(q, i, low)
    ensures Past(Apply(q, SendCall(msg)), i, low)
  {
    PastAfterSend(q, msg, i, low);
  }

  /** Some sequence of calls after `q` delivers to reader `i` a message that had been sent by then. */
  ghost predicate StillGets(q: Queue, i: nat) {
    exists calls, k :: GetsAt(q, calls, i, k)
  }

  ghost predicate GetsAt(q: Queue, calls: seq<Call>, i: nat, k: nat) {
    Admissible(q, calls, i) && k in DeliveredAt(q, calls, i) && k < |q.ring.sent|
  }

  /**
   * When a send loses nothing.  A reader in sync still gets the message due to
   * it, by its very next recv, if it survives the send; if it does not, no
   * sequence of calls ever delivers to it any message sent up to and including
   * this one.
   */
  lemma SendLosesNothingIff(q: Queue, msg: seq<byte>, i: nat)
    requires SendRequires(q, msg) && Message(msg)
    requires i < |q.cursors| && InSync(q.ring, q.cursors[i])
    ensures Survives(q, msg, i) <==> StillGets(Send(q, msg), i)
    ensures Survives(q, msg, i) ==> GetsAt(Send(q, msg), [RecvCall(i, false)], i, q.cursors[i].due)
  {
    var q' := Send(q, msg);
    SendKeeps(q, msg);
    SurvivesIsNotLapped(q, msg, i);
    if Survives(q, msg, i) {
      OneSendInSync(q, msg, i);
      NextRecvGets(q', i);
    } else {
      LappedIsPast(q', i);
      forall calls, k
        ensures !GetsAt(q', calls, i, k)
      {
        if Admissible(q', calls, i) {
          OnlyLater(q', calls, i, |q'.ring.sent|);
        }
      }
    }
  }

  lemma NextRecvGets(q: Queue, i: nat)
    requires Ok(q) && Settled(q.ring) && i < |q.cursors| && InSync(q.ring, q.cursors[i])
        && q.cursors[i].ptr.off != q.ring.off
    ensures GetsAt(q, [RecvCall(i, false)], i, q.cursors[i].due)
  {
    var calls := [RecvCall(i, false)];
    assert calls[1..] == [];
    RecvDelivers(q.ring, q.laps, q.cursors[i], false);
    RecvInSync(q.ring, q.laps, q.cursors[i]);
    assert DeliveredAt(q, calls, i) == GotAt(q, calls[0], i) + [];
  }

  /** A caught-up reader survives every send. */
  lemma CaughtUpSurvives(q: Queue, msg: seq<byte>, i: nat)
    requires SendRequires(q, msg) && Message(msg) && i < |q.cursors| && q.cursors[i].ptr == WritePtr(q)
    ensures Survives(q, msg, i)
  {
    hide CursorOk, Block, Chained, SizeTag, WrapTag;
  }

  /**
   * What polling is for: a reader whose flag is clear, polled before a message
   * is sent, gets that message by its next recv, in either mode.  Without the
   * poll it would be that recv that synchronises it, past the message.
   */
  lemma PolledGetsNext(q: Queue, i: nat, msg: seq<byte>, conflate: bool)
    requires Callable(q, ReadyCall(i)) && !q.cursors[i].valid
    requires SendRequires(Apply(q, ReadyCall(i)), msg) && Message(msg)
    ensures var q2 := Send(Apply(q, ReadyCall(i)), msg);
            Callable(q2, RecvCall(i, conflate)) && Got(q2, RecvCall(i, conflate), i) == [msg]
    ensures SendRequires(q, msg)
    ensures var q2 := Send(q, msg);
            Callable(q2, RecvCall(i, conflate)) && Got(q2, RecvCall(i, conflate), i) == []
  {
    hide CursorOk, Survives, Recv, Attempt, SendAt, SendWrap, Inv;
    var q1 := Apply(q, ReadyCall(i));
    SendableFitsOk(q1, msg);
    PollSyncs(q.ring, q.laps, q.cursors[i]);
    CaughtUpSurvives(q1, msg, i);
    OneSendInSync(q1, msg, i);
    SendKeeps(q1, msg);
    SendAddsOne(q1, msg);
    var q2 := Send(q1, msg);
    SurvivesIsNotLapped(q1, msg, i);
    RecvDelivers(q2.ring, q2.laps, q2.cursors[i], conflate);
    UnpolledMisses(q, i, msg, conflate);
  }

  lemma UnpolledMisses(q: Queue, i: nat, msg: seq<byte>, conflate: bool)
    requires Callable(q, ReadyCall(i)) && !q.cursors[i].valid
    requires SendRequires(Apply(q, ReadyCall(i)), msg) && Message(msg)
    ensures SendRequires(q, msg)
    ensures var q2 := Send(q, msg);
            Callable(q2, RecvCall(i, conflate)) && Got(q2, RecvCall(i, conflate), i) == []
  {
    hide CursorOk, Recv, Attempt, Block, Chained, SizeTag, WrapTag;
    var q1 := Apply(q, ReadyCall(i));
    SendableFitsOk(q1, msg);
    if NeedsWrap(q.ring.size, q.ring.off, msg) {
      forall j | 0 <= j < |q.cursors| && SendWrap(q).cursors[j].valid
        ensures q.laps + 1 < SendWrap(q).cursors[j].lap + TWO_32
      {
        assert SendWrap(q1).cursors[j].valid;
      }
    }
    SendKeeps(q, msg);
    var q2 := Send(q, msg);
    assert !q2.cursors[i].valid;
    RecvDelivers(q2.ring, q2.laps, q2.cursors[i], conflate);
  }

  /** The index due to reader `i` at the first send it does not survive. */
  function FirstLost(q: Queue, calls: seq<Call>, i: nat): nat
    requires Admissible(q, calls, i)
    decreases |calls|
  {
    if calls == [] then 0
    else
      if calls[0].SendCall? && !Survives(q, calls[0].msg, i) then q.cursors[i].due
      else FirstLost(Apply(q, calls[0]), calls[1..], i)
  }

  /**
   * The converse of LosslessFifo: over any sequence of calls in which reader
   * `i` does not survive some send, the message then due to it was sent and is
   * never delivered, neither before nor after.
   */
  lemma {:induction false} LossIsForever(q: Queue, calls: seq<Call>, i: nat)
    requires Admissible(q, calls, i) && InSync(q.ring, q.cursors[i]) && !Undisturbed(q, calls, i)
    ensures q.cursors[i].due <= FirstLost(q, calls, i) < |RunCalls(q, calls, i).ring.sent|
    ensures FirstLost(q, calls, i) !in DeliveredAt(q, calls, i)
    decreases |calls|
  {
    hide InSync, Callable, Survives;
    var q1 := Apply(q, calls[0]);
    if calls[0].SendCall? && !Survives(q, calls[0].msg, i) {
      LostNow(q, calls, i);
    } else {
      LossyStep(q, calls[0], i);
      LossIsForever(q1, calls[1..], i);
    }
  }

  /** One call a reader in sync survives: it stays in sync, and gets only what is due. */
  lemma LossyStep(q: Queue, call: Call, i: nat)
    requires Callable(q, call) && i < |q.cursors| && InSync(q.ring, q.cursors[i])
    requires call.RecvCall? && call.reader == i ==> !call.conflate
    requires call.SendCall? ==> Survives(q, call.msg, i)
    ensures var q1 := Apply(q, call);
            && i < |q1.cursors| && InSync(q1.ring, q1.cursors[i]) && q.cursors[i].due <= q1.cursors[i].due
            && forall k :: k in GotAt(q, call, i) ==> k < q1.cursors[i].due
  {
    OneCallInSync(q, call, i);
    ApplyKeeps(q, call);
  }

  lemma LostNow(q: Queue, calls: seq<Call>, i: nat)
    requires Admissible(q, calls, i) && InSync(q.ring, q.cursors[i])
    requires calls != [] && calls[0].SendCall? && !Survives(q, calls[0].msg, i)
    ensures q.cursors[i].due < |RunCalls(q, calls, i).ring.sent|
    ensures q.cursors[i].due !in DeliveredAt(q, calls, i)
  {
    var q1 := Apply(q, calls[0]);
    SurvivesIsNotLapped(q, calls[0].msg, i);
    ApplyKeeps(q, calls[0]);
    LappedIsPast(q1, i);
    OnlyLater(q1, calls[1..], i, |q1.ring.sent|);
    NextBounded(q.ring, q.cursors[i].ptr.off);
    SentGrows(q1, calls[1..], i);
    assert |q1.ring.sent| == |q.ring.sent| + 1;
  }

  lemma {:induction false} SentGrows(q: Queue, calls: seq<Call>, i: nat)
    requires Admissible(q, calls, i)
    ensures |q.ring.sent| <= |RunCalls(q, calls, i).ring.sent|
    decreases |calls|
  {
    if calls != [] {
      ApplyKeeps(q, calls[0]);
      SentGrows(Apply(q, calls[0]), calls[1..], i);
    }
  }

  // ---- A reader exactly one lap behind

  /** A 64-byte segment with the single reader `c`. */
  ghost predicate Segment64(q: Queue, off: nat, laps: nat, c: Cursor, sent: seq<seq<byte>>) {
    && Ok(q) && Settled(q.ring) && q.ring.size == 64
    && q.ring.off == off && q.laps == laps && q.cursors == [c] && q.ring.sent == sent
  }

  /** `q'` is `q` after the messages have been sent one after another. */
  ghost predicate Sends(q: Queue, msgs: seq<seq<byte>>, q': Queue)
    decreases |msgs|
  {
    if msgs == [] then q' == q
    else SendRequires(q, msgs[0]) && Message(msgs[0]) && Sends(Send(q, msgs[0]), msgs[1..], q')
  }

  lemma {:induction false} SendsJoin(q: Queue, a: seq<seq<byte>>, q1: Queue, b: seq<seq<byte>>, q2: Queue)
    requires Sends(q, a, q1) && Sends(q1, b, q2)
    ensures Sends(q, a + b, q2)
    decreases |a|
  {
    hide Send, CursorOk;
    if a == [] {
      assert a + b == b;
    } else {
      SendsJoin(Send(q, a[0]), a[1..], q1, b, q2);
      assert (a + b)[1..] == a[1..] + b;
    }
  }

  /** A message of eight bytes takes 16 bytes, and from offset 40 on it goes to the next lap. */
  ghost predicate OneSend64(q: Queue, off: nat, laps: nat, c: Cursor, sent: seq<seq<byte>>, msg: seq<byte>, q': Queue) {
    var start := if off >= 40 then 0 else off;
    var laps' := if off >= 40 then laps + 1 else laps;
    var kill := (off >= 40 && KilledByWrap(c, Ptr(laps, off))) || KilledByStore(c, Ptr(laps', start), start + 16);
    && Sends(q, [msg], q')
    && Segment64(q', start + 16, laps', Revoke(c, kill), sent + [msg])
    && (off >= 40 ==> Next(q'.ring, off) == |sent|)
  }

  lemma Sendable64(q: Queue, off: nat, laps: nat, c: Cursor, sent: seq<seq<byte>>, msg: seq<byte>)
    requires Segment64(q, off, laps, c, sent) && laps + 1 < TWO_32 && |msg| == 8
    ensures Footprint(msg) == 16 && SendRequires(q, msg)
    ensures Message(msg) && Ok(Send(q, msg)) && Settled(Send(q, msg).ring)
  {
    hide CursorOk, Block, Chained, SizeTag, WrapTag;
    assert Footprint(msg) == 16;
    SendKeeps(q, msg);
  }

  lemma At64(q: Queue, c: Cursor, msg: seq<byte>)
    requires Message(msg) && Footprint(msg) == 16 && q.ring.off + 16 <= |q.ring.data| && q.cursors == [c]
    ensures var q', end := SendAt(q, msg), q.ring.off + 16;
            && q'.ring.off == end && q'.laps == q.laps && q'.ring.size == q.ring.size && q'.ring.first == q.ring.first
            && q'.ring.sent == q.ring.sent + [msg]
            && q'.cursors == [Revoke(c, KilledByStore(c, WritePtr(q), end))]
            && forall x :: x in q.ring.wraps && x >= end ==> x in q'.ring.wraps
  {
    hide Put, EncodeInt64;
  }

  lemma Send64(q: Queue, off: nat, laps: nat, c: Cursor, sent: seq<seq<byte>>, msg: seq<byte>) returns (q': Queue)
    requires Segment64(q, off, laps, c, sent) && laps + 1 < TWO_32 && |msg| == 8
    ensures OneSend64(q, off, laps, c, sent, msg, q')
  {
    hide CursorOk, EncodeInt64, Chained, SizeTag, WrapTag, SendAt, Block;
    Sendable64(q, off, laps, c, sent, msg);
    q' := Send(q, msg);
    assert Sends(q', [], q') && [msg][1..] == [];
    if off >= 40 {
      var kill := KilledByWrap(c, Ptr(laps, off));
      assert SendWrap(q).cursors == [Revoke(c, kill)];
      At64(SendWrap(q), Revoke(c, kill), msg);
    } else {
      At64(q, c, msg);
    }
  }

  /** Three of them fill the segment; a reader at its end, or one whose flag is clear, stays as it is. */
  lemma ThreeSends64(q: Queue, off: nat, laps: nat, c: Cursor, sent: seq<seq<byte>>, m: seq<seq<byte>>)
    returns (q': Queue)
    requires Segment64(q, off, laps, c, sent) && laps + 2 < TWO_32
    requires off == 0 || off == 48
    requires c.valid ==> c.ptr.off == 48 && off == 48
    requires |m| == 3 && |m[0]| == |m[1]| == |m[2]| == 8
    ensures Sends(q, m, q')
    ensures Segment64(q', 48, if off == 48 then laps + 1 else laps, c, sent + m)
  {
    hide Ok, Send, Sends, SendRequires;
    var laps' := if off == 48 then laps + 1 else laps;
    var q1 := Send64(q, off, laps, c, sent, m[0]);
    var q2 := Send64(q1, 16, laps', c, sent + [m[0]], m[1]);
    q' := Send64(q2, 32, laps', c, sent + [m[0]] + [m[1]], m[2]);
    SendsJoin(q, [m[0]], q1, [m[1]], q2);
    SendsJoin(q, [m[0]] + [m[1]], q2, [m[2]], q');
    assert m == [m[0]] + [m[1]] + [m[2]];
    assert sent + [m[0]] + [m[1]] + [m[2]] == sent + m;
  }

  /** A fresh 64-byte segment with one subscriber that has not synchronised yet. */
  function Fresh64(): Queue {
    Queue(Ring(64, seq(64, (_: nat) => 0), 0, [], map[], {}, {}, 0, 0), 0, [Cursor(Ptr(0, 0), false, 0, 0)])
  }

  /** The first recv of a subscriber only synchronises it. */
  lemma Subscribe64(s: Queue, laps: nat, sent: seq<seq<byte>>) returns (q: Queue)
    requires Segment64(s, 48, laps, Cursor(Ptr(0, 0), false, 0, 0), sent) && laps < TWO_32
    ensures Callable(s, RecvCall(0, false)) && q == Apply(s, RecvCall(0, false))
    ensures Segment64(q, 48, laps, Cursor(Ptr(laps, 48), true, |sent|, laps), sent) && InSync(q.ring, q.cursors[0])
  {
    q := Apply(s, RecvCall(0, false));
    ApplyKeeps(s, RecvCall(0, false));
    AttemptKeeps(s.ring, laps, s.cursors[0], false);
    assert Recv(s.ring, laps, Cursor(Ptr(laps, 48), true, |sent|, laps), false)
        == (Cursor(Ptr(laps, 48), true, |sent|, laps), None);
  }

  /**
   * A run in which a reader silently loses messages: it synchronises after the
   * messages `a` and is in sync; after the messages `b` its flag is still set
   * but recv has nothing for it; after one more message recv returns that one.
   */
  ghost predicate SilentLoss(a: seq<seq<byte>>, b: seq<seq<byte>>, m: seq<byte>, s: Queue, q: Queue, lapped: Queue,
                             q': Queue) {
    && Sends(Fresh64(), a, s)
    && Callable(s, RecvCall(0, false)) && q == Apply(s, RecvCall(0, false))
    && |q.cursors| == 1 && InSync(q.ring, q.cursors[0]) && q.cursors[0].due == |a|
    && Sends(q, b, lapped)
    && lapped.cursors == q.cursors && !Ready(lapped.ring, lapped.cursors[0])
    && Sends(lapped, [m], q')
    && q'.cursors == q.cursors && Callable(q', RecvCall(0, false)) && Got(q', RecvCall(0, false), 0) == [m]
  }

  /**
   * Losslessness really needs the condition on the offsets: in a 64-byte
   * segment, three messages of eight bytes read and three more unread bring the
   * write offset round to the read offset, and those three are lost.
   */
  lemma LappedReaderSkips(a: seq<seq<byte>>, b: seq<seq<byte>>, m: seq<byte>)
    returns (s: Queue, q: Queue, lapped: Queue, q': Queue)
    requires |a| == 3 && |a[0]| == |a[1]| == |a[2]| == 8
    requires |b| == 3 && |b[0]| == |b[1]| == |b[2]| == 8
    requires |m| == 8
    ensures SilentLoss(a, b, m, s, q, lapped, q')
  {
    hide Send, Sends;
    s := ThreeSends64(Fresh64(), 0, 0, Cursor(Ptr(0, 0), false, 0, 0), [], a);
    q := Subscribe64(s, 0, a);
    var c := Cursor(Ptr(0, 48), true, 3, 0);
    lapped := ThreeSends64(q, 48, 0, c, a, b);
    q' := Send64(lapped, 48, 1, c, a + b, m);
    RecvDelivers(q'.ring, q'.laps, c, false);
  }
}
