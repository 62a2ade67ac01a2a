// msgq with every shared load and store as a step of its own
// (cereal/messaging/msgq.cc, msgq_msg_send and msgq_msg_recv).
//
// One writer and a fixed set of readers are interleaved by an arbitrary
// schedule.  memcpy moves one byte a step; a size tag is an atomic 64-bit word.

module MsgqSteps {
  import opened Words
  import opened MsgqRing

  /** An unpacked 64-bit read or write pointer. */
  datatype Ptr = Ptr(cycles: nat, off: nat)

  /** The packed form that is stored. */
  function Pack(p: Ptr): nat {
    p.cycles % TWO_32 * TWO_32 + p.off % TWO_32
  }

  function Unpack(v: nat): Ptr {
    Ptr(v / TWO_32, v % TWO_32)
  }

  lemma PackRoundTrip(p: Ptr)
    requires p.cycles < TWO_32 && p.off < TWO_32
    ensures Unpack(Pack(p)) == p && Pack(p) < TWO_64
  {
  }

  lemma UnpackedFits(v: nat)
    requires v < TWO_64
    ensures Unpack(v).cycles < TWO_32 && Unpack(v).off < TWO_32
  {
  }

  /** Where msgq_msg_recv is; `rp` is the reader's local copy of its read pointer. */
  datatype ReaderPc =
    | RStart
    | RLoadPtr
    | RLoadWrite(rp: Ptr)
    | RLoadSize(rp: Ptr, seen: nat)
    | RCheckSize(rp: Ptr, seen: nat, size: int)
    | RDecide(rp: Ptr, seen: nat, size: int)
    | RCopy(rp: Ptr, size: int, copied: seq<byte>)
    | RFinal(copied: seq<byte>)
    | RAborted

  /** A subscriber: its shared pointer and valid flag, its mode, and what recv has returned so far; `lap`
      records, without wrapping around, which lap its pointer is on. */
  datatype Reader = Reader(ptr: Ptr, valid: bool, pc: ReaderPc, conflate: bool, delivered: seq<seq<byte>>, lap: nat)

  /** Where msgq_msg_send is; `wp` is the writer's local copy of the write pointer. */
  datatype WriterPc =
    | WIdle
    | WSpace(msg: seq<byte>, wp: Ptr)
    | WWrapScan(msg: seq<byte>, wp: Ptr, i: nat)
    | WWrapKill(msg: seq<byte>, wp: Ptr, i: nat, kill: bool)
    | WScan(msg: seq<byte>, wp: Ptr, i: nat)
    | WKill(msg: seq<byte>, wp: Ptr, i: nat, kill: bool)
    | WCopy(msg: seq<byte>, wp: Ptr, k: nat)

  /** `sent` and `laps` record what was published and how often the writer wrapped. */
  datatype State = State(
    size: nat, data: seq<byte>, wptr: Ptr, writer: WriterPc, readers: seq<Reader>,
    sent: seq<seq<byte>>, laps: nat)

  datatype Event = Write(msg: seq<byte>) | Read(r: nat)

  /** What msgq_msg_send asserts of a message, with the reader's demand that it is not empty. */
  ghost predicate Sendable(size: nat, msg: seq<byte>) {
    0 < |msg| && 3 * Footprint(msg) <= size
  }

  function Load(data: seq<byte>, at: nat): byte {
    if at < |data| then data[at] else 0
  }

  function LoadInt64(data: seq<byte>, at: nat): int {
    DecodeInt64(if at + 8 <= |data| then data[at..at + 8] else [])
  }

  function NextRead(rp: Ptr, size: int): nat
    requires size > 0
  {
    Align(rp.off + 8 + size) % TWO_32
  }

  function Reset(wptr: Ptr, laps: nat, rd: Reader): Reader {
    rd.(valid := true, ptr := wptr, pc := RStart, lap := laps)
  }

  /** One step of msgq_msg_recv against the shared segment. */
  function ReaderStep(size: nat, data: seq<byte>, wptr: Ptr, laps: nat, rd: Reader): Reader {
    match rd.pc
    case RStart => if rd.valid then rd.(pc := RLoadPtr) else Reset(wptr, laps, rd)
    case RLoadPtr => rd.(pc := RLoadWrite(rd.ptr))
    case RLoadWrite(rp) => if rp.off == wptr.off then rd.(pc := RStart) else rd.(pc := RLoadSize(rp, wptr.off))
    case RLoadSize(rp, seen) => rd.(pc := RCheckSize(rp, seen, LoadInt64(data, rp.off)))
    case RCheckSize(rp, seen, sz) => if rd.valid then rd.(pc := RDecide(rp, seen, sz)) else Reset(wptr, laps, rd)
    case RDecide(rp, seen, sz) =>
      if sz == WRAP_TAG then rd.(ptr := Ptr((rp.cycles + 1) % TWO_32, 0), pc := RStart, lap := rd.lap + 1)
      else if !(0 < sz < size) then rd.(pc := RAborted)
      else if rd.conflate && NextRead(rp, sz) != seen then rd.(ptr := Ptr(rp.cycles, NextRead(rp, sz)), pc := RStart)
      else rd.(pc := RCopy(rp, sz, []))
    case RCopy(rp, sz, copied) =>
      if |copied| < sz then rd.(pc := RCopy(rp, sz, copied + [Load(data, rp.off + 8 + |copied|)]))
      else if sz > 0 then rd.(ptr := Ptr(rp.cycles, NextRead(rp, sz)), pc := RFinal(copied))
      else rd.(pc := RAborted)
    case RFinal(copied) =>
      if rd.valid then rd.(delivered := rd.delivered + [copied], pc := RStart) else Reset(wptr, laps, rd)
    case RAborted => rd
  }

  function Kill(readers: seq<Reader>, i: nat, kill: bool): seq<Reader>
    requires i < |readers|
  {
    if kill then readers[i := readers[i].(valid := false)] else readers
  }

  function EndOf(msg: seq<byte>, wp: Ptr): nat {
    Align(wp.off + 8 + |msg|)
  }

  function PutWithin(data: seq<byte>, at: nat, bytes: seq<byte>): seq<byte> {
    if at + |bytes| <= |data| then Put(data, at, bytes) else data
  }

  /** One step of msgq_msg_send; a call that is not under way starts with `next`. */
  function WriterStep(s: State, next: seq<byte>): State {
    match s.writer
    case WIdle => s.(writer := WSpace(next, s.wptr))
    case WSpace(msg, wp) =>
      if s.size - wp.off - Align(|msg| + 8) - 8 <= 0
      then s.(data := PutWithin(s.data, wp.off, EncodeInt64(WRAP_TAG)), writer := WWrapScan(msg, wp, 0))
      else s.(writer := WScan(msg, wp, 0))
    case WWrapScan(msg, wp, i) =>
      if i < |s.readers| then
        var rp := s.readers[i].ptr;
        s.(writer := WWrapKill(msg, wp, i, rp.off > wp.off && rp.cycles != wp.cycles))
      else
        var wp' := Ptr((wp.cycles + 1) % TWO_32, 0);
        s.(wptr := wp', laps := s.laps + 1, writer := WScan(msg, wp', 0))
    case WWrapKill(msg, wp, i, kill) =>
      if i < |s.readers| then s.(readers := Kill(s.readers, i, kill), writer := WWrapScan(msg, wp, i + 1)) else s
    case WScan(msg, wp, i) =>
      if i < |s.readers| then
        var rp := s.readers[i].ptr;
        s.(writer := WKill(msg, wp, i, wp.off <= rp.off < EndOf(msg, wp) && rp.cycles != wp.cycles))
      else if |msg| < TWO_63 then
        s.(data := PutWithin(s.data, wp.off, EncodeInt64(|msg|)), writer := WCopy(msg, wp, 0))
      else s
    case WKill(msg, wp, i, kill) =>
      if i < |s.readers| then s.(readers := Kill(s.readers, i, kill), writer := WScan(msg, wp, i + 1)) else s
    case WCopy(msg, wp, k) =>
      if k < |msg| then s.(data := PutWithin(s.data, wp.off + 8 + k, [msg[k]]), writer := WCopy(msg, wp, k + 1))
      else s.(wptr := Ptr(wp.cycles, EndOf(msg, wp) % TWO_32), sent := s.sent + [msg], writer := WIdle)
  }

  function Step(s: State, e: Event): State {
    match e
    case Write(msg) => WriterStep(s, msg)
    case Read(r) =>
      if r < |s.readers| then
        s.(readers := s.readers[r := ReaderStep(s.size, s.data, s.wptr, s.laps, s.readers[r])])
      else
        s
  }

  function Run(s: State, schedule: seq<Event>): State
    decreases |schedule|
  {
    if schedule == [] then s else Run(Step(s, schedule[0]), schedule[1..])
  }

  /** A segment straight after creation, with subscribers that have not read yet. */
  ghost predicate Init(s: State) {
    && 8 <= |s.data| == s.size < TWO_32 - 1
    && s.wptr == Ptr(0, 0) && s.writer == WIdle && s.sent == [] && s.laps == 0
    && forall r :: 0 <= r < |s.readers| ==>
         s.readers[r].ptr == Ptr(0, 0) && s.readers[r].lap == 0 && s.readers[r].pc == RStart
             && s.readers[r].delivered == []
  }

  // ---- The invariant

  /** What the proof knows about a reader: the last index delivered, the index being copied, all indices delivered. */
  datatype Trace = Trace(last: int, copying: nat, order: seq<nat>)

  datatype Shadow = Shadow(
    pay: map<nat, nat>, sizes: set<nat>, wraps: set<nat>, first: nat, prev: nat, traces: seq<Trace>)

  function Segment(s: State, g: Shadow): Ring {
    Ring(s.size, s.data, s.wptr.off, s.sent, g.pay, g.sizes, g.wraps, g.first, g.prev)
  }

  /** The reader is past its comparison with the write pointer and relies on the tag or payload at `ptr`. */
  predicate Committed(pc: ReaderPc) {
    pc.RLoadSize? || pc.RCheckSize? || pc.RDecide? || pc.RCopy?
  }

  /** Facts that hold whether or not the reader is valid: every access stays inside the segment. */
  ghost predicate InBounds(size: nat, rd: Reader) {
    && rd.ptr.off % 8 == 0 && rd.ptr.off + 8 <= size
    && rd.ptr.cycles < TWO_32
    && (Committed(rd.pc) || rd.pc.RLoadWrite? ==> rd.pc.rp == rd.ptr)
    && (rd.pc.RDecide? ==> rd.pc.size == WRAP_TAG || (0 < rd.pc.size && rd.ptr.off + Align(8 + rd.pc.size) + 8 <= size))
    && (rd.pc.RCopy? ==>
          0 < rd.pc.size && rd.ptr.off + Align(8 + rd.pc.size) + 8 <= size && |rd.pc.copied| <= rd.pc.size)
    && !rd.pc.RAborted?
  }

  ghost predicate Copyable(q: Ring, x: nat, size: int, tr: Trace) {
    && x in q.pay && q.pay[x] == tr.copying < |q.sent| && |q.sent[tr.copying]| == size && tr.last < tr.copying
  }

  ghost predicate SizeKnown(q: Ring, laps: nat, rd: Reader, size: int, tr: Trace) {
    if size == WRAP_TAG then Base(q) > tr.last && rd.lap < laps
    else Copyable(q, rd.ptr.off, size, tr)
  }

  /** The packed cycles of a pointer on this lap. */
  predicate OnLap(p: Ptr, lap: nat) {
    p.cycles == lap % TWO_32
  }

  lemma SameLap(p: Ptr, lap: nat, p': Ptr)
    requires OnLap(p, lap) && p'.cycles == p.cycles
    ensures OnLap(p', lap)
  {
  }

  lemma NextLap(p: Ptr, lap: nat)
    requires OnLap(p, lap)
    ensures OnLap(Ptr((p.cycles + 1) % TWO_32, 0), lap + 1)
  {
  }

  /** What a reader whose valid flag is set may rely on at each point of recv. */
  ghost predicate Reliable(q: Ring, laps: nat, rd: Reader, tr: Trace) {
    && OnLap(rd.ptr, rd.lap)
    && rd.lap <= laps < rd.lap + TWO_32
    && (rd.lap == laps ==> rd.ptr.off <= q.off && (Committed(rd.pc) ==> rd.ptr.off != q.off))
    && match rd.pc
       case RLoadSize(_, _) => Tagged(q, rd.ptr.off) > tr.last
       case RCheckSize(_, _, size) => SizeKnown(q, laps, rd, size, tr)
       case RDecide(_, _, size) => SizeKnown(q, laps, rd, size, tr)
       case RCopy(_, size, copied) =>
         Copyable(q, rd.ptr.off, size, tr) && copied <= q.sent[tr.copying]
       case RFinal(copied) =>
         tr.last < tr.copying < |q.sent| && copied == q.sent[tr.copying] && Next(q, rd.ptr.off) > tr.copying
       case _ => Next(q, rd.ptr.off) > tr.last
  }

  /** The deliveries are messages that were sent, in strictly increasing order. */
  ghost predicate Authentic(sent: seq<seq<byte>>, delivered: seq<seq<byte>>, order: seq<nat>) {
    && |order| == |delivered|
    && (forall i :: 0 <= i < |order| ==> order[i] < |sent| && delivered[i] == sent[order[i]])
    && (forall i, j :: 0 <= i < j < |order| ==> order[i] < order[j])
  }

  ghost predicate ReaderOk(q: Ring, laps: nat, rd: Reader, tr: Trace) {
    && InBounds(q.size, rd)
    && -1 <= tr.last < |q.sent|
    && (rd.valid ==> Reliable(q, laps, rd, tr))
    && Authentic(q.sent, rd.delivered, tr.order)
    && (forall i :: 0 <= i < |tr.order| ==> tr.order[i] <= tr.last)
  }

  /** A reader that the writer's scan of [off, end) has dealt with. */
  ghost predicate Clear(off: nat, end: nat, rd: Reader) {
    rd.valid ==> !(off < rd.ptr.off < end) && (Committed(rd.pc) ==> rd.ptr.off != off)
  }

  ghost predicate Scanned(w: WriterPc, r: nat) {
    (w.WScan? && r < w.i) || (w.WKill? && (r < w.i || (r == w.i && !w.kill))) || w.WCopy?
  }

  ghost predicate Room(size: nat, msg: seq<byte>, wp: Ptr) {
    Message(msg) && wp.off % 8 == 0 && wp.off + Footprint(msg) + 8 <= size
  }

  ghost predicate WriterOk(s: State, q: Ring) {
    match s.writer
    case WIdle => true
    case WSpace(msg, wp) => wp == s.wptr && Sendable(s.size, msg)
    case WWrapScan(msg, wp, i) => wp == s.wptr && Sendable(s.size, msg) && q.off != 0 && q.off in q.wraps
    case WWrapKill(msg, wp, i, _) => wp == s.wptr && Sendable(s.size, msg) && q.off != 0 && q.off in q.wraps
    case WScan(msg, wp, i) => wp == s.wptr && Room(s.size, msg, wp)
    case WKill(msg, wp, i, _) => wp == s.wptr && Room(s.size, msg, wp)
    case WCopy(msg, wp, k) =>
      && wp == s.wptr && Room(s.size, msg, wp) && k <= |msg|
      && Cleared(q, q.off + Footprint(msg))
      && Holds(s.data, q.off, EncodeInt64(|msg|))
      && Holds(s.data, q.off + 8, msg[..k])
  }

  ghost predicate StateInv(s: State, g: Shadow) {
    var q := Segment(s, g);
    && Inv(q)
    && s.wptr.cycles == s.laps % TWO_32
    && |g.traces| == |s.readers|
    && WriterOk(s, q)
    && (forall r {:trigger s.readers[r]} :: 0 <= r < |s.readers| ==> ReaderOk(q, s.laps, s.readers[r], g.traces[r]))
    && (forall r {:trigger s.readers[r]} :: 0 <= r < |s.readers| && Scanned(s.writer, r) ==>
          Clear(s.wptr.off, EndOf(s.writer.msg, s.wptr), s.readers[r]))
  }

  // ---- Reader steps

  function TraceStep(q: Ring, rd: Reader, tr: Trace): Trace {
    match rd.pc
    case RLoadSize(rp, _) => if rp.off in q.pay then tr.(copying := q.pay[rp.off]) else tr
    case RFinal(_) => if rd.valid then tr.(last := tr.copying, order := tr.order + [tr.copying]) else tr
    case _ => tr
  }

  /** A valid reader always finds a genuine tag. */
  lemma LoadSizeKeeps(q: Ring, laps: nat, wptr: Ptr, rd: Reader, tr: Trace)
    requires Inv(q) && ReaderOk(q, laps, rd, tr) && rd.pc.RLoadSize?
    ensures ReaderOk(q, laps, ReaderStep(q.size, q.data, wptr, laps, rd), TraceStep(q, rd, tr))
  {
    var x := rd.ptr.off;
    if rd.valid {
      if x in q.wraps {
        assert WrapTag(q, x);
        Int64RoundTrip(WRAP_TAG);
      } else {
        assert SizeTag(q, x) && Block(q, x);
        Int64RoundTrip(|q.sent[q.pay[x]]|);
      }
    }
  }

  lemma AlignShift(off: nat, n: nat)
    requires off % 8 == 0
    ensures Align(off + n) == off + Align(n) && (off + Align(n)) % 8 == 0
  {
  }

  /** The next read pointer never wraps around 32 bits. */
  lemma NextReadInside(segment: nat, rp: Ptr, size: int)
    requires segment < TWO_32 && rp.off % 8 == 0 && 0 < size && rp.off + Align(8 + size) + 8 <= segment
    ensures NextRead(rp, size) == rp.off + Align(8 + size)
    ensures NextRead(rp, size) % 8 == 0
  {
    AlignShift(rp.off, 8 + size);
  }

  lemma WrapKeeps(q: Ring, laps: nat, wptr: Ptr, rd: Reader, tr: Trace)
    requires Inv(q) && ReaderOk(q, laps, rd, tr) && rd.pc.RDecide? && rd.pc.size == WRAP_TAG
    ensures ReaderOk(q, laps, ReaderStep(q.size, q.data, wptr, laps, rd), TraceStep(q, rd, tr))
  {
    hide OnLap, Block, Chained, Copyable, SizeTag, WrapTag;
    if rd.valid {
      NextLap(rd.ptr, rd.lap);
    }
  }

  lemma DecideKeeps(q: Ring, laps: nat, wptr: Ptr, rd: Reader, tr: Trace)
    requires Inv(q) && ReaderOk(q, laps, rd, tr) && rd.pc.RDecide?
    ensures ReaderOk(q, laps, ReaderStep(q.size, q.data, wptr, laps, rd), TraceStep(q, rd, tr))
  {
    hide OnLap;
    if rd.pc.size == WRAP_TAG {
      WrapKeeps(q, laps, wptr, rd, tr);
    } else {
      NextReadInside(q.size, rd.pc.rp, rd.pc.size);
      if rd.valid {
        SameLap(rd.ptr, rd.lap, Ptr(rd.ptr.cycles, NextRead(rd.pc.rp, rd.pc.size)));
        assert Block(q, rd.ptr.off) && Chained(q, rd.ptr.off);
      }
    }
  }

  lemma CopyKeeps(q: Ring, laps: nat, wptr: Ptr, rd: Reader, tr: Trace)
    requires Inv(q) && ReaderOk(q, laps, rd, tr) && rd.pc.RCopy? && |rd.pc.copied| < rd.pc.size
    ensures ReaderOk(q, laps, ReaderStep(q.size, q.data, wptr, laps, rd), TraceStep(q, rd, tr))
  {
    var x := rd.ptr.off;
    if rd.valid {
      assert Block(q, x);
      assert q.data[x + 8..x + 8 + rd.pc.size][|rd.pc.copied|] == q.sent[tr.copying][|rd.pc.copied|];
    }
  }

  lemma CopiedKeeps(q: Ring, laps: nat, wptr: Ptr, rd: Reader, tr: Trace)
    requires Inv(q) && ReaderOk(q, laps, rd, tr) && rd.pc.RCopy? && |rd.pc.copied| >= rd.pc.size
    ensures ReaderOk(q, laps, ReaderStep(q.size, q.data, wptr, laps, rd), TraceStep(q, rd, tr))
  {
    hide OnLap;
    NextReadInside(q.size, rd.pc.rp, rd.pc.size);
    if rd.valid {
      SameLap(rd.ptr, rd.lap, Ptr(rd.ptr.cycles, NextRead(rd.pc.rp, rd.pc.size)));
      assert Block(q, rd.ptr.off) && Chained(q, rd.ptr.off);
    }
  }

  lemma CheckSizeKeeps(q: Ring, laps: nat, wptr: Ptr, rd: Reader, tr: Trace)
    requires Inv(q) && wptr.off == q.off && wptr.cycles == laps % TWO_32
    requires ReaderOk(q, laps, rd, tr) && rd.pc.RCheckSize?
    ensures ReaderOk(q, laps, ReaderStep(q.size, q.data, wptr, laps, rd), TraceStep(q, rd, tr))
  {
    if rd.valid && rd.pc.size != WRAP_TAG {
      assert Block(q, rd.ptr.off);
    }
  }

  lemma FinalKeeps(q: Ring, laps: nat, wptr: Ptr, rd: Reader, tr: Trace)
    requires Inv(q) && wptr.off == q.off && wptr.cycles == laps % TWO_32
    requires ReaderOk(q, laps, rd, tr) && rd.pc.RFinal?
    ensures ReaderOk(q, laps, ReaderStep(q.size, q.data, wptr, laps, rd), TraceStep(q, rd, tr))
  {
  }

  lemma StartKeeps(q: Ring, laps: nat, wptr: Ptr, rd: Reader, tr: Trace)
    requires Inv(q) && wptr.off == q.off && wptr.cycles == laps % TWO_32
    requires ReaderOk(q, laps, rd, tr) && (rd.pc.RStart? || rd.pc.RLoadPtr? || rd.pc.RLoadWrite?)
    ensures ReaderOk(q, laps, ReaderStep(q.size, q.data, wptr, laps, rd), TraceStep(q, rd, tr))
  {
  }

  lemma ReaderStepKeeps(q: Ring, laps: nat, wptr: Ptr, rd: Reader, tr: Trace)
    requires Inv(q) && wptr.off == q.off && wptr.cycles == laps % TWO_32
    requires ReaderOk(q, laps, rd, tr)
    ensures ReaderOk(q, laps, ReaderStep(q.size, q.data, wptr, laps, rd), TraceStep(q, rd, tr))
  {
    match rd.pc
    case RLoadSize(_, _) => LoadSizeKeeps(q, laps, wptr, rd, tr);
    case RDecide(_, _, _) => DecideKeeps(q, laps, wptr, rd, tr);
    case RCopy(_, size, copied) =>
      if |copied| < size {
        CopyKeeps(q, laps, wptr, rd, tr);
      } else {
        CopiedKeeps(q, laps, wptr, rd, tr);
      }
    case RCheckSize(_, _, _) => CheckSizeKeeps(q, laps, wptr, rd, tr);
    case RFinal(_) => FinalKeeps(q, laps, wptr, rd, tr);
    case _ => StartKeeps(q, laps, wptr, rd, tr);
  }

  /** A reader never moves into the area that the writer has scanned, except to its start, and then waits there. */
  lemma ReaderStepStaysClear(q: Ring, laps: nat, wptr: Ptr, rd: Reader, tr: Trace, end: nat)
    requires Inv(q) && wptr.off == q.off && wptr.cycles == laps % TWO_32
    requires ReaderOk(q, laps, rd, tr) && Clear(q.off, end, rd)
    ensures Clear(q.off, end, ReaderStep(q.size, q.data, wptr, laps, rd))
  {
    if rd.valid && (rd.pc.RDecide? || rd.pc.RCopy?) && rd.pc.size != WRAP_TAG {
      assert Block(q, rd.ptr.off);
      NextReadInside(q.size, rd.pc.rp, rd.pc.size);
    }
  }

  // ---- Writer steps

  lemma ReaderAfterTagWrap(q: Ring, laps: nat, rd: Reader, tr: Trace)
    requires Inv(q) && q.off != 0 && ReaderOk(q, laps, rd, tr)
    ensures ReaderOk(TagWrap(q), laps, rd, tr)
  {
    TagWrapReading(q);
  }

  lemma ReaderAfterStartLap(q: Ring, laps: nat, rd: Reader, tr: Trace)
    requires Inv(q) && q.off != 0 && q.off in q.wraps && ReaderOk(q, laps, rd, tr)
    requires rd.valid ==> laps + 1 < rd.lap + TWO_32
    ensures ReaderOk(StartLap(q), laps + 1, rd, tr)
  {
    StartLapReading(q);
  }

  lemma ReaderAfterStoreSize(q: Ring, laps: nat, rd: Reader, tr: Trace, end: nat, msg: seq<byte>)
    requires Inv(q) && Message(msg) && q.off + 8 <= end <= q.size
    requires ReaderOk(q, laps, rd, tr) && Clear(q.off, end, rd)
    ensures ReaderOk(StoreSize(q, end, msg), laps, rd, tr)
  {
    StoreSizeReading(q, end, msg);
  }

  lemma ReaderAfterPublish(q: Ring, laps: nat, rd: Reader, tr: Trace, msg: seq<byte>)
    requires Inv(q) && Publishable(q, msg) && ReaderOk(q, laps, rd, tr)
    ensures ReaderOk(Publish(q, msg), laps, rd, tr)
  {
    PublishReading(q, msg);
    forall i | 0 <= i < |tr.order| ensures rd.delivered[i] == Publish(q, msg).sent[tr.order[i]] {
    }
  }

  /** What a reader relies on does not mention bytes outside the intact blocks. */
  lemma ReaderAfterStore(q: Ring, q': Ring, laps: nat, rd: Reader, tr: Trace)
    requires ReaderOk(q, laps, rd, tr) && q' == q.(data := q'.data)
    ensures ReaderOk(q', laps, rd, tr)
  {
    assert forall p: nat :: Next(q', p) == Next(q, p) && Tagged(q', p) == Tagged(q, p);
  }

  /** Where the message ends, as the code computes it. */
  lemma EndOfIsFootprint(msg: seq<byte>, wp: Ptr)
    requires wp.off % 8 == 0
    ensures EndOf(msg, wp) == wp.off + Footprint(msg)
  {
    AlignShift(wp.off, 8 + |msg|);
  }

  /** A scan that does not revoke a reader has found it out of the way. */
  lemma NotKilledIsClear(q: Ring, laps: nat, rd: Reader, tr: Trace, end: nat)
    requires q.off < end && ReaderOk(q, laps, rd, tr)
    requires !(q.off <= rd.ptr.off < end && rd.ptr.cycles != laps % TWO_32)
    ensures Clear(q.off, end, rd)
  {
    if rd.valid {
      LapsDiffer(rd.lap, laps);
    }
  }

  /** Laps less than 2^32 apart are told apart by their packed cycles. */
  lemma LapsDiffer(lap: nat, laps: nat)
    requires lap <= laps < lap + TWO_32
    ensures lap % TWO_32 == laps % TWO_32 <==> lap == laps
  {
  }

  /** No valid reader is 2^32 laps behind, where the packed cycles would repeat. */
  ghost predicate Timely(s: State) {
    forall r :: 0 <= r < |s.readers| && s.readers[r].valid ==> s.laps < s.readers[r].lap + TWO_32
  }

  lemma SpaceStepKeeps(s: State, g: Shadow, next: seq<byte>) returns (g': Shadow)
    requires StateInv(s, g) && s.writer.WSpace?
    ensures StateInv(WriterStep(s, next), g')
  {
    var s', q, msg := WriterStep(s, next), Segment(s, g), s.writer.msg;
    g' := g;
    if s.size - q.off - Footprint(msg) - 8 <= 0 {
      TagWrapKeepsInv(q);
      g' := g.(sizes := TagWrap(q).sizes, wraps := TagWrap(q).wraps);
      assert Segment(s', g') == TagWrap(q);
      forall r | 0 <= r < |s.readers| ensures ReaderOk(TagWrap(q), s.laps, s'.readers[r], g'.traces[r]) {
        ReaderAfterTagWrap(q, s.laps, s.readers[r], g.traces[r]);
      }
    } else {
      assert Segment(s', g') == q;
    }
  }

  /** The next lap begins. */
  lemma NewLapStepKeeps(s: State, g: Shadow, next: seq<byte>) returns (g': Shadow)
    requires StateInv(s, g) && s.writer.WWrapScan? && s.writer.i >= |s.readers| && Timely(WriterStep(s, next))
    ensures StateInv(WriterStep(s, next), g')
  {
    hide Shape, Block, Chained, SizeTag, WrapTag, Holds, SizeKnown, Copyable;
    var s', q := WriterStep(s, next), Segment(s, g);
    StartLapKeepsInv(q);
    g' := g.(prev := g.first, first := |s.sent|);
    assert Segment(s', g') == StartLap(q);
    forall r | 0 <= r < |s.readers| ensures ReaderOk(StartLap(q), s'.laps, s'.readers[r], g'.traces[r]) {
      ReaderAfterStartLap(q, s.laps, s.readers[r], g.traces[r]);
    }
    RoomForNext(s, g);
  }

  /** A message that did not fit behind the write offset fits at the start. */
  lemma RoomForNext(s: State, g: Shadow)
    requires StateInv(s, g) && (s.writer.WWrapScan? || s.writer.WWrapKill?)
    ensures Room(s.size, s.writer.msg, Ptr(0, 0))
  {
  }

  lemma WrapScanStepKeeps(s: State, g: Shadow, next: seq<byte>) returns (g': Shadow)
    requires StateInv(s, g) && (s.writer.WWrapScan? || s.writer.WWrapKill?) && Timely(WriterStep(s, next))
    ensures StateInv(WriterStep(s, next), g')
  {
    if s.writer.WWrapScan? && s.writer.i >= |s.readers| {
      g' := NewLapStepKeeps(s, g, next);
    } else {
      g' := g;
      var s', q := WriterStep(s, next), Segment(s, g);
      assert Segment(s', g') == q;
      forall r | 0 <= r < |s.readers| ensures ReaderOk(q, s.laps, s'.readers[r], g'.traces[r]) {
        assert ReaderOk(q, s.laps, s.readers[r], g.traces[r]);
      }
    }
  }

  lemma ScanStepKeeps(s: State, g: Shadow, next: seq<byte>)
    requires StateInv(s, g) && ((s.writer.WScan? && s.writer.i < |s.readers|) || s.writer.WKill?)
    ensures StateInv(WriterStep(s, next), g)
  {
    var s', q, msg := WriterStep(s, next), Segment(s, g), s.writer.msg;
    assert Segment(s', g) == q;
    EndOfIsFootprint(msg, s.wptr);
    forall r | 0 <= r < |s.readers|
      ensures ReaderOk(q, s.laps, s'.readers[r], g.traces[r])
      ensures Scanned(s'.writer, r) ==> Clear(q.off, EndOf(msg, s.wptr), s'.readers[r])
    {
      assert ReaderOk(q, s.laps, s.readers[r], g.traces[r]);
      if s.writer.WScan? && r == s.writer.i && !s'.writer.kill {
        NotKilledIsClear(q, s.laps, s.readers[r], g.traces[r], EndOf(msg, s.wptr));
      }
    }
  }

  lemma StoreSizeStepKeeps(s: State, g: Shadow, next: seq<byte>) returns (g': Shadow)
    requires StateInv(s, g) && s.writer.WScan? && s.writer.i >= |s.readers|
    ensures StateInv(WriterStep(s, next), g')
  {
    var s', q, msg := WriterStep(s, next), Segment(s, g), s.writer.msg;
    EndOfIsFootprint(msg, s.wptr);
    var end := EndOf(msg, s.wptr);
    var q' := StoreSize(q, end, msg);
    StoreSizeKeepsInv(q, end, msg);
    g' := g.(pay := q'.pay, sizes := q'.sizes, wraps := q'.wraps);
    assert Segment(s', g') == q';
    forall r | 0 <= r < |s.readers|
      ensures ReaderOk(q', s.laps, s'.readers[r], g'.traces[r]) && Clear(q.off, end, s'.readers[r])
    {
      assert Scanned(s.writer, r);
      ReaderAfterStoreSize(q, s.laps, s.readers[r], g.traces[r], end, msg);
    }
  }

  /** One more byte of the payload is in place. */
  lemma CopyOneByte(data: seq<byte>, at: nat, msg: seq<byte>, k: nat, tagAt: nat, tag: seq<byte>)
    requires k < |msg| && at + |msg| <= |data|
    requires Holds(data, at, msg[..k]) && Holds(data, tagAt, tag) && tagAt + |tag| <= at
    ensures var data' := Put(data, at + k, [msg[k]]);
            Holds(data', at, msg[..k + 1]) && Holds(data', tagAt, tag) && SameOutside(data, data', at + k, at + k + 1)
  {
    var data' := Put(data, at + k, [msg[k]]);
    HoldsElsewhere(data, data', at + k, at + k + 1, tagAt, tag);
    assert data'[at..at + k + 1] == data[at..at + k] + [msg[k]];
    assert msg[..k + 1] == msg[..k] + [msg[k]];
  }

  lemma CopyStepSegment(s: State, g: Shadow, next: seq<byte>)
    requires StateInv(s, g) && s.writer.WCopy? && s.writer.k < |s.writer.msg|
    ensures var q, q' := Segment(s, g), Segment(WriterStep(s, next), g);
            && Inv(q') && Cleared(q', q.off + Footprint(s.writer.msg)) && q' == q.(data := q'.data)
            && q'.data == Put(s.data, q.off + 8 + s.writer.k, [s.writer.msg[s.writer.k]])
  {
    var q, q' := Segment(s, g), Segment(WriterStep(s, next), g);
    StoreKeepsInv(q, q', q.off + Footprint(s.writer.msg));
  }

  lemma CopyStepWriter(s: State, g: Shadow, next: seq<byte>)
    requires StateInv(s, g) && s.writer.WCopy? && s.writer.k < |s.writer.msg|
    ensures WriterOk(WriterStep(s, next), Segment(WriterStep(s, next), g))
  {
    CopyStepSegment(s, g, next);
    CopyOneByte(s.data, s.wptr.off + 8, s.writer.msg, s.writer.k, s.wptr.off, EncodeInt64(|s.writer.msg|));
  }

  lemma CopyStepKeeps(s: State, g: Shadow, next: seq<byte>)
    requires StateInv(s, g) && s.writer.WCopy? && s.writer.k < |s.writer.msg|
    ensures StateInv(WriterStep(s, next), g)
  {
    var s', q := WriterStep(s, next), Segment(s, g);
    CopyStepSegment(s, g, next);
    CopyStepWriter(s, g, next);
    forall r | 0 <= r < |s.readers|
      ensures ReaderOk(Segment(s', g), s.laps, s'.readers[r], g.traces[r])
      ensures Clear(q.off, EndOf(s.writer.msg, s.wptr), s'.readers[r])
    {
      ReaderAfterStore(q, Segment(s', g), s.laps, s.readers[r], g.traces[r]);
      assert Scanned(s.writer, r);
    }
  }

  lemma PublishStepSegment(s: State, g: Shadow, next: seq<byte>)
    requires StateInv(s, g) && s.writer.WCopy? && s.writer.k == |s.writer.msg|
    ensures var q, msg := Segment(s, g), s.writer.msg;
            && Publishable(q, msg)
            && Segment(WriterStep(s, next), g.(pay := Publish(q, msg).pay, sizes := Publish(q, msg).sizes))
                == Publish(q, msg)
  {
    hide Holds, Cleared, ReaderOk, Clear, EncodeInt64;
    var msg := s.writer.msg;
    EndOfIsFootprint(msg, s.wptr);
    assert msg[..|msg|] == msg;
  }

  lemma PublishStepKeeps(s: State, g: Shadow, next: seq<byte>) returns (g': Shadow)
    requires StateInv(s, g) && s.writer.WCopy? && s.writer.k == |s.writer.msg|
    ensures StateInv(WriterStep(s, next), g')
  {
    var q, msg := Segment(s, g), s.writer.msg;
    PublishStepSegment(s, g, next);
    PublishKeepsInv(q, msg);
    g' := g.(pay := Publish(q, msg).pay, sizes := Publish(q, msg).sizes);
    forall r | 0 <= r < |s.readers| ensures ReaderOk(Publish(q, msg), s.laps, s.readers[r], g.traces[r]) {
      ReaderAfterPublish(q, s.laps, s.readers[r], g.traces[r], msg);
    }
  }

  // ---- Whole runs

  ghost predicate SendableEvents(size: nat, schedule: seq<Event>) {
    forall i :: 0 <= i < |schedule| && schedule[i].Write? ==> Sendable(size, schedule[i].msg)
  }

  lemma ReadStepKeeps(s: State, g: Shadow, r: nat) returns (g': Shadow)
    requires StateInv(s, g) && r < |s.readers|
    ensures StateInv(Step(s, Read(r)), g')
  {
    var s', q := Step(s, Read(r)), Segment(s, g);
    g' := g.(traces := g.traces[r := TraceStep(q, s.readers[r], g.traces[r])]);
    assert Segment(s', g') == q;
    ReaderStepKeeps(q, s.laps, s.wptr, s.readers[r], g.traces[r]);
    forall i | 0 <= i < |s.readers|
      ensures ReaderOk(q, s.laps, s'.readers[i], g'.traces[i])
      ensures Scanned(s.writer, i) ==> Clear(q.off, EndOf(s.writer.msg, s.wptr), s'.readers[i])
    {
      assert ReaderOk(q, s.laps, s.readers[i], g.traces[i]);
      if i == r && Scanned(s.writer, r) {
        ReaderStepStaysClear(q, s.laps, s.wptr, s.readers[r], g.traces[r], EndOf(s.writer.msg, s.wptr));
      }
    }
  }

  lemma StepKeeps(s: State, g: Shadow, e: Event) returns (g': Shadow)
    requires StateInv(s, g) && Timely(Step(s, e))
    requires e.Write? ==> Sendable(s.size, e.msg)
    ensures StateInv(Step(s, e), g')
  {
    match e
    case Read(r) =>
      if r < |s.readers| {
        g' := ReadStepKeeps(s, g, r);
      } else {
        g' := g;
      }
    case Write(msg) =>
      match s.writer {
        case WIdle =>
          g' := g;
          assert Segment(Step(s, e), g) == Segment(s, g);
        case WSpace(_, _) => g' := SpaceStepKeeps(s, g, msg);
        case WWrapScan(_, _, _) => g' := WrapScanStepKeeps(s, g, msg);
        case WWrapKill(_, _, _, _) => g' := WrapScanStepKeeps(s, g, msg);
        case WScan(_, _, i) =>
          if i < |s.readers| {
            ScanStepKeeps(s, g, msg);
            g' := g;
          } else {
            g' := StoreSizeStepKeeps(s, g, msg);
          }
        case WKill(_, _, _, _) =>
          ScanStepKeeps(s, g, msg);
          g' := g;
        case WCopy(m, _, k) =>
          if k < |m| {
            CopyStepKeeps(s, g, msg);
            g' := g;
          } else {
            g' := PublishStepKeeps(s, g, msg);
          }
      }
  }

  /** Along the whole run, no valid reader falls 2^32 laps behind. */
  ghost predicate TimelyRun(s: State, schedule: seq<Event>)
    decreases |schedule|
  {
    schedule == [] || (Timely(Step(s, schedule[0])) && TimelyRun(Step(s, schedule[0]), schedule[1..]))
  }

  lemma {:induction false} RunKeeps(s: State, g: Shadow, schedule: seq<Event>) returns (g': Shadow)
    requires StateInv(s, g) && SendableEvents(s.size, schedule) && TimelyRun(s, schedule)
    ensures StateInv(Run(s, schedule), g')
    decreases |schedule|
  {
    if schedule == [] {
      g' := g;
    } else {
      g' := StepKeeps(s, g, schedule[0]);
      g' := RunKeeps(Step(s, schedule[0]), g', schedule[1..]);
    }
  }

  lemma InitHolds(s: State) returns (g: Shadow)
    requires Init(s)
    ensures StateInv(s, g)
  {
    g := Shadow(map[], {}, {}, 0, 0, seq(|s.readers|, i => Trace(-1, 0, [])));
  }

  /** Below the write offset lie messages of the current lap, from `first` on; elsewhere older ones. */
  ghost predicate OfLap(s: State, first: nat, at: nat, k: nat) {
    k < |s.sent| && if at < s.wptr.off then k >= first else k < first
  }

  /** Message `k`, tag and bytes, is intact at `at`. */
  ghost predicate IntactAt(s: State, first: nat, at: nat, k: nat) {
    && OfLap(s, first, at, k) && |s.sent[k]| < TWO_32
    && Holds(s.data, at, EncodeInt64(|s.sent[k]|)) && Holds(s.data, at + 8, s.sent[k])
  }

  /** The bytes of message `k`, of this size, are intact behind `at`. */
  ghost predicate PayloadAt(s: State, first: nat, at: nat, k: nat, size: int) {
    OfLap(s, first, at, k) && |s.sent[k]| == size && Holds(s.data, at + 8, s.sent[k])
  }

  /** The size of the message whose bytes the reader relies on, once it has read one. */
  function SizeRead(pc: ReaderPc): Option<int> {
    match pc
    case RCheckSize(_, _, size) => Some(size)
    case RDecide(_, _, size) => Some(size)
    case RCopy(_, size, _) => Some(size)
    case _ => None
  }

  /**
   * A reader stands at the write offset, on a wraparound tag beyond it, or on
   * the tag of an intact message: one of the current lap below the write
   * offset, an older one beyond.  Once it has read a tag, it still has the
   * bytes of that message, or it has a whole lap to catch up.
   */
  ghost predicate OnBoundary(s: State, first: nat, rd: Reader) {
    var x := rd.ptr.off;
    match SizeRead(rd.pc)
    case Some(size) => if size == WRAP_TAG then rd.lap < s.laps else exists k :: PayloadAt(s, first, x, k, size)
    case None =>
      || x == s.wptr.off
      || (x > s.wptr.off && Holds(s.data, x, EncodeInt64(WRAP_TAG)))
      || exists k :: IntactAt(s, first, x, k)
  }

  lemma ReliableIsOnBoundary(s: State, g: Shadow, r: nat)
    requires StateInv(s, g) && r < |s.readers| && s.readers[r].valid
    ensures OnBoundary(s, g.first, s.readers[r])
  {
    var q, rd := Segment(s, g), s.readers[r];
    var x := rd.ptr.off;
    assert ReaderOk(q, s.laps, rd, g.traces[r]);
    match SizeRead(rd.pc)
    case Some(size) =>
      if size != WRAP_TAG {
        assert Block(q, x);
        assert PayloadAt(s, g.first, x, q.pay[x], size);
      }
    case None =>
      if x != s.wptr.off {
        if x in q.wraps {
          assert WrapTag(q, x);
        } else {
          assert SizeTag(q, x) && Block(q, x);
          assert IntactAt(s, g.first, x, q.pay[x]);
        }
      }
  }

  /**
   * For every interleaving of single shared accesses: each message that recv
   * returned is byte for byte one that was sent, a reader's messages come in
   * strictly increasing send order, and neither assertion of recv fires.  The
   * only condition is that no reader whose flag is set falls 2^32 laps behind,
   * where its 32-bit lap counter would equal the writer's again; the number of
   * laps itself is not bounded.
   */
  lemma EveryScheduleIsAuthentic(s: State, schedule: seq<Event>)
    requires Init(s) && SendableEvents(s.size, schedule)
    requires TimelyRun(s, schedule)
    ensures var s' := Run(s, schedule);
            forall rd :: rd in s'.readers ==>
              && (exists order :: Authentic(s'.sent, rd.delivered, order))
              && InBounds(s'.size, rd)
  {
    hide Init;
    var g := InitHolds(s);
    g := RunKeeps(s, g, schedule);
    var s' := Run(s, schedule);
    forall rd | rd in s'.readers
      ensures (exists order :: Authentic(s'.sent, rd.delivered, order)) && InBounds(s'.size, rd)
    {
      var r :| 0 <= r < |s'.readers| && s'.readers[r] == rd;
      assert ReaderOk(Segment(s', g), s'.laps, rd, g.traces[r]);
      assert Authentic(s'.sent, rd.delivered, g.traces[r].order);
    }
  }

  /** `first` is the first message of the current lap: from it on, messages tile [0, write offset), and
      every valid reader stands on a boundary. */
  ghost predicate Layout(s: State, first: nat) {
    && Tiled(s.data, s.sent, s.wptr.off, 0, first)
    && forall rd :: rd in s.readers && rd.valid ==> OnBoundary(s, first, rd)
  }

  lemma LayoutHolds(s: State, g: Shadow)
    requires StateInv(s, g)
    ensures Layout(s, g.first) && s.wptr.off % 8 == 0 && s.wptr.off + 8 <= s.size
  {
    hide OnBoundary, Tiled;
    CurrentLapTiles(Segment(s, g));
    forall rd | rd in s.readers && rd.valid ensures OnBoundary(s, g.first, rd) {
      var r :| 0 <= r < |s.readers| && s.readers[r] == rd;
      ReliableIsOnBoundary(s, g, r);
    }
  }

  /**
   * In every reachable state, including halfway through a send, the messages
   * of the current lap tile [0, write offset), a wraparound tag fits behind
   * them, and a valid reader, at any point of recv, stands on a boundary of
   * the current lap or of older intact data at or beyond the write offset.
   */
  lemma EveryScheduleKeepsLayout(s: State, schedule: seq<Event>)
    requires Init(s) && SendableEvents(s.size, schedule)
    requires TimelyRun(s, schedule)
    ensures exists first: nat :: Layout(Run(s, schedule), first)
    ensures var s' := Run(s, schedule); s'.wptr.off % 8 == 0 && s'.wptr.off + 8 <= s'.size
  {
    hide Layout, StateInv, Init;
    var g := InitHolds(s);
    g := RunKeeps(s, g, schedule);
    LayoutHolds(Run(s, schedule), g);
  }
}
