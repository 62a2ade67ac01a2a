// Whole calls as runs of the step machine: between calls the state is that of a
// queue of MsgqAtomic, the writer's steps alone complete a send with the effect
// of Send, and one reader's steps alone complete a recv with the effect of Recv.

module MsgqLink {
  import opened Words
  import opened MsgqRing
  import opened MsgqSteps
  import opened MsgqAtomic

  /** A subscriber's mode, and what recv has returned to it so far. */
  datatype Client = Client(conflate: bool, delivered: seq<seq<byte>>)

  function ReaderAt(c: Cursor, client: Client): Reader {
    Reader(c.ptr, c.valid, RStart, client.conflate, client.delivered, c.lap)
  }

  function ReadersOf(cursors: seq<Cursor>, clients: seq<Client>): (readers: seq<Reader>)
    requires |cursors| == |clients|
  {
    seq(|cursors|, i requires 0 <= i < |cursors| => ReaderAt(cursors[i], clients[i]))
  }

  /** The state of the step machine between calls. */
  function StateOf(q: Queue, clients: seq<Client>): State
    requires |q.cursors| == |clients|
  {
    State(q.ring.size, q.ring.data, WritePtr(q), WIdle, ReadersOf(q.cursors, clients), q.ring.sent, q.laps)
  }

  /** The step of `e` in `s` is the last one of a call. */
  predicate Returns(s: State, e: Event) {
    match e
    case Write(_) => Step(s, e).writer == WIdle
    case Read(r) => r < |s.readers| && LastStep(s, s.readers[r])
  }

  predicate LastStep(s: State, rd: Reader) {
    (rd.pc.RFinal? && rd.valid) || (rd.pc.RLoadWrite? && rd.pc.rp.off == s.wptr.off)
  }

  /** `e` alone, up to the end of the call, leads from `s` to `s'` in at most `n` steps. */
  predicate Completes(s: State, e: Event, s': State, n: nat)
    decreases n
  {
    n > 0 && if Returns(s, e) then s' == Step(s, e) else Completes(Step(s, e), e, s', n - 1)
  }

  /** The whole call of `e` alone, from `s`, ends in `s'`. */
  ghost predicate Leads(s: State, e: Event, s': State) {
    exists n :: Completes(s, e, s', n)
  }

  lemma OneMore(s: State, e: Event, s': State, n: nat)
    requires !Returns(s, e) && Completes(Step(s, e), e, s', n)
    ensures Completes(s, e, s', n + 1)
  {
  }

  // ---- Send

  function Copied(s: State, msg: seq<byte>, wp: Ptr, k: nat): State
    requires k <= |msg| && wp.off + 8 + |msg| <= |s.data|
  {
    s.(data := Put(s.data, wp.off + 8 + k, msg[k..]), wptr := Ptr(wp.cycles, EndOf(msg, wp) % TWO_32),
       sent := s.sent + [msg], writer := WIdle)
  }

  lemma PutNext(data: seq<byte>, at: nat, msg: seq<byte>, k: nat)
    requires k < |msg| && at + |msg| <= |data|
    ensures Put(Put(data, at + k, [msg[k]]), at + k + 1, msg[k + 1..]) == Put(data, at + k, msg[k..])
  {
  }

  lemma PutNothing(data: seq<byte>, at: nat)
    requires at <= |data|
    ensures Put(data, at, []) == data
  {
  }

  lemma CopyStep(s: State, next: seq<byte>, msg: seq<byte>, wp: Ptr, k: nat)
    requires s.writer == WCopy(msg, wp, k) && k < |msg| && wp.off + 8 + |msg| <= |s.data|
    ensures var s1 := Step(s, Write(next));
            && s1.writer == WCopy(msg, wp, k + 1) && |s1.data| == |s.data|
            && Copied(s1, msg, wp, k + 1) == Copied(s, msg, wp, k)
  {
    hide Put;
    PutNext(s.data, wp.off + 8, msg, k);
  }

  /** The bytes from k on, and the new write pointer. */
  lemma {:induction false} CopyCompletes(s: State, next: seq<byte>, msg: seq<byte>, wp: Ptr, k: nat) returns (n: nat)
    requires s.writer == WCopy(msg, wp, k) && k <= |msg| && wp.off + 8 + |msg| <= |s.data|
    ensures Completes(s, Write(next), Copied(s, msg, wp, k), n)
    decreases |msg| - k
  {
    hide Put;
    if k == |msg| {
      PutNothing(s.data, wp.off + 8 + k);
      assert msg[k..] == [];
      n := 1;
    } else {
      CopyStep(s, next, msg, wp, k);
      n := CopyCompletes(Step(s, Write(next)), next, msg, wp, k + 1);
      OneMore(s, Write(next), Copied(s, msg, wp, k), n);
      n := n + 1;
    }
  }

  /** The test of either scan; `end` is None for the scan before a wraparound. */
  predicate Hit(wp: Ptr, end: Option<nat>, p: Ptr) {
    match end
    case None => p.off > wp.off && p.cycles != wp.cycles
    case Some(end) => wp.off <= p.off < end && p.cycles != wp.cycles
  }

  function ScanAt(msg: seq<byte>, wp: Ptr, end: Option<nat>, i: nat): WriterPc {
    if end.None? then WWrapScan(msg, wp, i) else WScan(msg, wp, i)
  }

  function Swept(readers: seq<Reader>, wp: Ptr, end: Option<nat>, i: nat): (swept: seq<Reader>)
    ensures |swept| == |readers|
  {
    seq(|readers|, j requires 0 <= j < |readers| =>
      if j >= i && Hit(wp, end, readers[j].ptr) then readers[j].(valid := false) else readers[j])
  }

  lemma SweptNext(readers: seq<Reader>, wp: Ptr, end: Option<nat>, i: nat)
    requires i < |readers|
    ensures Swept(Kill(readers, i, Hit(wp, end, readers[i].ptr)), wp, end, i + 1) == Swept(readers, wp, end, i)
  {
  }

  lemma SweptAll(readers: seq<Reader>, wp: Ptr, end: Option<nat>)
    ensures Swept(readers, wp, end, |readers|) == readers
  {
  }

  /** A scan from reader i on clears the flags of the readers it hits. */
  lemma {:induction false} ScanCompletes(s: State, next: seq<byte>, msg: seq<byte>, wp: Ptr, end: Option<nat>, i: nat,
                                         s': State, m: nat) returns (n: nat)
    requires s.writer == ScanAt(msg, wp, end, i) && i <= |s.readers| && (end.Some? ==> end.value == EndOf(msg, wp))
    requires Completes(s.(readers := Swept(s.readers, wp, end, i), writer := ScanAt(msg, wp, end, |s.readers|)),
                       Write(next), s', m)
    ensures Completes(s, Write(next), s', n)
    decreases |s.readers| - i
  {
    hide Swept, Completes;
    if i == |s.readers| {
      SweptAll(s.readers, wp, end);
      n := m;
    } else {
      var s1 := Step(s, Write(next));
      var s2 := Step(s1, Write(next));
      SweptNext(s.readers, wp, end, i);
      n := ScanCompletes(s2, next, msg, wp, end, i + 1, s', m);
      OneMore(s1, Write(next), s', n);
      OneMore(s, Write(next), s', n + 1);
      n := n + 2;
    }
  }

  lemma SweptCursors(q: Queue, clients: seq<Client>, end: nat)
    requires |q.cursors| == |clients|
    ensures Swept(ReadersOf(q.cursors, clients), WritePtr(q), Some(end), 0)
         == ReadersOf(seq(|q.cursors|, i requires 0 <= i < |q.cursors| =>
              Revoke(q.cursors[i], KilledByStore(q.cursors[i], WritePtr(q), end))), clients)
  {
  }

  lemma SweptCursorsWrap(q: Queue, clients: seq<Client>)
    requires |q.cursors| == |clients|
    ensures Swept(ReadersOf(q.cursors, clients), WritePtr(q), None, 0)
         == ReadersOf(seq(|q.cursors|, i requires 0 <= i < |q.cursors| =>
              Revoke(q.cursors[i], KilledByWrap(q.cursors[i], WritePtr(q)))), clients)
  {
  }

  /** From the second scan on. */
  lemma SendAtCompletes(q: Queue, clients: seq<Client>, next: seq<byte>, msg: seq<byte>) returns (n: nat)
    requires |q.cursors| == |clients| && Message(msg) && q.ring.off % 8 == 0
    requires q.ring.off + Footprint(msg) + 8 <= |q.ring.data| < TWO_32
    ensures Completes(StateOf(q, clients).(writer := WScan(msg, WritePtr(q), 0)), Write(next),
                      StateOf(SendAt(q, msg), clients), n)
  {
    hide Completes, Swept, ReadersOf, Put, EncodeInt64;
    var e, wp, s' := Write(next), WritePtr(q), StateOf(SendAt(q, msg), clients);
    var s := StateOf(q, clients).(writer := WScan(msg, wp, 0));
    EndOfIsFootprint(msg, wp);
    var end := EndOf(msg, wp);
    SweptCursors(q, clients, end);
    var s1 := s.(readers := s'.readers, writer := WScan(msg, wp, |s.readers|));
    n := TagAndCopy(s1, next, msg, wp);
    n := ScanCompletes(s, next, msg, wp, Some(end), 0, s', n);
  }

  /** The size tag, the bytes and the new write pointer. */
  lemma TagAndCopy(s: State, next: seq<byte>, msg: seq<byte>, wp: Ptr) returns (n: nat)
    requires s.writer == WScan(msg, wp, |s.readers|) && Message(msg) && wp.off + Footprint(msg) <= |s.data|
    ensures var data := Put(Put(s.data, wp.off, EncodeInt64(|msg|)), wp.off + 8, msg);
            var s' := s.(data := data, wptr := Ptr(wp.cycles, EndOf(msg, wp) % TWO_32), sent := s.sent + [msg],
                         writer := WIdle);
            Completes(s, Write(next), s', n)
  {
    hide Completes, Put, EncodeInt64;
    var s1 := Step(s, Write(next));
    n := CopyCompletes(s1, next, msg, wp, 0);
    assert msg[0..] == msg;
    OneMore(s, Write(next), Copied(s1, msg, wp, 0), n);
    n := n + 1;
  }

  /** The tag, the first scan, and the next lap. */
  lemma WrapCompletes(q: Queue, clients: seq<Client>, next: seq<byte>, msg: seq<byte>, s': State, m: nat)
    returns (n: nat)
    requires |q.cursors| == |clients| && q.ring.off + 8 <= |q.ring.data| == q.ring.size
    requires NeedsWrap(q.ring.size, q.ring.off, msg)
    requires var q1 := SendWrap(q);
             Completes(StateOf(q1, clients).(writer := WScan(msg, WritePtr(q1), 0)), Write(next), s', m)
    ensures Completes(StateOf(q, clients).(writer := WSpace(msg, WritePtr(q))), Write(next), s', n)
  {
    hide Completes, Swept, ReadersOf, Put, EncodeInt64;
    var e, wp, q1 := Write(next), WritePtr(q), SendWrap(q);
    var s := StateOf(q, clients).(writer := WSpace(msg, wp));
    var s1 := Step(s, e);
    SweptCursorsWrap(q, clients);
    NextLap(wp, q.laps);
    var s2 := s1.(readers := ReadersOf(q1.cursors, clients), writer := WWrapScan(msg, wp, |clients|));
    ReadersLength(q.cursors, clients);
    ReadersLength(q1.cursors, clients);
    assert Step(s2, e) == StateOf(q1, clients).(writer := WScan(msg, WritePtr(q1), 0));
    OneMore(s2, e, s', m);
    n := ScanCompletes(s1, next, msg, wp, None, 0, s', m + 1);
    OneMore(s, e, s', n);
    n := n + 1;
  }

  lemma ReadersLength(cursors: seq<Cursor>, clients: seq<Client>)
    requires |cursors| == |clients|
    ensures |ReadersOf(cursors, clients)| == |clients|
  {
  }

  /**
   * The writer's steps alone, from one call to the next, have exactly the
   * effect of Send on the segment, the pointers and the flags.
   */
  lemma SendCompletes(q: Queue, clients: seq<Client>, msg: seq<byte>)
    requires SendRequires(q, msg) && Message(msg) && |q.cursors| == |clients|
    ensures |Send(q, msg).cursors| == |clients|
    ensures Leads(StateOf(q, clients), Write(msg), StateOf(Send(q, msg), clients))
  {
    hide Completes, ReadersOf, CursorOk, SendAt, SendWrap;
    SendableFitsOk(q, msg);
    SendAddsOne(q, msg);
    var e, s' := Write(msg), StateOf(Send(q, msg), clients);
    var s1 := StateOf(q, clients).(writer := WSpace(msg, WritePtr(q)));
    var n: nat;
    if NeedsWrap(q.ring.size, q.ring.off, msg) {
      WrapShape(q);
      n := SendAtCompletes(SendWrap(q), clients, msg, msg);
      n := WrapCompletes(q, clients, msg, msg, s', n);
    } else {
      n := SendAtCompletes(q, clients, msg, msg);
      OneMore(s1, e, s', n);
      n := n + 1;
    }
    OneMore(StateOf(q, clients), e, s', n);
    assert Completes(StateOf(q, clients), e, s', n + 1);
  }

  lemma WrapShape(q: Queue)
    requires q.ring.off + 8 <= |q.ring.data|
    ensures var q1 := SendWrap(q);
            && q1.ring.off == 0 && q1.ring.size == q.ring.size && |q1.ring.data| == |q.ring.data|
            && |q1.cursors| == |q.cursors|
  {
  }

  // ---- Recv

  /** Reader steps alone, up to the end of the call, lead from `rd` to `rd'`. */
  predicate Ends(s: State, rd: Reader, rd': Reader, n: nat)
    decreases n
  {
    && n > 0
    && var rd1 := ReaderStep(s.size, s.data, s.wptr, s.laps, rd);
       if LastStep(s, rd) then rd' == rd1 else Ends(s, rd1, rd', n - 1)
  }

  lemma StepOn(s: State, rd: Reader, rd1: Reader, rd': Reader, n: nat)
    requires !LastStep(s, rd) && rd1 == ReaderStep(s.size, s.data, s.wptr, s.laps, rd) && Ends(s, rd1, rd', n)
    ensures Ends(s, rd, rd', n + 1)
  {
  }

  /** Steps of one reader of the state. */
  lemma {:induction false} EndsCompletes(s: State, r: nat, rd': Reader, n: nat)
    requires r < |s.readers| && Ends(s, s.readers[r], rd', n)
    ensures Completes(s, Read(r), s.(readers := s.readers[r := rd']), n)
    decreases n
  {
    if !LastStep(s, s.readers[r]) {
      var s1 := Step(s, Read(r));
      assert s1.readers[r := rd'] == s.readers[r := rd'];
      SameEnds(s, s1, s1.readers[r], rd', n - 1);
      EndsCompletes(s1, r, rd', n - 1);
    }
  }

  lemma {:induction false} SameEnds(s: State, s1: State, rd: Reader, rd': Reader, n: nat)
    requires Ends(s, rd, rd', n)
    requires s1.size == s.size && s1.data == s.data && s1.wptr == s.wptr && s1.laps == s.laps
    ensures Ends(s1, rd, rd', n)
    decreases n
  {
    if !LastStep(s, rd) {
      SameEnds(s, s1, ReaderStep(s.size, s.data, s.wptr, s.laps, rd), rd', n - 1);
    }
  }

  /** From the comparison of the pointers to the decision on the size that was read. */
  lemma TagSteps(s: State, c: Cursor, client: Client, rd': Reader, m: nat) returns (n: nat)
    requires c.valid && c.ptr.off != s.wptr.off
    requires Ends(s, ReaderAt(c, client).(pc := RDecide(c.ptr, s.wptr.off, LoadInt64(s.data, c.ptr.off))), rd', m)
    ensures Ends(s, ReaderAt(c, client), rd', n)
  {
    hide Ends, LoadInt64;
    var rd, off := ReaderAt(c, client), s.wptr.off;
    var size := LoadInt64(s.data, c.ptr.off);
    StepOn(s, rd.(pc := RCheckSize(c.ptr, off, size)), rd.(pc := RDecide(c.ptr, off, size)), rd', m);
    StepOn(s, rd.(pc := RLoadSize(c.ptr, off)), rd.(pc := RCheckSize(c.ptr, off, size)), rd', m + 1);
    StepOn(s, rd.(pc := RLoadWrite(c.ptr)), rd.(pc := RLoadSize(c.ptr, off)), rd', m + 2);
    StepOn(s, rd.(pc := RLoadPtr), rd.(pc := RLoadWrite(c.ptr)), rd', m + 3);
    StepOn(s, rd, rd.(pc := RLoadPtr), rd', m + 4);
    n := m + 5;
  }

  /** The bytes from `copied` on, the new read pointer, and the return. */
  lemma {:induction false} CopyEnds(s: State, c: Cursor, client: Client, size: nat, copied: seq<byte>)
    returns (n: nat)
    requires c.valid && size > 0 && c.ptr.off + 8 + size <= |s.data|
    requires copied <= Slice(s.data, c.ptr.off + 8, c.ptr.off + 8 + size)
    ensures Ends(s, ReaderAt(c, client).(pc := RCopy(c.ptr, size, copied)),
                 ReaderAt(c.(ptr := Ptr(c.ptr.cycles, NextRead(c.ptr, size))),
                          client.(delivered := client.delivered
                                               + [Slice(s.data, c.ptr.off + 8, c.ptr.off + 8 + size)])), n)
    decreases size - |copied|
  {
    var rd, all := ReaderAt(c, client), Slice(s.data, c.ptr.off + 8, c.ptr.off + 8 + size);
    if |copied| == size {
      assert copied == all;
      n := 2;
    } else {
      var more := copied + [Load(s.data, c.ptr.off + 8 + |copied|)];
      assert more == all[..|copied| + 1];
      n := CopyEnds(s, c, client, size, more);
      n := n + 1;
    }
  }

  /** The shared words and bytes are those of `q`. */
  predicate Shares(s: State, r: Ring, laps: nat) {
    s.size == r.size && s.data == r.data && s.wptr == Ptr(laps % TWO_32, r.off) && s.laps == laps
  }

  function Delivering(client: Client, msg: Option<seq<byte>>): Client {
    if msg.Some? then client.(delivered := client.delivered + [msg.value]) else client
  }

  /** One pass that jumps back to the start. */
  lemma AgainEnds(s: State, r: Ring, laps: nat, c: Cursor, client: Client, rd': Reader, m: nat) returns (n: nat)
    requires Shares(s, r, laps) && Attempt(r, laps, c, client.conflate).Again?
    requires Ends(s, ReaderAt(Attempt(r, laps, c, client.conflate).c, client), rd', m)
    ensures Ends(s, ReaderAt(c, client), rd', n)
  {
    hide Ends, LoadInt64, NextRead;
    var rd1 := ReaderAt(Attempt(r, laps, c, client.conflate).c, client);
    if c.valid {
      var size := LoadInt64(s.data, c.ptr.off);
      StepOn(s, ReaderAt(c, client).(pc := RDecide(c.ptr, s.wptr.off, size)), rd1, rd', m);
      n := TagSteps(s, c, client, rd', m + 1);
    } else {
      StepOn(s, ReaderAt(c, client), rd1, rd', m);
      n := m + 1;
    }
  }

  /** A reader at the write pointer returns nothing. */
  lemma NothingEnds(s: State, c: Cursor, client: Client)
    requires c.valid && c.ptr.off == s.wptr.off
    ensures Ends(s, ReaderAt(c, client), ReaderAt(c, client), 3)
  {
    hide Ends;
    var rd := ReaderAt(c, client);
    LastEnds(s, rd.(pc := RLoadWrite(c.ptr)));
    StepOn(s, rd.(pc := RLoadPtr), rd.(pc := RLoadWrite(c.ptr)), rd, 1);
    StepOn(s, rd, rd.(pc := RLoadPtr), rd, 2);
  }

  lemma LastEnds(s: State, rd: Reader)
    requires LastStep(s, rd)
    ensures Ends(s, rd, ReaderStep(s.size, s.data, s.wptr, s.laps, rd), 1)
  {
  }

  /** One pass that returns. */
  lemma ReturnEnds(s: State, r: Ring, laps: nat, c: Cursor, client: Client) returns (n: nat)
    requires Shares(s, r, laps) && RecvRequires(r, laps, c) && Attempt(r, laps, c, client.conflate).Return?
    ensures var o := Attempt(r, laps, c, client.conflate);
            Ends(s, ReaderAt(c, client), ReaderAt(o.c, Delivering(client, o.msg)), n)
  {
    hide Ends, LoadInt64, NextRead, Slice, Inv, CursorOk, Settled;
    if c.ptr.off == r.off {
      NothingEnds(s, c, client);
      n := 3;
    } else {
      FoundTag(r, laps, c);
      n := DeliverEnds(s, r, laps, c, client);
    }
  }

  lemma DeliverEnds(s: State, r: Ring, laps: nat, c: Cursor, client: Client) returns (n: nat)
    requires Shares(s, r, laps) && Attempt(r, laps, c, client.conflate).Return? && c.ptr.off != r.off
    requires c.ptr.off + 8 + LoadInt64(r.data, c.ptr.off) <= |r.data|
    ensures var o := Attempt(r, laps, c, client.conflate);
            Ends(s, ReaderAt(c, client), ReaderAt(o.c, Delivering(client, o.msg)), n)
  {
    hide Ends, LoadInt64, NextRead, Slice;
    var o := Attempt(r, laps, c, client.conflate);
    var size, rd, rd' := LoadInt64(s.data, c.ptr.off), ReaderAt(c, client), ReaderAt(o.c, Delivering(client, o.msg));
    n := CopyEnds(s, c, client, size, []);
    StepOn(s, rd.(pc := RDecide(c.ptr, s.wptr.off, size)), rd.(pc := RCopy(c.ptr, size, [])), rd', n);
    n := TagSteps(s, c, client, rd', n + 1);
  }

  lemma {:induction false} RecvEnds(s: State, r: Ring, laps: nat, c: Cursor, client: Client) returns (n: nat)
    requires Shares(s, r, laps) && RecvRequires(r, laps, c)
    ensures var (c', msg) := Recv(r, laps, c, client.conflate);
            Ends(s, ReaderAt(c, client), ReaderAt(c', Delivering(client, msg)), n)
    decreases if c.valid then 0 else 1, |r.sent| - Next(r, c.ptr.off), OnWrap(r, c)
  {
    hide Ends, Attempt, Inv, CursorOk, Shares;
    AttemptKeeps(r, laps, c, client.conflate);
    var o := Attempt(r, laps, c, client.conflate);
    if o.Again? {
      NextBounded(r, o.c.ptr.off);
      n := RecvEnds(s, r, laps, o.c, client);
      var (c', msg) := Recv(r, laps, c, client.conflate);
      n := AgainEnds(s, r, laps, c, client, ReaderAt(c', Delivering(client, msg)), n);
    } else {
      n := ReturnEnds(s, r, laps, c, client);
    }
  }

  /**
   * One reader's steps alone, from one call to the next, have exactly the
   * effect of Recv on its pointer and flag, and return exactly its message.
   */
  lemma RecvCompletes(q: Queue, clients: seq<Client>, i: nat)
    requires Ok(q) && Settled(q.ring) && |q.cursors| == |clients| && i < |clients|
    ensures var (c, msg) := Recv(q.ring, q.laps, q.cursors[i], clients[i].conflate);
            var q' := q.(cursors := q.cursors[i := c]);
            Leads(StateOf(q, clients), Read(i), StateOf(q', clients[i := Delivering(clients[i], msg)]))
  {
    hide Completes, Ends, Recv, CursorOk, Inv;
    var s := StateOf(q, clients);
    var (c, msg) := Recv(q.ring, q.laps, q.cursors[i], clients[i].conflate);
    var n := RecvEnds(s, q.ring, q.laps, q.cursors[i], clients[i]);
    EndsCompletes(s, i, ReaderAt(c, Delivering(clients[i], msg)), n);
    assert s.readers[i := ReaderAt(c, Delivering(clients[i], msg))]
        == ReadersOf(q.cursors[i := c], clients[i := Delivering(clients[i], msg)]);
  }

  // ---- Sequences of calls

  function Repeat(e: Event, k: nat): seq<Event> {
    if k == 0 then [] else [e] + Repeat(e, k - 1)
  }

  lemma {:induction false} StepsRun(s: State, e: Event, s': State, n: nat)
    requires Completes(s, e, s', n)
    ensures exists k :: Run(s, Repeat(e, k)) == s'
    decreases n
  {
    var s1 := Step(s, e);
    if Returns(s, e) {
      RepeatRuns(s, e, 0);
    } else {
      StepsRun(s1, e, s', n - 1);
      var k :| Run(s1, Repeat(e, k)) == s';
      RepeatRuns(s, e, k);
    }
  }

  lemma LeadsRuns(s: State, e: Event, s': State)
    requires Leads(s, e, s')
    ensures exists k :: Run(s, Repeat(e, k)) == s'
  {
    var n :| Completes(s, e, s', n);
    StepsRun(s, e, s', n);
  }

  lemma RepeatRuns(s: State, e: Event, k: nat)
    ensures Run(s, Repeat(e, k + 1)) == Run(Step(s, e), Repeat(e, k))
  {
    assert Repeat(e, k + 1)[1..] == Repeat(e, k);
  }

  lemma {:induction false} RunJoins(s: State, a: seq<Event>, b: seq<Event>)
    ensures Run(s, a + b) == Run(Run(s, a), b)
    decreases |a|
  {
    if a == [] {
      assert a + b == b;
    } else {
      assert (a + b)[1..] == a[1..] + b;
      RunJoins(Step(s, a[0]), a[1..], b);
    }
  }

  /** The event whose steps are this call. */
  function EventOf(call: Call): Event {
    match call
    case SendCall(msg) => Write(msg)
    case RecvCall(r, _) => Read(r)
    case ReadyCall(r) => Read(r)
  }

  /** What the subscribers have been given after a call. */
  function After(q: Queue, call: Call, clients: seq<Client>): (clients': seq<Client>)
    requires Callable(q, call) && |q.cursors| == |clients|
    ensures |clients'| == |clients|
    ensures forall i :: 0 <= i < |clients| ==> clients'[i].delivered == clients[i].delivered + Got(q, call, i)
    ensures forall i :: 0 <= i < |clients| ==> clients'[i].conflate == clients[i].conflate
  {
    match call
    case RecvCall(r, conflate) =>
      clients[r := Delivering(clients[r], Recv(q.ring, q.laps, q.cursors[r], conflate).1)]
    case _ => clients
  }

  /** Every recv is in the mode of its subscriber. */
  predicate InMode(call: Call, clients: seq<Client>) {
    call.RecvCall? ==> call.reader < |clients| && call.conflate == clients[call.reader].conflate
  }

  /** msgq_msg_ready does what recv does first, the revalidation, if that is due. */
  lemma PollRuns(q: Queue, clients: seq<Client>, r: nat)
    requires Ok(q) && Settled(q.ring) && |q.cursors| == |clients| && r < |clients|
    ensures var q' := q.(cursors := q.cursors[r := Poll(q.ring, q.laps, q.cursors[r])]);
            Run(StateOf(q, clients), Repeat(Read(r), if q.cursors[r].valid then 0 else 1)) == StateOf(q', clients)
  {
    hide Inv, CursorOk;
    var s := StateOf(q, clients);
    var c := Poll(q.ring, q.laps, q.cursors[r]);
    assert s.readers[r := ReaderAt(c, clients[r])] == ReadersOf(q.cursors[r := c], clients);
    if q.cursors[r].valid {
      assert q.cursors[r := c] == q.cursors;
    } else {
      RepeatRuns(s, Read(r), 0);
    }
  }

  lemma CallRuns(q: Queue, call: Call, clients: seq<Client>)
    requires Callable(q, call) && |q.cursors| == |clients| && InMode(call, clients)
    ensures |Apply(q, call).cursors| == |clients|
    ensures exists k :: Run(StateOf(q, clients), Repeat(EventOf(call), k))
                     == StateOf(Apply(q, call), After(q, call, clients))
  {
    hide Leads, Run, StateOf, Send, Recv;
    ApplyKeeps(q, call);
    match call {
      case SendCall(msg) => SendCompletes(q, clients, msg);
      case RecvCall(r, _) => RecvCompletes(q, clients, r);
      case ReadyCall(r) =>
        PollRuns(q, clients, r);
        var k := if q.cursors[r].valid then 0 else 1;
        assert Run(StateOf(q, clients), Repeat(EventOf(call), k))
            == StateOf(Apply(q, call), After(q, call, clients));
        return;
    }
    var s, s' := StateOf(q, clients), StateOf(Apply(q, call), After(q, call, clients));
    LeadsRuns(s, EventOf(call), s');
  }

  /** `schedule` runs the calls one after another, and hands each subscriber what the calls deliver to it. */
  ghost predicate Schedules(q: Queue, calls: seq<Call>, i: nat, clients: seq<Client>,
                            schedule: seq<Event>, clients': seq<Client>)
    requires Admissible(q, calls, i) && |q.cursors| == |clients|
  {
    && |RunCalls(q, calls, i).cursors| == |clients'| == |clients|
    && Run(StateOf(q, clients), schedule) == StateOf(RunCalls(q, calls, i), clients')
    && clients'[i].delivered == clients[i].delivered + Delivered(q, calls, i)
  }

  /**
   * Every sequence of calls is a schedule of the step machine: what is proved
   * of sequences of whole calls holds of those runs, and what is proved of every
   * schedule holds of sequences of calls.
   */
  lemma {:induction false} CallsAreSchedules(q: Queue, calls: seq<Call>, i: nat, clients: seq<Client>)
    requires Admissible(q, calls, i) && |q.cursors| == |clients|
    requires forall j :: 0 <= j < |calls| ==> InMode(calls[j], clients)
    ensures exists schedule, clients' :: Schedules(q, calls, i, clients, schedule, clients')
    decreases |calls|
  {
    hide Run, StateOf, Apply, Got, Callable, InMode;
    if calls == [] {
      RunNothing(StateOf(q, clients));
      assert clients[i].delivered + [] == clients[i].delivered;
      assert Schedules(q, calls, i, clients, [], clients);
    } else {
      var q1, clients1 := Apply(q, calls[0]), After(q, calls[0], clients);
      ApplyKeeps(q, calls[0]);
      CallRuns(q, calls[0], clients);
      var k :| Run(StateOf(q, clients), Repeat(EventOf(calls[0]), k)) == StateOf(q1, clients1);
      SameModes(calls, clients, clients1);
      CallsAreSchedules(q1, calls[1..], i, clients1);
      var rest, clients' :| Schedules(q1, calls[1..], i, clients1, rest, clients');
      RunJoins(StateOf(q, clients), Repeat(EventOf(calls[0]), k), rest);
      Assoc(clients[i].delivered, Got(q, calls[0], i), Delivered(q1, calls[1..], i));
      assert Schedules(q, calls, i, clients, Repeat(EventOf(calls[0]), k) + rest, clients');
    }
  }

  lemma RunNothing(s: State)
    ensures Run(s, []) == s
  {
  }

  lemma Assoc<T>(a: seq<T>, b: seq<T>, c: seq<T>)
    ensures a + (b + c) == a + b + c
  {
  }

  lemma SameModes(calls: seq<Call>, clients: seq<Client>, clients1: seq<Client>)
    requires calls != [] && |clients1| == |clients|
    requires forall i :: 0 <= i < |clients| ==> clients1[i].conflate == clients[i].conflate
    requires forall j :: 0 <= j < |calls| ==> InMode(calls[j], clients)
    ensures forall j :: 0 <= j < |calls[1..]| ==> InMode(calls[1..][j], clients1)
  {
    forall j | 0 <= j < |calls[1..]| ensures InMode(calls[1..][j], clients1) {
      assert InMode(calls[j + 1], clients);
    }
  }
}
