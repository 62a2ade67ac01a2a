// The firmware's two bulk endpoints (panda/board/usb_protocol.h): endpoint 3 reassembles frames from
// 64-byte packets, endpoint 1 cuts queued frames into them.

module UsbBoard {
  import opened Words
  import opened CanStream

  const ASM_SIZE: nat := 72
  const MAX_EP1_CHUNK: nat := 16256

  method Memcpy(dest: array<byte>, at: nat, src: seq<byte>)
    requires at + |src| <= dest.Length
    modifies dest
    ensures dest[..at + |src|] == old(dest[..at]) + src
    ensures dest[at + |src|..] == old(dest[at + |src|..])
  {
    for i := 0 to |src|
      invariant dest[..at + i] == old(dest[..at]) + src[..i]
      invariant dest[at + i..] == old(dest[at + i..])
    {
      dest[at + i] := src[i];
      assert dest[..at + i + 1] == dest[..at + i] + [src[i]];
    }
  }

  /** `sent`, with what `todo` still holds, is `base` and all the frames of `goal`. */
  ghost predicate Ahead(base: seq<seq<byte>>, goal: Split, sent: seq<seq<byte>>, todo: seq<byte>) {
    base + goal.frames == sent + Parse(todo).frames && goal.rest == Parse(todo).rest
  }

  lemma TakeFrame(base: seq<seq<byte>>, goal: Split, sent: seq<seq<byte>>, w: seq<byte>, todo: seq<byte>)
    requires Wire(w) && Ahead(base, goal, sent, w + todo)
    ensures Ahead(base, goal, sent + [w], todo)
  {
    hide Parse;
    ParseFront(w, todo);
    assert sent + ([w] + Parse(todo).frames) == sent + [w] + Parse(todo).frames;
  }

  lemma FramedFront(p: seq<byte>, c: nat)
    ensures var n := Min(|p|, 63);
            Framed(p, c) == if p == [] then [] else [c % 256] + p[..n] + Framed(p[n..], c + 1)
  {
  }

  lemma FirstPacket(p: seq<byte>, c: nat)
    requires Framed(p, c) != []
    ensures var t, n := Framed(p, c), Min(|p|, 63);
            && n > 0 && Min(|t|, PACKET_SIZE) == n + 1
            && t[..n + 1] == [c % 256] + p[..n] && t[n + 1..] == Framed(p[n..], c + 1)
  {
  }

  lemma StartAhead(base: seq<seq<byte>>, payload: seq<byte>)
    ensures Ahead(base, Parse(payload), base, [] + payload)
  {
    assert [] + payload == payload;
  }

  lemma AllTaken(base: seq<seq<byte>>, goal: Split, sent: seq<seq<byte>>, todo: seq<byte>)
    requires Ahead(base, goal, sent, todo) && Parse(todo) == Split([], todo)
    ensures sent == base + goal.frames && todo == goal.rest
  {
  }

  /** One packet's payload `todo[..n]` parsed after the bytes kept `before` it. */
  lemma NextPacket(base: seq<seq<byte>>, goal: Split, sent: seq<seq<byte>>, before: seq<byte>, todo: seq<byte>, n: nat)
    requires Ahead(base, goal, sent, before + todo) && n <= |todo|
    ensures var p := Parse(before + todo[..n]); Ahead(base, goal, sent + p.frames, p.rest + todo[n..])
  {
    hide Parse, PacketLen, AllWire;
    var x, y := before + todo[..n], todo[n..];
    assert before + todo == x + y;
    ParseConcat(x, y);
    var f, g := Parse(x).frames, Parse(Parse(x).rest + y).frames;
    assert base + goal.frames == sent + (f + g);
    assert sent + (f + g) == (sent + f) + g;
  }

  lemma RestSuffices(base: seq<seq<byte>>, goal: Split, sent: seq<seq<byte>>, before: seq<byte>, todo: seq<byte>)
    requires Ahead(base, goal, sent, before + todo) && goal.rest == [] && before != []
        && |before| < PacketLen(before[0])
    ensures |before| + |todo| >= PacketLen(before[0])
  {
    hide PacketLen;
    ParseUnfinished(before);
    FinishedBy(before, todo);
  }

  lemma FlattenNone()
    ensures Flatten([]) == []
  {
  }

  lemma ParseUnfinished(r: seq<byte>)
    requires r != [] ==> |r| < PacketLen(r[0])
    ensures Parse(r) == Split([], r)
  {
  }

  lemma StartAheadOf(base: seq<seq<byte>>, todo: seq<byte>)
    ensures Ahead(base, Parse(todo), base, todo)
  {
  }

  lemma CounterWraps(c: nat)
    ensures (c % 256 + 1) % 256 == (c + 1) % 256
  {
  }

  /** A packet of `len` bytes holds all that a frame needing `tail` more bytes takes from it. */
  predicate Brings(tail: int, len: nat) {
    Min(tail, 63) <= len - 1
  }

  /** The bytes that complete the frame in the buffer. */
  lemma CompletedAhead(base: seq<seq<byte>>, goal: Split, sent: seq<seq<byte>>, before: seq<byte>,
                       usbdata: seq<byte>, len: nat, tail: nat)
    requires before != [] && |before| + tail == PacketLen(before[0]) && 1 + tail <= len <= |usbdata|
    requires Ahead(base, goal, sent, before + usbdata[1..len])
    ensures Ahead(base, goal, sent + [before + usbdata[1..1 + tail]], [] + usbdata[1 + tail..len])
  {
    hide Ahead, Parse, PacketLen;
    var part, rest := usbdata[1..1 + tail], usbdata[1 + tail..len];
    assert usbdata[1..len] == part + rest;
    Assoc(before, part, rest);
    TakeFrame(base, goal, sent, before + part, rest);
    assert [] + rest == rest;
  }

  /** The bytes of a full packet that only lengthen it. */
  lemma LengthenedAhead(before: seq<byte>, usbdata: seq<byte>, len: nat)
    requires 1 <= len <= PACKET_SIZE <= |usbdata|
    ensures len == PACKET_SIZE ==>
              before + usbdata[1..len] + usbdata[PACKET_SIZE..len] == before + usbdata[1..len]
  {
  }

  /** Host to board. */
  class Ep3 {
    var ptr: nat
    var tailSize: int
    var counter: nat
    const data: array<byte>
    /** What can_send was called with, in order. */
    var sent: seq<seq<byte>>

    function Pending(): seq<byte>
      reads this, data
      requires ptr <= data.Length
    {
      data[..ptr]
    }

    ghost predicate Valid()
      reads this, data
    {
      && data.Length == ASM_SIZE && counter < 256 && ptr <= ASM_SIZE
      && (ptr == 0 ==> tailSize == 0)
      && (ptr > 0 ==> tailSize > 0 && ptr + tailSize == PacketLen(data[0]))
    }

    constructor ()
      ensures Valid() && fresh(data) && sent == [] && Pending() == []
    {
      data := new byte[ASM_SIZE](_ => 0);
      ptr, tailSize, counter, sent := 0, 0, 0, [];
    }

    /** The head of usb_cb_ep3_out: bytes that complete, or lengthen, the frame in the buffer. What lies in
        usbdata beyond `len` is left over from earlier packets. */
    method Assemble(usbdata: seq<byte>, len: nat, ghost base: seq<seq<byte>>, ghost goal: Split) returns (pos: nat)
      requires Valid() && ptr > 0 && 1 <= len <= PACKET_SIZE <= |usbdata|
      modifies this`ptr, this`tailSize, this`sent, data
      ensures Valid() && 1 <= pos && (ptr > 0 ==> pos >= len)
      ensures Brings(old(tailSize), len) && old(Ahead(base, goal, sent, Pending() + usbdata[1..len])) ==>
                pos <= len && Ahead(base, goal, sent, Pending() + usbdata[pos..len])
      ensures !Brings(old(tailSize), len) ==>
                pos >= len && (if old(tailSize) <= 63 then ptr == 0 else ptr == old(ptr) + 63)
                && sent == old(sent)
                         + if old(tailSize) <= 63 then [old(Pending()) + usbdata[1..1 + old(tailSize)]] else []
    {
      hide Ahead, Parse, PacketLen;
      ghost var before, first := Pending(), data[0];
      assert before != [] && before[0] == first;
      pos := 1;
      if tailSize <= 63 {
        if Brings(tailSize, len) && Ahead(base, goal, sent, before + usbdata[1..len]) {
          CompletedAhead(base, goal, sent, before, usbdata, len, tailSize);
        }
        Memcpy(data, ptr, usbdata[pos..pos + tailSize]);
        sent := sent + [data[..ptr + tailSize]];
        pos := pos + tailSize;
        ptr, tailSize := 0, 0;
        NothingLeft(Pending(), []);
      } else {
        Memcpy(data, ptr, usbdata[pos..len]);
        LengthenedAhead(before, usbdata, len);
        tailSize, ptr, pos := tailSize - 63, ptr + 63, pos + 63;
      }
    }

    /** Whole frames of the rest of the packet, and the start of one that runs past it. */
    method SplitFrames(usbdata: seq<byte>, len: nat, start: nat, ghost base: seq<seq<byte>>, ghost goal: Split)
      requires Valid() && 1 <= start && len <= PACKET_SIZE <= |usbdata| && (ptr > 0 ==> start >= len)
      modifies this`ptr, this`tailSize, this`sent, data
      ensures Valid()
      ensures start <= len && old(Ahead(base, goal, sent, Pending() + usbdata[start..len])) ==>
          Ahead(base, goal, sent, Pending())
      ensures start >= len ==> sent == old(sent) && ptr == old(ptr) && Pending() == old(Pending())
    {
      hide Ahead, Parse, PacketLen;
      ghost var right := start <= len && Ahead(base, goal, sent, Pending() + usbdata[start..len]);
      var pos := start;
      while pos < len
        invariant Valid() && 1 <= pos && (ptr > 0 ==> pos >= len) && (start <= len ==> pos <= len)
        invariant right ==> Ahead(base, goal, sent, Pending() + usbdata[pos..len])
        invariant start >= len ==> sent == old(sent) && ptr == old(ptr) && Pending() == old(Pending())
      {
        assert Pending() + usbdata[pos..len] == usbdata[pos..len];
        var pcktLen := PacketLen(usbdata[pos]);
        if pos + pcktLen <= len {
          ghost var w := usbdata[pos..pos + pcktLen];
          if right {
            assert usbdata[pos..len] == w + usbdata[pos + pcktLen..len];
            TakeFrame(base, goal, sent, w, usbdata[pos + pcktLen..len]);
          }
          sent := sent + [usbdata[pos..pos + pcktLen]];
          pos := pos + pcktLen;
          assert Pending() + usbdata[pos..len] == usbdata[pos..len];
        } else {
          ghost var tail := usbdata[pos..len];
          Memcpy(data, 0, usbdata[pos..len]);
          ptr := len - pos;
          tailSize := pcktLen - ptr;
          pos := pos + ptr;
          assert Pending() + usbdata[pos..len] == tail;
        }
      }
      assert right ==> Pending() + usbdata[pos..len] == Pending();
    }

    /** usb_cb_ep3_out, for any packet. One out of sequence is dropped; one that brings less than the frame
        under way still needs lets that frame be completed, or lengthened, with left-over bytes. */
    method Ep3Out(usbdata: seq<byte>, len: nat)
      requires Valid() && 1 <= len <= PACKET_SIZE <= |usbdata|
      modifies this, data
      ensures Valid()
      ensures usbdata[0] != 0 && usbdata[0] != old(counter) ==>
                sent == old(sent) && Pending() == old(Pending()) && counter == old(counter)
      ensures usbdata[0] == 0 || usbdata[0] == old(counter) ==> counter == (usbdata[0] as int + 1) % 256
      ensures usbdata[0] == 0 || (usbdata[0] == old(counter) && (old(ptr) > 0 ==> Brings(old(tailSize), len))) ==>
                var p := Parse((if usbdata[0] == 0 then [] else old(Pending())) + usbdata[1..len]);
                sent == old(sent) + p.frames && Pending() == p.rest
      ensures usbdata[0] != 0 && usbdata[0] == old(counter) && old(ptr) > 0 && !Brings(old(tailSize), len) ==>
                && (if old(tailSize) <= 63 then ptr == 0 else ptr == old(ptr) + 63)
                && sent == old(sent)
                         + if old(tailSize) <= 63 then [old(Pending()) + usbdata[1..1 + old(tailSize)]] else []
    {
      hide Parse, PacketLen, Ahead;
      if usbdata[0] == 0 {
        counter, ptr, tailSize := 0, 0, 0;
        assert Pending() == [];
      }
      if usbdata[0] == counter {
        ghost var start, goal := sent, Parse(Pending() + usbdata[1..len]);
        StartAheadOf(start, Pending() + usbdata[1..len]);
        var pos := 1;
        counter := (counter + 1) % 256;
        if ptr != 0 {
          pos := Assemble(usbdata, len, start, goal);
        }
        SplitFrames(usbdata, len, pos, start, goal);
        ParseUnfinished(Pending());
        if Ahead(start, goal, sent, Pending()) {
          AllTaken(start, goal, sent, Pending());
        }
      }
    }

    /** One bulk transfer: the packets the host controller cuts it into, one callback each. `stale` is what
        the endpoint's buffer holds behind each packet. */
    method ReceiveTransfer(t: seq<byte>, stale: seq<byte>, ghost payload: seq<byte>)
      requires |stale| >= PACKET_SIZE
      requires Valid() && t == Framed(payload, 0) && |payload| <= 63 * 256 && Parse(payload).rest == []
      modifies this, data
      ensures Valid() && sent == old(sent) + Parse(payload).frames
      ensures payload != [] ==> Pending() == []
    {
      hide Parse, PacketLen, Framed, Ahead;
      ghost var todo, c := payload, 0;
      var rest := t;
      StartAhead(sent, payload);
      while rest != []
        invariant rest == Framed(todo, c) && c * 63 + |todo| <= 63 * 256 && Parse(payload).rest == []
        invariant Valid() && (if c == 0 then todo == payload else counter == c % 256)
        invariant Ahead(old(sent), Parse(payload), sent, (if c == 0 then [] else Pending()) + todo)
        decreases |rest|
      {
        ghost var n, before := Min(|todo|, 63), if c == 0 then [] else Pending();
        FirstPacket(todo, c);
        var packet := rest[..Min(|rest|, PACKET_SIZE)];
        NextPacket(old(sent), Parse(payload), sent, before, todo, n);
        if before != [] {
          RestSuffices(old(sent), Parse(payload), sent, before, todo);
        }
        assert (packet + stale)[..|packet|] == packet && (packet + stale)[1..|packet|] == packet[1..];
        CounterWraps(c);
        Ep3Out(packet + stale, |packet|);
        todo, c, rest := todo[n..], c + 1, rest[|packet|..];
      }
      FramedFront(todo, c);
      ghost var left := if c == 0 then [] else Pending();
      assert left + todo == left;
      ParseUnfinished(left);
      AllTaken(old(sent), Parse(payload), sent, left);
    }
  }

  /** Frames of at most 8 data bytes. */
  ghost predicate Classic(ws: seq<seq<byte>>) {
    forall i :: 0 <= i < |ws| ==> |ws[i]| <= HEAD_SIZE + 8
  }

  /** What joined the queue before the first `n` packets. */
  function Arrived(arrivals: nat -> seq<seq<byte>>, n: nat): seq<seq<byte>> {
    if n == 0 then [] else Arrived(arrivals, n - 1) + arrivals(n - 1)
  }

  /** The first `n` packets can each be filled from what had joined the queue by then. */
  ghost predicate Supplied(start: seq<seq<byte>>, arrivals: nat -> seq<seq<byte>>, n: nat) {
    forall k :: 1 <= k <= n ==> |Flatten(start + Arrived(arrivals, k))| >= 63 * k
  }

  /** A frame starts within the first 255 packets and ends beyond the 256th. */
  ghost predicate Straddles(ws: seq<seq<byte>>) {
    exists j :: 0 <= j < |ws| && StraddlesAt(ws, j)
  }

  ghost predicate StraddlesAt(ws: seq<seq<byte>>, j: nat)
    requires j < |ws|
  {
    |Flatten(ws[..j])| < 63 * 255 && |Flatten(ws[..j + 1])| > 63 * 256
  }

  /** What makes a transfer end inside a frame: it is not ended earlier by a short packet, and a frame is too
      long for what the forced end still sends. */
  ghost predicate Cuts(start: seq<seq<byte>>, arrivals: nat -> seq<seq<byte>>) {
    Supplied(start, arrivals, 255) && Straddles(start + Arrived(arrivals, 256))
  }

  lemma {:induction false} PrefixShorter(ws: seq<seq<byte>>, k: nat)
    requires k <= |ws|
    ensures |Flatten(ws[..k])| <= |Flatten(ws)|
  {
    assert ws == ws[..k] + ws[k..];
    FlattenConcat(ws[..k], ws[k..]);
  }

  lemma PrefixMonotone(ws: seq<seq<byte>>, j: nat, k: nat)
    requires j <= k <= |ws|
    ensures |Flatten(ws[..j])| <= |Flatten(ws[..k])|
  {
    PrefixShorter(ws[..k], j);
    assert ws[..k][..j] == ws[..j];
  }

  lemma SuppliedNext(start: seq<seq<byte>>, arrivals: nat -> seq<seq<byte>>, n: nat, popped: seq<seq<byte>>,
                     queue: seq<seq<byte>>)
    requires Supplied(start, arrivals, n) && Conserved(start, arrivals, n + 1, popped, queue)
    requires |Flatten(popped)| >= 63 * (n + 1)
    ensures Supplied(start, arrivals, n + 1)
  {
    hide Flatten;
    FlattenConcat(popped, queue);
  }

  lemma NothingSupplied(start: seq<seq<byte>>, arrivals: nat -> seq<seq<byte>>)
    ensures Supplied(start, arrivals, 0)
  {
  }

  /** A transfer ended by a short packet has run out of supply. */
  lemma RanOut(start: seq<seq<byte>>, arrivals: nat -> seq<seq<byte>>, n: nat, popped: seq<seq<byte>>)
    requires 1 <= n <= 255 && Conserved(start, arrivals, n, popped, []) && |Flatten(popped)| < 63 * n
    ensures !Supplied(start, arrivals, 255)
  {
    hide Flatten;
    NothingLeft(popped, []);
  }

  /** What has been popped before the forced end decides whether the supply straddles it. */
  lemma StraddlesIff(popped: seq<seq<byte>>, queue: seq<seq<byte>>, late: nat)
    requires |Flatten(popped)| == 63 * 255 + late
    requires late > 0 ==> popped != [] && late < |popped[|popped| - 1]|
    ensures late > 63 <==> Straddles(popped + queue)
  {
    hide Flatten;
    var ws, n := popped + queue, |popped|;
    assert ws[..n] == popped;
    if late > 63 {
      assert popped[..n - 1] + [popped[n - 1]] == popped && ws[..n - 1] == popped[..n - 1];
      FlattenSnoc(popped[..n - 1], popped[n - 1]);
      assert StraddlesAt(ws, n - 1);
    } else {
      forall j | 0 <= j < |ws| ensures !StraddlesAt(ws, j) {
        if j < n {
          PrefixMonotone(ws, j + 1, n);
        } else {
          PrefixMonotone(ws, n, j);
        }
      }
    }
  }

  lemma CutsIff(start: seq<seq<byte>>, arrivals: nat -> seq<seq<byte>>, n: nat, popped: seq<seq<byte>>,
                queue: seq<seq<byte>>, payload: seq<byte>, pending: seq<byte>, late: nat)
    requires 1 <= n <= 256 && Conserved(start, arrivals, n, popped, queue) && Flatten(popped) == payload + pending
    requires n < 256 ==> queue == [] && |payload| < 63 * n && pending == [] && late == 0
    requires n == 256 ==> Supplied(start, arrivals, 255) && |Flatten(popped)| == 63 * 255 + late
    requires LastOf(popped, late)
    ensures n == 256 <==> Supplied(start, arrivals, 255)
    ensures late > 63 <==> Cuts(start, arrivals)
  {
    hide Flatten, Supplied, Straddles;
    if n < 256 {
      RanOut(start, arrivals, n, popped);
    } else {
      StraddlesIff(popped, queue, late);
    }
  }

  /** Without arrivals the queue alone decides. */
  lemma SilentCuts(queue: seq<seq<byte>>)
    ensures Cuts(queue, Silent) <==> Straddles(queue)
  {
    hide Flatten, Arrived;
    NothingArrives(256);
    NothingLeft(queue, []);
    if Straddles(queue) {
      var j :| 0 <= j < |queue| && StraddlesAt(queue, j);
      PrefixShorter(queue, j + 1);
      forall k | 1 <= k <= 255 ensures |Flatten(queue + Arrived(Silent, k))| >= 63 * k {
        NothingArrives(k);
      }
    }
  }

  /** Classic frames are never cut. */
  lemma ClassicFits(start: seq<seq<byte>>, arrivals: nat -> seq<seq<byte>>)
    requires Classic(start) && forall k :: Classic(arrivals(k))
    ensures !Cuts(start, arrivals)
  {
    hide Flatten, Arrived;
    var ws := start + Arrived(arrivals, 256);
    ClassicArrives(arrivals, 256);
    forall j | 0 <= j < |ws| ensures !StraddlesAt(ws, j) {
      assert ws[..j + 1] == ws[..j] + [ws[j]];
      FlattenSnoc(ws[..j], ws[j]);
    }
  }

  lemma {:induction false} ClassicArrives(arrivals: nat -> seq<seq<byte>>, n: nat)
    requires forall k :: Classic(arrivals(k))
    ensures Classic(Arrived(arrivals, n))
  {
    if n > 0 {
      ClassicArrives(arrivals, n - 1);
      assert Classic(arrivals(n - 1));
    }
  }

  function Silent(k: nat): seq<seq<byte>> { [] }

  lemma {:induction false} NothingArrives(n: nat)
    ensures Arrived(Silent, n) == [] && forall k :: AllWire(Silent(k))
  {
    if n > 0 {
      NothingArrives(n - 1);
    }
  }

  /** The payload sent so far, framed, is `t`; with the bytes still `pending` it is the popped frames. */
  ghost predicate Sent(t: seq<byte>, popped: seq<seq<byte>>, payload: seq<byte>, pending: seq<byte>) {
    Flatten(popped) == payload + pending && t == Framed(payload, 0)
  }

  lemma SentStep(t: seq<byte>, popped: seq<seq<byte>>, payload: seq<byte>, pending: seq<byte>,
                 packet: seq<byte>, more: seq<seq<byte>>, after: seq<byte>)
    requires Sent(t, popped, payload, pending) && |payload| % 63 == 0 && |payload| / 63 < 256
    requires 1 <= |packet| <= 64 && packet + after == [|payload| / 63] + pending + Flatten(more)
    ensures Sent(t + if |packet| == 1 then [] else packet, popped + more, payload + packet[1..], after)
  {
    hide Flatten, Framed;
    var c, chunk := |payload| / 63, packet[1..];
    assert packet == [c] + chunk by {
      assert packet[0] == (packet + after)[0];
    }
    assert pending + Flatten(more) == ([c] + pending + Flatten(more))[1..] == (packet + after)[1..] == chunk + after;
    FlattenConcat(popped, more);
    Assoc(payload, pending, Flatten(more));
    Assoc(payload, chunk, after);
    FramedAppend(payload, chunk, 0);
  }

  /** Frames are popped in order and none is lost. */
  ghost predicate Conserved(start: seq<seq<byte>>, arrivals: nat -> seq<seq<byte>>, n: nat, popped: seq<seq<byte>>,
                            queue: seq<seq<byte>>) {
    start + Arrived(arrivals, n) == popped + queue
  }

  lemma ConservedStep(start: seq<seq<byte>>, arrivals: nat -> seq<seq<byte>>, n: nat,
                      popped: seq<seq<byte>>, queue: seq<seq<byte>>, more: seq<seq<byte>>, rest: seq<seq<byte>>)
    requires Conserved(start, arrivals, n, popped, queue) && queue + arrivals(n) == more + rest
    ensures Conserved(start, arrivals, n + 1, popped + more, rest)
  {
    Assoc(start, Arrived(arrivals, n), arrivals(n));
    Assoc(popped, queue, arrivals(n));
    Assoc(popped, more, rest);
  }

  lemma NothingSent(queue: seq<seq<byte>>, arrivals: nat -> seq<seq<byte>>, pending: seq<byte>)
    requires pending == []
    ensures Sent([], [], [], pending) && Conserved(queue, arrivals, 0, [], queue)
  {
  }

  lemma SentLength(t: seq<byte>, popped: seq<seq<byte>>, payload: seq<byte>, pending: seq<byte>)
    requires Sent(t, popped, payload, pending)
    ensures |Flatten(popped)| == |payload| + |pending|
  {
  }

  lemma AllSent(t: seq<byte>, popped: seq<seq<byte>>, payload: seq<byte>, pending: seq<byte>,
                start: seq<seq<byte>>, arrivals: nat -> seq<seq<byte>>, n: nat, queue: seq<seq<byte>>)
    requires Sent(t, popped, payload, pending) && Conserved(start, arrivals, n, popped, queue)
    ensures payload == Unframed(t) && t == Framed(payload, 0) && payload + pending == Flatten(popped)
    ensures start + Arrived(arrivals, n) == popped + queue
  {
    UnframedFramed(payload, 0);
  }

  lemma NothingLeft<T>(a: seq<T>, b: seq<T>)
    requires b == []
    ensures a + b == a
  {
  }

  lemma Assoc<T>(a: seq<T>, b: seq<T>, c: seq<T>)
    ensures a + (b + c) == a + b + c
  {
  }

  lemma JoinWire(a: seq<seq<byte>>, b: seq<seq<byte>>)
    requires AllWire(a) && AllWire(b)
    ensures AllWire(a + b)
  {
  }

  /** Board to host. */
  class Ep1 {
    var ptr: nat
    var counter: nat
    var totalRxSize: nat
    const data: array<byte>
    /** can_rx_q: frames waiting for the host. */
    var queue: seq<seq<byte>>

    function Pending(): seq<byte>
      reads this, data
      requires ptr <= data.Length
    {
      data[..ptr]
    }

    ghost predicate Valid()
      reads this, data
    {
      data.Length == ASM_SIZE && counter < 256 && ptr < 69 && AllWire(queue)
    }

    constructor ()
      ensures Valid() && fresh(data) && AtStart() && queue == []
    {
      data := new byte[ASM_SIZE](_ => 0);
      ptr, counter, totalRxSize, queue := 0, 0, 0, [];
    }

    /** Nothing sent of the next transfer, no frame half sent. */
    predicate AtStart()
      reads this
    {
      ptr == 0 && counter == 0 && totalRxSize == 0
    }

    /** 63 bytes of a tail that is longer than that. */
    method SendPart(usbdata: array<byte>)
      requires data.Length == ASM_SIZE && 63 < ptr < 69 && usbdata.Length == PACKET_SIZE && usbdata != data
      modifies this`ptr, usbdata, data
      ensures ptr == old(ptr) - 63
      ensures usbdata[..64] == [old(usbdata[0])] + old(data[..63]) && Pending() == old(data[63..ptr])
    {
      assert usbdata[..1] == [usbdata[0]];
      Memcpy(usbdata, 1, data[..63]);
      ptr := ptr - 63;
      Memcpy(data, 0, data[63..63 + ptr]);
    }

    /** The tail of the frame the previous packet ended in. */
    method SendTail(usbdata: array<byte>) returns (pos: nat)
      requires Valid() && usbdata.Length == PACKET_SIZE && usbdata != data
      modifies this`ptr, usbdata, data
      ensures Valid() && 1 <= pos <= 64 && (ptr > 0 ==> pos == 64)
      ensures usbdata[..pos] + Pending() == [old(usbdata[0])] + old(Pending())
      ensures ptr == if old(ptr) <= 63 then 0 else old(ptr) - 63
      ensures pos == if old(ptr) <= 63 then 1 + old(ptr) else 64
    {
      hide AllWire;
      pos := 1;
      if ptr > 0 {
        if ptr <= 63 {
          ghost var head := usbdata[..1];
          assert head == [usbdata[0]];
          Memcpy(usbdata, pos, data[..ptr]);
          pos := pos + ptr;
          ptr := 0;
          NothingLeft(usbdata[..pos], Pending());
        } else {
          ghost var tail := Pending();
          assert tail[..63] == data[..63] && tail[63..] == data[63..ptr] && tail == tail[..63] + tail[63..];
          Assoc([usbdata[0]], tail[..63], tail[63..]);
          SendPart(usbdata);
          pos := pos + 63;
        }
      } else {
        assert usbdata[..1] == [usbdata[0]];
      }
    }

    /** One frame into the packet from `pos`; what does not fit stays in the buffer. */
    method PutFrame(usbdata: array<byte>, pos: nat, frame: seq<byte>) returns (after: nat)
      requires data.Length == ASM_SIZE && ptr == 0 && Wire(frame)
      requires usbdata.Length == PACKET_SIZE && usbdata != data && pos < 64
      modifies this`ptr, usbdata, data
      ensures pos < after <= 64 && ptr < |frame| && (ptr > 0 ==> after == 64)
      ensures usbdata[..after] + Pending() == old(usbdata[..pos]) + frame
    {
      hide PacketLen;
      var pcktLen := PacketLen(frame[0]);
      if pos + pcktLen <= 64 {
        Memcpy(usbdata, pos, frame);
        after := pos + pcktLen;
        NothingLeft(usbdata[..after], Pending());
      } else {
        var room := 64 - pos;
        assert frame == frame[..room] + frame[room..];
        Assoc(usbdata[..pos], frame[..room], frame[room..]);
        Memcpy(usbdata, pos, frame[..room]);
        ptr := pcktLen - room;
        Memcpy(data, 0, frame[room..]);
        after := 64;
        assert Pending() == frame[room..];
      }
    }

    /** Pops frames into the packet until it is full or the queue is empty. */
    method SendQueued(usbdata: array<byte>, start: nat) returns (pos: nat, ghost popped: seq<seq<byte>>)
      requires Valid() && usbdata.Length == PACKET_SIZE && usbdata != data && 1 <= start <= 64
      requires ptr > 0 ==> start == 64
      modifies this`ptr, this`queue, usbdata, data
      ensures Valid() && start <= pos <= 64 && (pos < 64 ==> queue == [] && ptr == 0)
      ensures old(queue) == popped + queue
      ensures usbdata[..pos] + Pending() == old(usbdata[..start] + Pending()) + Flatten(popped)
      ensures ptr > 0 && old(ptr) == 0 ==> popped != [] && ptr < |popped[|popped| - 1]|
      ensures start == 64 ==> popped == [] && ptr == old(ptr)
    {
      hide Flatten, PacketLen;
      pos, popped := start, [];
      FlattenNone();
      while pos < 64 && queue != []
        invariant Valid() && start <= pos <= 64 && (ptr > 0 ==> pos == 64)
        invariant old(queue) == popped + queue
        invariant usbdata[..pos] + Pending() == old(usbdata[..start] + Pending()) + Flatten(popped)
        invariant ptr > 0 && old(ptr) == 0 ==> popped != [] && ptr < |popped[|popped| - 1]|
        invariant start == 64 ==> popped == [] && ptr == old(ptr)
        decreases |queue|
      {
        var canPacket := queue[0];
        queue := queue[1..];
        FlattenSnoc(popped, canPacket);
        assert usbdata[..pos] + Pending() == usbdata[..pos];
        popped := popped + [canPacket];
        pos := PutFrame(usbdata, pos, canPacket);
      }
    }

    /** usb_cb_ep1_in for a 64-byte endpoint: the packet is usbdata[..pos]. */
    method Ep1In(usbdata: array<byte>) returns (pos: nat, ghost popped: seq<seq<byte>>)
      requires Valid() && usbdata.Length == PACKET_SIZE && usbdata != data
      modifies this, usbdata, data
      ensures Valid() && pos <= 64 && pos != 1
      ensures old(queue) == popped + queue
      ensures usbdata[..if pos == 0 then 1 else pos] + Pending() == [old(counter)] + old(Pending()) + Flatten(popped)
      ensures old(totalRxSize) > MAX_EP1_CHUNK ==>
          popped == [] && counter == 0 && totalRxSize == 0 && ptr == if old(ptr) <= 63 then 0 else old(ptr) - 63
      ensures old(totalRxSize) > MAX_EP1_CHUNK ==> (pos < 64 <==> old(ptr) < 63)
      ensures pos == 64 && old(totalRxSize) <= MAX_EP1_CHUNK ==>
          counter == (old(counter) + 1) % 256 && totalRxSize == old(totalRxSize) + 64
      ensures pos < 64 ==> AtStart() && (old(totalRxSize) <= MAX_EP1_CHUNK ==> queue == [])
      ensures ptr > 0 && old(ptr) <= 63 ==> popped != [] && ptr < |popped[|popped| - 1]|
      ensures old(ptr) > 63 ==> popped == [] && pos == 64 && ptr == old(ptr) - 63
    {
      hide Flatten, Wire, PacketLen;
      FlattenNone();
      usbdata[0] := counter;
      pos := SendTail(usbdata);
      popped := [];
      if totalRxSize > MAX_EP1_CHUNK {
        totalRxSize, counter := 0, 0;
      } else {
        pos, popped := SendQueued(usbdata, pos);
        counter := (counter + 1) % 256;
        totalRxSize := totalRxSize + pos;
      }
      if pos != 64 {
        counter, totalRxSize := 0, 0;
      }
      if pos <= 1 {
        pos := 0;
      }
    }

    /** One bulk read by the host: packets until the first that is short, or until its buffer of 0x4000
        bytes is full. Before the k-th packet the frames arrivals(k) join the queue. The transfer ends on
        a frame boundary, ready for the next, unless the queue and the arrivals make it cut a frame. */
    method ReadTransfer(arrivals: nat -> seq<seq<byte>>)
      returns (t: seq<byte>, packets: nat, ghost popped: seq<seq<byte>>)
      requires Valid() && AtStart()
      requires forall k :: AllWire(arrivals(k))
      modifies this, data
      ensures Valid() && counter == 0 && totalRxSize == 0 && packets <= 256 && |t| <= 0x4000
      ensures old(queue) + Arrived(arrivals, packets) == popped + queue
      ensures t == Framed(Unframed(t), 0) && Unframed(t) + Pending() == Flatten(popped)
      ensures |Unframed(t)| <= 63 * packets && (packets < 256 ==> queue == [])
      ensures packets == 256 <==> Supplied(old(queue), arrivals, 255)
      ensures AtStart() <==> !Cuts(old(queue), arrivals)
      ensures ptr > 0 ==> |Unframed(t)| == 63 * 256 && popped != [] && ptr < |popped[|popped| - 1]|
    {
      hide Flatten, PacketLen, Framed, Unframed, AllWire, Sent, Conserved, Arrived, LastOf, Supplied, Cuts;
      NothingLast([]);
      NothingSupplied(queue, arrivals);
      var usbdata := new byte[PACKET_SIZE];
      t, packets, popped := [], 0, [];
      ghost var payload: seq<byte>, late: nat := [], 0;
      NothingSent(queue, arrivals, Pending());
      var pos := 64;
      while pos == 64 && packets < 256
        invariant Valid() && packets <= 256 && late < 69
        invariant Conserved(old(queue), arrivals, packets, popped, queue)
        invariant Sent(t, popped, payload, Pending())
        invariant |payload| <= 63 * packets && |t| <= 64 * packets
        invariant if pos == 64 && packets < 256
                  then totalRxSize == 64 * packets && counter == packets && |payload| == 63 * packets && late == 0
                  else counter == 0 && totalRxSize == 0 && ptr == (if late <= 63 then 0 else late - 63)
        invariant pos == 64 && packets < 256 ==> LastOf(popped, ptr)
        invariant LastOf(popped, late) && (packets < 256 ==> late == 0 && (pos < 64 ==> queue == []))
        invariant packets == 256 ==> |Flatten(popped)| == 63 * 255 + late && (late > 63 ==> |payload| == 63 * 256)
        invariant packets == 0 ==> pos == 64
        invariant 0 < packets < 256 && pos < 64 ==> |payload| < 63 * packets
        invariant pos == 64 || packets == 256 ==> Supplied(old(queue), arrivals, if packets < 256 then packets else 255)
        decreases pos == 64, 256 - packets
      {
        var news := arrivals(packets);
        JoinWire(queue, news);
        ghost var waiting := queue;
        queue := queue + news;
        ghost var before, more := Pending(), [];
        SentLength(t, popped, payload, before);
        pos, more := Ep1In(usbdata);
        ghost var packet := usbdata[..if pos == 0 then 1 else pos];
        SentStep(t, popped, payload, before, packet, more, Pending());
        ConservedStep(old(queue), arrivals, packets, popped, waiting, more, queue);
        LastStep(popped, more, |before|, ptr);
        if packets == 255 {
          late := |before|;
          NothingLeft(popped, more);
        } else {
          NothingLast(popped + more);
          if pos == 64 {
            FlattenConcat(popped, more);
            SuppliedNext(old(queue), arrivals, packets, popped + more, queue);
          }
        }
        t := t + if pos == 0 then [] else usbdata[..pos];
        popped, payload, packets := popped + more, payload + packet[1..], packets + 1;
      }
      AllSent(t, popped, payload, Pending(), old(queue), arrivals, packets, queue);
      CutsIff(old(queue), arrivals, packets, popped, queue, payload, Pending(), late);
      if late > 0 {
        LastIs(popped, late);
      }
    }
  }

  /** `n` bytes are left of the last frame popped, if any are left. */
  ghost predicate LastOf(popped: seq<seq<byte>>, n: nat) {
    n > 0 ==> popped != [] && n < |popped[|popped| - 1]|
  }

  lemma NothingLast(popped: seq<seq<byte>>)
    ensures LastOf(popped, 0)
  {
  }

  lemma LastIs(popped: seq<seq<byte>>, n: nat)
    requires LastOf(popped, n) && n > 0
    ensures popped != [] && n < |popped[|popped| - 1]|
  {
  }

  lemma LastStep(popped: seq<seq<byte>>, more: seq<seq<byte>>, before: nat, after: nat)
    requires LastOf(popped, before)
    requires after > 0 && before <= 63 ==> more != [] && after < |more[|more| - 1]|
    requires before > 63 ==> more == [] && after == before - 63
    ensures LastOf(popped + more, after)
  {
    if before > 63 {
      NothingLeft(popped, more);
    }
  }

  // ---- A transfer whose forced end cuts a frame

  /** A frame with this length code, its other bytes zero. */
  function Blank(dlc: nat): (w: seq<byte>)
    requires dlc < 16
    ensures Wire(w) && |w| == HEAD_SIZE + DlcToLen(dlc)
  {
    [dlc * 16] + seq(HEAD_SIZE + DlcToLen(dlc) - 1, _ => 0)
  }

  function Copies(w: seq<byte>, n: nat): (ws: seq<seq<byte>>)
    ensures |ws| == n && forall i :: 0 <= i < n ==> ws[i] == w
  {
    if n == 0 then [] else Copies(w, n - 1) + [w]
  }

  lemma {:induction false} CopiesLength(w: seq<byte>, n: nat)
    ensures |Flatten(Copies(w, n))| == n * |w|
  {
    if n > 0 {
      CopiesLength(w, n - 1);
      FlattenSnoc(Copies(w, n - 1), w);
    }
  }

  /** 232 frames of 69 bytes, one of 17 and three of 13 fill 255 packets but for one byte; a last frame of
      69 bytes then leaves 68. */
  function LateFront(): seq<seq<byte>> { Copies(Blank(15), 232) + [Blank(9)] + Copies(Blank(8), 3) }

  function LateQueue(): seq<seq<byte>> { LateFront() + [Blank(15)] }

  lemma LateLength()
    ensures |LateFront()| == 236 && AllWire(LateQueue())
    ensures |Flatten(LateFront())| == 63 * 255 - 1 && |Flatten(LateQueue())| == 63 * 255 + 68
  {
    hide Flatten, Copies, Blank, PacketLen;
    CopiesLength(Blank(15), 232);
    CopiesLength(Blank(8), 3);
    FlattenSnoc(Copies(Blank(15), 232), Blank(9));
    FlattenConcat(Copies(Blank(15), 232) + [Blank(9)], Copies(Blank(8), 3));
    FlattenSnoc(LateFront(), Blank(15));
  }

  /** With this queue the host's buffer is full after 256 packets, with five bytes of the last frame still
      on the board: the data it holds ends inside a frame, and the rest comes behind a counter of 0. */
  method LateRun() returns (board: Ep1, t: seq<byte>)
    ensures fresh(board) && fresh(board.data) && board.Valid() && !board.AtStart()
    ensures |t| == 0x4000 && CountersRight(t, 0) && Parse(Unframed(t)).rest != []
    ensures board.ptr == 5 && board.counter == 0 && board.queue == []
  {
    hide Flatten, Framed, Unframed, Parse, CountersRight, LateQueue, LateFront, Arrived, PacketLen, Cuts;
    board := new Ep1();
    LateLength();
    board.queue := LateQueue();
    LateCuts();
    ghost var popped;
    var packets := 0;
    NothingArrives(packets);
    t, packets, popped := board.ReadTransfer(Silent);
    NothingArrives(packets);
    NothingLeft(LateQueue(), []);
    LatePopped(popped, board.queue, Unframed(t), board.Pending());
    UnframedFramed(Unframed(t), 0);
    FramedLength(Unframed(t), 0);
    CutFrame(popped, Unframed(t), board.Pending());
  }

  lemma LateCuts()
    ensures Cuts(LateQueue(), Silent)
  {
    hide Flatten, LateFront;
    LateLength();
    LateQueueFront();
    var q := LateQueue();
    assert q[..237] == q;
    assert StraddlesAt(q, 236);
    SilentCuts(q);
  }

  /** All of the queue is popped. */
  lemma LatePopped(popped: seq<seq<byte>>, queue: seq<seq<byte>>, payload: seq<byte>, pending: seq<byte>)
    requires LateQueue() == popped + queue && payload + pending == Flatten(popped)
    requires |payload| == 63 * 256 && pending != []
    ensures popped == LateQueue() && queue == [] && |pending| == 5 && AllWire(popped)
  {
    hide Flatten, PacketLen, LateFront;
    LateLength();
    LateQueueFront();
    var q, n := LateQueue(), |popped|;
    assert popped == q[..n];
    if n <= 236 {
      assert q[..n] == LateFront()[..n];
      PrefixShorter(LateFront(), n);
    } else {
      assert n == 237 && popped == q;
    }
  }

  lemma LateQueueFront()
    ensures |LateQueue()| == 237 && LateQueue()[..236] == LateFront()
  {
    LateLength();
  }

  /** Sent bytes that stop inside the last frame popped parse to the frames before it and a rest. */
  lemma CutFrame(popped: seq<seq<byte>>, payload: seq<byte>, pending: seq<byte>)
    requires AllWire(popped) && popped != [] && payload + pending == Flatten(popped)
    requires 0 < |pending| < |popped[|popped| - 1]|
    ensures Parse(payload).frames == popped[..|popped| - 1] && Parse(payload).rest != []
  {
    hide Flatten, Parse, PacketLen;
    var init, last := popped[..|popped| - 1], popped[|popped| - 1];
    assert popped == init + [last] && Wire(last);
    FlattenSnoc(init, last);
    var part := last[..|last| - |pending|];
    assert payload == Flatten(popped)[..|payload|] == Flatten(init) + part;
    assert |part| < PacketLen(part[0]);
    ParseUnfinished(part);
    ParseFlatten(init, part);
    NothingLeft(init, []);
  }
}
