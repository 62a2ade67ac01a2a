// ISO 15765-2 transport: the segmenter and reassembler of panda/python/uds.py (IsoTpMessage, frames of
// eight bytes) and those of panda/python/isotp.py, with and without a sub-address.

module IsoTp {
  import opened Words

  const FRAME_SIZE: nat := 8

  function Zeros(n: nat): (s: seq<byte>)
    ensures |s| == n && forall i :: 0 <= i < n ==> s[i] == 0
  {
    seq(n, _ => 0)
  }

  /** bytes.ljust. */
  function Ljust(s: seq<byte>, n: nat): seq<byte> {
    if |s| < n then s + Zeros(n - |s|) else s
  }

  /** s[i:i + n] as Python slices it. */
  function Slice(s: seq<byte>, i: nat, n: nat): (r: seq<byte>)
    ensures |r| <= n
  {
    s[Min(i, |s|)..Min(i + n, |s|)]
  }

  // ---- The frames of a message; `pre` is the sub-address byte, if any

  predicate Prefix(pre: seq<byte>) { |pre| <= 1 }

  /** Payload bytes of a consecutive frame; a first frame has one fewer. */
  function Room(pre: seq<byte>): (n: nat)
    requires Prefix(pre)
    ensures n == 6 || n == 7
  {
    7 - |pre|
  }

  function Single(pre: seq<byte>, dat: seq<byte>): seq<byte>
    requires Prefix(pre) && |dat| <= Room(pre)
  {
    Ljust(pre + [|dat|] + dat, FRAME_SIZE)
  }

  function First(pre: seq<byte>, dat: seq<byte>): seq<byte>
    requires Prefix(pre) && Room(pre) < |dat| < 0x1000
  {
    pre + [0x10 + |dat| / 256, |dat| % 256] + dat[..Room(pre) - 1]
  }

  /** Where the k-th consecutive frame starts in the message, k counting from 1. */
  function Offset(pre: seq<byte>, k: nat): nat
    requires Prefix(pre) && k >= 1
  {
    Room(pre) - 1 + (k - 1) * Room(pre)
  }

  function Consecutive(pre: seq<byte>, dat: seq<byte>, k: nat): (f: seq<byte>)
    requires Prefix(pre) && k >= 1
    ensures |f| == FRAME_SIZE
  {
    Ljust(pre + [0x20 + k % 16] + Slice(dat, Offset(pre, k), Room(pre)), FRAME_SIZE)
  }

  /** The consecutive frames 1 to k. */
  function Consecutives(pre: seq<byte>, dat: seq<byte>, k: nat): (fs: seq<seq<byte>>)
    requires Prefix(pre)
    ensures |fs| == k && forall j :: 0 <= j < k ==> fs[j] == Consecutive(pre, dat, j + 1)
  {
    if k == 0 then [] else Consecutives(pre, dat, k - 1) + [Consecutive(pre, dat, k)]
  }

  /** All frames of a message. */
  function Frames(pre: seq<byte>, dat: seq<byte>): seq<seq<byte>>
    requires Prefix(pre) && |dat| < 0x1000
  {
    if |dat| <= Room(pre) then [Single(pre, dat)]
    else [First(pre, dat)] + Consecutives(pre, dat, |dat| / Room(pre))
  }

  /** A message of three bytes, and one of twenty, on the wire. */
  lemma ThreeBytes(d: seq<byte>, a: byte)
    requires |d| == 3
    ensures Frames([], d) == [[0x03, d[0], d[1], d[2], 0, 0, 0, 0]]
    ensures Frames([a], d) == [[a, 0x03, d[0], d[1], d[2], 0, 0, 0]]
  {
    assert Single([], d) == [0x03, d[0], d[1], d[2], 0, 0, 0, 0];
    assert Single([a], d) == [a, 0x03, d[0], d[1], d[2], 0, 0, 0];
  }

  lemma TwentyBytes(d: seq<byte>)
    requires |d| == 20
    ensures Frames([], d) == [[0x10, 0x14] + d[..6], [0x21] + d[6..13], [0x22] + d[13..]]
  {
    hide Consecutives;
    ConsecutivesStep([], d, 0);
    ConsecutivesStep([], d, 1);
    assert First([], d) == [0x10, 0x14] + d[..6];
    assert Consecutive([], d, 1) == [0x21] + d[6..13];
    assert Consecutive([], d, 2) == [0x22] + d[13..];
  }

  lemma TwentyBytesAddressed(d: seq<byte>, a: byte)
    requires |d| == 20
    ensures Frames([a], d) == [[a, 0x10, 0x14] + d[..5], [a, 0x21] + d[5..11], [a, 0x22] + d[11..17],
                               [a, 0x23] + d[17..] + [0, 0, 0]]
  {
    hide Consecutives;
    ConsecutivesStep([a], d, 0);
    ConsecutivesStep([a], d, 1);
    ConsecutivesStep([a], d, 2);
    assert First([a], d) == [a, 0x10, 0x14] + d[..5];
    assert Consecutive([a], d, 1) == [a, 0x21] + d[5..11];
    assert Consecutive([a], d, 2) == [a, 0x22] + d[11..17];
    assert Consecutive([a], d, 3) == [a, 0x23] + d[17..] + [0, 0, 0] by {
      assert Slice(d, 17, 6) == d[17..];
      assert [a] + [0x23] + d[17..] + Zeros(3) == [a, 0x23] + d[17..] + [0, 0, 0];
    }
  }

  lemma ConsecutivesStep(pre: seq<byte>, dat: seq<byte>, k: nat)
    requires Prefix(pre)
    ensures Consecutives(pre, dat, 0) == []
    ensures Consecutives(pre, dat, k + 1) == Consecutives(pre, dat, k) + [Consecutive(pre, dat, k + 1)]
  {
  }

  /** The payloads of the consecutive frames 1 to k. */
  function Payloads(pre: seq<byte>, dat: seq<byte>, k: nat): seq<byte>
    requires Prefix(pre)
  {
    if k == 0 then [] else Payloads(pre, dat, k - 1) + Consecutive(pre, dat, k)[|pre| + 1..]
  }

  /** What the first frame and k consecutive ones carry of the message. */
  function Carried(pre: seq<byte>, dat: seq<byte>, k: nat): (n: nat)
    requires Prefix(pre)
    ensures n <= |dat|
  {
    Min(|dat|, Room(pre) - 1 + k * Room(pre))
  }

  /** The first bytes and the payloads, padding included, begin with the message. */
  lemma {:induction false} PayloadsCarry(pre: seq<byte>, dat: seq<byte>, k: nat)
    requires Prefix(pre) && |dat| > Room(pre)
    ensures var all := dat[..Room(pre) - 1] + Payloads(pre, dat, k);
            && |all| == Room(pre) - 1 + k * Room(pre)
            && all[..Carried(pre, dat, k)] == dat[..Carried(pre, dat, k)]
  {
    if k > 0 {
      hide Consecutive, Slice;
      PayloadsCarry(pre, dat, k - 1);
      var before, part := dat[..Room(pre) - 1] + Payloads(pre, dat, k - 1), Consecutive(pre, dat, k)[|pre| + 1..];
      assert dat[..Room(pre) - 1] + Payloads(pre, dat, k) == before + part;
      ConsecutivePart(pre, dat, k);
      PartFollows(dat, before, Offset(pre, k), part, Room(pre));
    }
  }

  lemma ConsecutivePart(pre: seq<byte>, dat: seq<byte>, k: nat)
    requires Prefix(pre) && k >= 1
    ensures var part, s := Consecutive(pre, dat, k)[|pre| + 1..], Slice(dat, Offset(pre, k), Room(pre));
            |part| == Room(pre) && s <= part
  {
    var s := Slice(dat, Offset(pre, k), Room(pre));
    assert (pre + [0x20 + k % 16] + s)[|pre| + 1..] == s;
  }

  lemma PartFollows(dat: seq<byte>, before: seq<byte>, at: nat, part: seq<byte>, n: nat)
    requires |before| == at && before[..Min(|dat|, at)] == dat[..Min(|dat|, at)]
    requires |part| == n && Slice(dat, at, n) <= part
    ensures (before + part)[..Min(|dat|, at + n)] == dat[..Min(|dat|, at + n)]
  {
    if at < |dat| {
      assert dat[..Min(|dat|, at + n)] == dat[..at] + Slice(dat, at, n);
      assert (before + part)[..Min(|dat|, at + n)] == before + part[..Min(|dat|, at + n) - at];
    } else {
      assert (before + part)[..|dat|] == before[..|dat|];
    }
  }

  /** len / n consecutive frames of n bytes carry all of it, and one fewer do not. */
  lemma EnoughFrames(pre: seq<byte>, dat: seq<byte>, k: nat)
    requires Prefix(pre) && |dat| >= Room(pre)
    ensures k >= |dat| / Room(pre) <==> Room(pre) - 1 + k * Room(pre) >= |dat|
  {
    var n := Room(pre);
    if n == 6 {
      assert k >= |dat| / 6 <==> 5 + k * 6 >= |dat|;
    } else {
      assert k >= |dat| / 7 <==> 6 + k * 7 >= |dat|;
    }
  }

  // ---- uds.py

  datatype Outcome = Done | AssertionError | IndexError | AttributeError

  // ---- Reception in uds.py

  const CONTINUE_FRAME: seq<byte> := [0x30, 0, 0, 0, 0, 0, 0, 0]

  /** NoReception: nothing has set the attributes of a reception yet. */
  datatype Rx = NoReception | Reception(dat: seq<byte>, len: nat, idx: nat, complete: bool)

  /** s[1:end] as Python slices it, a negative end counting from the back. */
  function SliceTo(s: seq<byte>, end: int): seq<byte> {
    var e := if end < 0 then |s| + end else Min(end, |s|);
    if e <= 1 then [] else s[1..e]
  }

  /** The high nibble of the first byte. */
  function Kind(f: seq<byte>): Option<nat> {
    if f == [] then None else Some(f[0] as int / 16)
  }

  /** The single, first and consecutive branches of _isotp_rx_next. */
  function RxStep(rx: Rx, f: seq<byte>): (Rx, Outcome)
    requires f != [] && f[0] as int / 16 < 3
  {
    var low := f[0] as int % 16;
    if f[0] as int / 16 == 0 then (Reception(Slice(f, 1, low), low, 0, true), Done)
    else if f[0] as int / 16 == 1 then
      if |f| < 2 then (rx, IndexError) else (Reception(f[2..], low * 256 + f[1] as int, 0, false), Done)
    else if rx.NoReception? then (rx, AttributeError)
    else if rx.complete then (rx, AssertionError)
    else if (rx.idx + 1) % 16 != low then (rx.(idx := rx.idx + 1), AssertionError)
    else
      var dat := rx.dat + SliceTo(f, 1 + rx.len - |rx.dat|);
      (Reception(dat, rx.len, rx.idx + 1, rx.len == |dat|), Done)
  }

  /** The receiver after the first frame and k consecutive ones. */
  function Halfway(dat: seq<byte>, k: nat): Rx
    requires |dat| > 7
  {
    Reception(dat[..Carried([], dat, k)], |dat|, k, 6 + 7 * k >= |dat|)
  }

  lemma SingleReceived(rx: Rx, dat: seq<byte>)
    requires |dat| <= 7
    ensures var f := Single([], dat); Kind(f) == Some(0) && RxStep(rx, f) == (Reception(dat, |dat|, 0, true), Done)
  {
    var f := Single([], dat);
    assert f[0] == |dat| && Slice(f, 1, |dat|) == dat;
  }

  lemma FirstReceived(rx: Rx, dat: seq<byte>)
    requires 7 < |dat| < 0x1000
    ensures var f := First([], dat); Kind(f) == Some(1) && RxStep(rx, f) == (Halfway(dat, 0), Done)
  {
    var f := First([], dat);
    assert f[0] == 0x10 + |dat| / 256 && f[1] == |dat| % 256 && f[2..] == dat[..6];
  }

  lemma ConsecutiveShape(dat: seq<byte>, k: nat)
    requires k >= 1
    ensures var f, part := Consecutive([], dat, k), Slice(dat, 6 + 7 * (k - 1), 7);
            f[0] == 0x20 + k % 16 && f[1..1 + |part|] == part
  {
    var part := Slice(dat, Offset([], k), 7);
    assert [] + [0x20 + k % 16] + part == [0x20 + k % 16] + part;
  }

  lemma ConsecutiveReceived(dat: seq<byte>, k: nat)
    requires 7 < |dat| < 0x1000 && 6 + 7 * k < |dat|
    ensures var f := Consecutive([], dat, k + 1);
            Kind(f) == Some(2) && RxStep(Halfway(dat, k), f) == (Halfway(dat, k + 1), Done)
  {
    hide Consecutive;
    var f := Consecutive([], dat, k + 1);
    var at := 6 + 7 * k;
    var part := Slice(dat, at, 7);
    ConsecutiveShape(dat, k + 1);
    assert SliceTo(f, 1 + |dat| - at) == part;
    assert dat[..at] + part == dat[..Carried([], dat, k + 1)];
  }

  /** How a flow-control frame is taken; `txDone` is None before anything was sent. */
  function Continue(txDone: Option<bool>, rxData: seq<byte>): Outcome
    requires |rxData| > 0
  {
    if txDone.None? then AttributeError
    else if txDone.value || !(rxData[0] == 0x30 || rxData[0] == 0x31) then AssertionError
    else if rxData[0] == 0x30 && |rxData| < 3 then IndexError
    else Done
  }

  class IsoTpMessage {
    var txDat: seq<byte>
    var txLen: nat
    var txIdx: nat
    var txDone: bool
    var rxDat: seq<byte>
    var rxLen: nat
    var rxIdx: nat
    var rxDone: bool
    /** Whether these attributes of a transmission, and of a reception, have been set. */
    var txKnown: bool
    var rxKnown: bool
    /** Everything handed to the CAN client, in order. */
    var sent: seq<seq<byte>>

    constructor ()
      ensures sent == [] && Tx() == None && Rx() == NoReception
    {
      txDat, txLen, txIdx, txDone, txKnown := [], 0, 0, false, false;
      rxDat, rxLen, rxIdx, rxDone, rxKnown := [], 0, 0, false, false;
      sent := [];
    }

    /** The frames sent since `base`: the whole message if single, else the first txIdx consecutive ones. */
    ghost predicate Sending(base: seq<seq<byte>>)
      reads this
    {
      && txKnown && txLen == |txDat| < 0x1000
      && (if txLen <= 7 then txDone && txIdx == 0 && sent == base + [Single([], txDat)]
          else
            && sent == base + [First([], txDat)] + Consecutives([], txDat, txIdx)
            && (txDone <==> 6 + 7 * txIdx >= txLen))
    }

    method Send(dat: seq<byte>)
      requires |dat| < 0x1000
      modifies this
      ensures Sending(old(sent)) && txDat == dat && txIdx == 0
      ensures Rx() == Reception([], 0, 0, false)
    {
      txDat, txLen, txIdx, txDone, txKnown := dat, |dat|, 0, false, true;
      rxDat, rxLen, rxIdx, rxDone, rxKnown := [], 0, 0, false, true;
      TxFirstFrame();
    }

    method TxFirstFrame()
      requires txKnown && txLen == |txDat| < 0x1000 && txIdx == 0 && !txDone
      modifies this`txDone, this`sent
      ensures Sending(old(sent))
    {
      var msg;
      assert [] + [txLen] == [txLen] || txLen >= FRAME_SIZE;
      if txLen < FRAME_SIZE {
        msg := Ljust([txLen] + txDat, FRAME_SIZE);
        txDone := true;
      } else {
        assert [] + [0x10 + txLen / 256, txLen % 256] == [(0x1000 + txLen) / 256, (0x1000 + txLen) % 256];
        msg := Ljust([(0x1000 + txLen) / 256, (0x1000 + txLen) % 256] + txDat[..6], FRAME_SIZE - 2);
        assert msg == First([], txDat);
      }
      sent := sent + [msg];
    }

    /** The consecutive frames that start before `end`. */
    method TxConsecutive(end: nat) returns (txMsgs: seq<seq<byte>>)
      requires end > 6 + 7 * txIdx
      modifies this`txIdx
      ensures 6 + 7 * txIdx - 7 < end <= 6 + 7 * txIdx && txIdx > old(txIdx)
      ensures Consecutives([], txDat, txIdx) == Consecutives([], txDat, old(txIdx)) + txMsgs
    {
      hide Ljust, Slice;
      var i := 6 + txIdx * 7;
      txMsgs := [];
      while i < end
        invariant txIdx >= old(txIdx) && i == 6 + 7 * txIdx && i < end + 7
        invariant Consecutives([], txDat, txIdx) == Consecutives([], txDat, old(txIdx)) + txMsgs
        decreases end - i
      {
        txIdx := txIdx + 1;
        var msg := Ljust([0x20 + txIdx % 16] + Slice(txDat, i, 7), FRAME_SIZE);
        assert [] + [0x20 + txIdx % 16] == [0x20 + txIdx % 16];
        txMsgs := txMsgs + [msg];
        i := i + 7;
      }
    }

    /** The flow-control branch of _isotp_rx_next. */
    method FlowControl(rxData: seq<byte>, ghost base: seq<seq<byte>>) returns (o: Outcome)
      requires (txKnown ==> Sending(base)) && |rxData| > 0 && rxData[0] as int / 16 == 3
      modifies this`txIdx, this`txDone, this`sent
      ensures txKnown ==> Sending(base)
      ensures o == Continue(old(Tx()), rxData)
      ensures o != Done || rxData[0] != 0x30 ==> txIdx == old(txIdx) && sent == old(sent) && txDone == old(txDone)
      ensures o == Done && rxData[0] == 0x30 ==>
          txIdx == if rxData[1] > 0 then old(txIdx) + rxData[1] as int else txLen / 7
    {
      hide Consecutives, Single, First;
      if !txKnown {
        return AttributeError;
      }
      if txDone || rxData[0] == 0x32 || !(rxData[0] == 0x30 || rxData[0] == 0x31) {
        return AssertionError;
      }
      if rxData[0] == 0x30 {
        if |rxData| < 3 {
          return IndexError;
        }
        var start, count := 6 + txIdx * 7, rxData[1] as int;
        var end := if count > 0 then start + count * 7 else txLen;
        var txMsgs := TxConsecutive(end);
        assert old(sent) + txMsgs == base + [First([], txDat)] + Consecutives([], txDat, txIdx);
        sent := sent + txMsgs;
        if end >= txLen {
          txDone := true;
        }
      }
      o := Done;
    }

    function Rx(): Rx
      reads this
    {
      if rxKnown then Reception(rxDat, rxLen, rxIdx, rxDone) else NoReception
    }

    function Tx(): Option<bool>
      reads this
    {
      if txKnown then Some(txDone) else None
    }

    /** _isotp_rx_next. */
    method RxNext(rxData: seq<byte>, ghost base: seq<seq<byte>>) returns (o: Outcome)
      requires Kind(rxData) == Some(3) && txKnown ==> Sending(base)
      modifies this
      ensures txDat == old(txDat) && txLen == old(txLen)
      ensures txKnown == old(txKnown)
      ensures Kind(rxData) != Some(3) ==> txDone == old(txDone) && txIdx == old(txIdx)
      ensures sent == old(sent) + (if Kind(rxData) == Some(1) && o == Done then [CONTINUE_FRAME] else [])
          || Kind(rxData) == Some(3)
      ensures match Kind(rxData) {
          case None => o == IndexError && Rx() == old(Rx())
          case Some(k) =>
            if k < 3 then (Rx(), o) == RxStep(old(Rx()), rxData)
            else if k == 3 then
              && (txKnown ==> Sending(base)) && Rx() == old(Rx()) && o == Continue(old(Tx()), rxData)
              && (o != Done || rxData[0] != 0x30 ==> sent == old(sent))
              && txIdx == (if o != Done || rxData[0] != 0x30 then old(txIdx)
                  else if rxData[1] > 0 then old(txIdx) + rxData[1] as int else txLen / 7)
            else o == Done && Rx() == old(Rx())
        }
    {
      hide Consecutives, Single, First, Slice, SliceTo;
      if rxData == [] {
        return IndexError;
      }
      var kind := rxData[0] as int / 16;
      o := Done;
      if kind == 0 {
        rxLen := rxData[0] as int;
        rxDat := Slice(rxData, 1, rxLen);
        rxIdx := 0;
        rxDone, rxKnown := true, true;
      } else if kind == 1 {
        if |rxData| < 2 {
          return IndexError;
        }
        rxLen := rxData[0] as int % 16 * 256 + rxData[1] as int;
        rxDat := rxData[2..];
        rxIdx := 0;
        rxDone, rxKnown := false, true;
        assert Ljust([0x30, 0, 0], FRAME_SIZE) == CONTINUE_FRAME;
        sent := sent + [Ljust([0x30, 0, 0], FRAME_SIZE)];
      } else if kind == 2 {
        if !rxKnown {
          return AttributeError;
        }
        if rxDone {
          return AssertionError;
        }
        rxIdx := rxIdx + 1;
        if rxIdx % 16 != rxData[0] as int % 16 {
          return AssertionError;
        }
        var rxSize := rxLen - |rxDat|;
        rxDat := rxDat + SliceTo(rxData, 1 + rxSize);
        if rxLen == |rxDat| {
          rxDone := true;
        }
      } else if kind == 3 {
        o := FlowControl(rxData, base);
      }
    }
  }

  // ---- Whole messages in uds.py

  function Continues(fcs: seq<seq<byte>>): nat {
    if fcs == [] then 0
    else Continues(fcs[..|fcs| - 1]) + if fcs[|fcs| - 1] != [] && fcs[|fcs| - 1][0] == 0x30 then 1 else 0
  }

  /** Continue frames with any block sizes, and waits, until the sender is done: the consecutive frames
      are numbered from 1, carry the message, and len / 7 = ceil((len - 6) / 7) continues suffice. */
  method RunFlowControl(m: IsoTpMessage, fcs: seq<seq<byte>>, ghost base: seq<seq<byte>>) returns (ok: bool)
    requires m.Sending(base) && m.txLen > 7 && m.txIdx == 0
    requires forall i :: 0 <= i < |fcs| ==> |fcs[i]| >= 3 && (fcs[i][0] == 0x30 || fcs[i][0] == 0x31)
    modifies m
    ensures ok && m.Sending(base) && m.txDat == old(m.txDat) && m.Rx() == old(m.Rx())
    ensures m.sent == base + [First([], m.txDat)] + Consecutives([], m.txDat, m.txIdx)
    ensures Continues(fcs) >= m.txLen / 7 ==> m.txDone
    ensures m.txDone ==> |m.txDat[..6] + Payloads([], m.txDat, m.txIdx)| >= m.txLen
    ensures m.txDone ==> (m.txDat[..6] + Payloads([], m.txDat, m.txIdx))[..m.txLen] == m.txDat
  {
    hide Consecutives, Single, First, Payloads, Continues;
    var i := 0;
    ok := true;
    assert fcs[..0] == [];
    ContinuesStep([]);
    while i < |fcs| && !m.txDone
      invariant 0 <= i <= |fcs| && ok && m.Sending(base) && m.txDat == old(m.txDat) && m.Rx() == old(m.Rx())
      invariant !m.txDone ==> Continues(fcs[..i]) <= m.txIdx
    {
      assert fcs[..i + 1][..i] == fcs[..i];
      ContinuesStep(fcs[..i + 1]);
      var o := m.RxNext(fcs[i], base);
      ok := ok && o == Done;
      i := i + 1;
    }
    assert fcs[..|fcs|] == fcs;
    EnoughFrames([], m.txDat, m.txIdx);
    PayloadsCarry([], m.txDat, m.txIdx);
  }

  lemma ContinuesStep(fcs: seq<seq<byte>>)
    ensures Continues([]) == 0
    ensures fcs != [] ==> Continues(fcs) <= Continues(fcs[..|fcs| - 1]) + 1
    ensures fcs != [] && |fcs[|fcs| - 1]| > 0 && fcs[|fcs| - 1][0] != 0x30 ==>
        Continues(fcs) == Continues(fcs[..|fcs| - 1])
  {
  }

  /** A receiver after the first frame: the consecutive ones complete the message, and no assertion fails. */
  method ReceiveRest(receiver: IsoTpMessage, frames: seq<seq<byte>>, dat: seq<byte>) returns (ok: bool)
    requires 7 < |dat| < 0x1000 && receiver.Rx() == Halfway(dat, 0) && frames == Consecutives([], dat, |dat| / 7)
    modifies receiver
    ensures ok && receiver.Rx() == Reception(dat, |dat|, |dat| / 7, true) && receiver.sent == old(receiver.sent)
  {
    hide Consecutives, Consecutive, RxStep, Halfway;
    HalfwayEnds(dat);
    ok := true;
    for j := 0 to |frames|
      invariant ok && receiver.Rx() == Halfway(dat, j) && receiver.sent == old(receiver.sent)
    {
      EnoughFrames([], dat, j);
      ConsecutiveReceived(dat, j);
      var o := receiver.RxNext(frames[j], []);
      ok := ok && o == Done;
    }
  }

  /** The reply to a first frame lets the sender send all the rest. */
  lemma ReplyContinues()
    ensures Kind(CONTINUE_FRAME) == Some(3) && Continue(Some(false), CONTINUE_FRAME) == Done
  {
  }

  /** A sender and a receiver: the receiver ends with the message and no assertion fails. */
  method Exchange(sender: IsoTpMessage, receiver: IsoTpMessage, dat: seq<byte>) returns (ok: bool)
    requires sender != receiver && |dat| < 0x1000
    modifies sender, receiver
    ensures ok && sender.txDone && receiver.rxDone && receiver.rxDat == dat
    ensures sender.sent == old(sender.sent) + Frames([], dat)
  {
    hide Consecutives, Single, First, Consecutive, RxStep, Halfway, Continue;
    ghost var base, rx0 := sender.sent, receiver.Rx();
    var mark := |sender.sent|;
    sender.Send(dat);
    if |dat| <= 7 {
      SingleReceived(rx0, dat);
      assert sender.sent[mark] == Single([], dat);
      var o := receiver.RxNext(sender.sent[mark], []);
      ok := o == Done;
    } else {
      FirstReceived(rx0, dat);
      SentAt(base, First([], dat), Consecutives([], dat, 0));
      assert sender.sent[mark] == First([], dat);
      var o := receiver.RxNext(sender.sent[mark], []);
      ok := o == Done;
      assert o == Done && receiver.Rx() == Halfway(dat, 0);
      EnoughFrames([], dat, 0);
      ReplyContinues();
      o := sender.RxNext(receiver.sent[|receiver.sent| - 1], base);
      ok := ok && o == Done;
      SentAt(base, First([], dat), Consecutives([], dat, |dat| / 7));
      EnoughFrames([], dat, |dat| / 7);
      var rest := ReceiveRest(receiver, sender.sent[mark + 1..], dat);
      ok := ok && rest;
    }
  }

  lemma SentAt(base: seq<seq<byte>>, first: seq<byte>, rest: seq<seq<byte>>)
    ensures var s := base + [first] + rest;
            s[|base|] == first && s == base + ([first] + rest)
            && forall j :: 0 <= j < |rest| ==> s[|base| + 1 + j] == rest[j]
  {
  }

  lemma HalfwayEnds(dat: seq<byte>)
    requires |dat| > 7
    ensures Halfway(dat, |dat| / 7) == Reception(dat, |dat|, |dat| / 7, true)
  {
  }

  /** The receiver over `count` consecutive frames after the k-th, and whether no assertion failed. */
  function ReceiveBlock(rx: Rx, dat: seq<byte>, k: nat, count: nat): (Rx, bool)
    decreases count
  {
    if count == 0 then (rx, true)
    else
      var (before, ok) := ReceiveBlock(rx, dat, k, count - 1);
      var f := Consecutive([], dat, k + count);
      if !ok || f[0] as int / 16 != 2 then (before, false)
      else
        var (after, o) := RxStep(before, f);
        (after, o == Done)
  }

  /** A block of consecutive frames is received if and only if it stays inside the message: a sender told
      to send a larger block emits empty frames past the end, on which the receiver asserts. */
  lemma {:induction false} BlockReceivedIff(dat: seq<byte>, k: nat, count: nat)
    requires 7 < |dat| < 0x1000 && k <= |dat| / 7
    ensures ReceiveBlock(Halfway(dat, k), dat, k, count).1 <==> k + count <= |dat| / 7
    ensures k + count <= |dat| / 7 ==> ReceiveBlock(Halfway(dat, k), dat, k, count).0 == Halfway(dat, k + count)
    decreases count
  {
    hide RxStep, Consecutive, Halfway;
    if count > 0 {
      BlockReceivedIff(dat, k, count - 1);
      var j := k + count - 1;
      if j < |dat| / 7 {
        ConsecutiveReceived(dat, j);
      } else if j == |dat| / 7 {
        SurplusRefused(dat);
      }
    }
  }

  lemma SurplusRefused(dat: seq<byte>)
    requires 7 < |dat| < 0x1000
    ensures var f := Consecutive([], dat, |dat| / 7 + 1);
            Kind(f) == Some(2) && RxStep(Halfway(dat, |dat| / 7), f).1 == AssertionError
  {
    hide Slice, Ljust;
    EnoughFrames([], dat, |dat| / 7);
    ConsecutiveShape(dat, |dat| / 7 + 1);
  }

  /** The receiver notices that j frames are missing, with the next frame, unless their number is a multiple
      of sixteen. */
  lemma MissedFramesIff(dat: seq<byte>, k: nat, j: nat)
    requires 7 < |dat| < 0x1000 && k < |dat| / 7
    ensures var f := Consecutive([], dat, k + 1 + j);
            Kind(f) == Some(2) && RxStep(Halfway(dat, k), f).1 == if j % 16 == 0 then Done else AssertionError
  {
    hide Slice, Ljust, Consecutive;
    EnoughFrames([], dat, k);
    ConsecutiveShape(dat, k + 1 + j);
    SameNumber(k + 1, j);
  }

  lemma SameNumber(n: nat, j: nat)
    ensures (n + j) % 16 == n % 16 <==> j % 16 == 0
  {
  }

  /** A consecutive frame is taken when a message is under way and it has the next number. */
  lemma ConsecutiveTakenIff(rx: Rx, f: seq<byte>)
    requires Kind(f) == Some(2)
    ensures RxStep(rx, f).1 == Done <==> rx.Reception? && !rx.complete && f[0] as int == 0x20 + (rx.idx + 1) % 16
  {
  }

  /** Flow control is taken when a transmission is under way: a wait, or a continue with its three bytes. */
  lemma TakenIff(txDone: Option<bool>, f: seq<byte>)
    requires f != [] && f[0] as int / 16 == 3
    ensures Continue(txDone, f) == Done <==> txDone == Some(false) && (f[0] % 16 == 1 || (f[0] == 0x30 && |f| > 2))
  {
  }

  // ---- isotp.py

  /** A zero sub-address is dropped from messages of more than six bytes: the code tests `if subaddr`. */
  predicate SubaddrLost(subaddr: Option<byte>, len: nat) {
    subaddr == Some(0) && len > 6
  }

  function PrefixOf(subaddr: Option<byte>): (pre: seq<byte>)
    ensures Prefix(pre)
  {
    if subaddr.Some? then [subaddr.value] else []
  }

  /** isotp_send: the frames in the order they leave, when the peer asks for no pause. */
  method IsotpSend(x: seq<byte>, subaddr: Option<byte>) returns (frames: seq<seq<byte>>)
    requires |x| < 0x1000
    ensures !SubaddrLost(subaddr, |x|) ==> frames == Frames(PrefixOf(subaddr), x)
    ensures SubaddrLost(subaddr, |x|) ==> frames != [] && frames[0] != [] && frames[0][0] == 0x10 + |x| / 256
  {
    hide Consecutives, Consecutive, Slice, Ljust;
    var pre := PrefixOf(subaddr);
    if |x| <= 7 && subaddr.None? {
      var m := Msg(x);
      SingleForm([], x);
      assert [] + m[..8] == m;
      return [m];
    }
    if |x| <= 6 && subaddr.Some? {
      var m := Msg(x);
      SingleForm(pre, x);
      return [pre + m[..7]];
    }
    var ss: seq<byte> := [0x10 + |x| / 256, |x| % 256] + x[..if subaddr.Some? && subaddr.value != 0 then 5 else 6];
    var part: seq<byte> := [];
    if subaddr.Some? && subaddr.value != 0 {
      part := [subaddr.value];
      ss := [subaddr.value, 0x10 + |x| / 256, |x| % 256] + x[..5];
      assert ss == First(pre, x);
    } else if subaddr.None? {
      assert ss == First(pre, x);
    }
    var sends := SendsOf(part, x);
    frames := [ss] + sends;
  }

  /** The while loop of isotp_send. */
  method SendsOf(part: seq<byte>, x: seq<byte>) returns (sends: seq<seq<byte>>)
    requires Prefix(part) && |x| >= Room(part)
    ensures sends == Consecutives(part, x, |x| / Room(part))
  {
    hide Consecutives, Consecutive, Slice, Ljust;
    var n := Room(part);
    var idx: int, rest := 1, x[n - 1..];
    sends := [];
    ConsecutivesNone(part, x);
    while |rest| > 0
      invariant idx >= 1 && rest == x[Min(|x|, Offset(part, idx))..] && sends == Consecutives(part, x, idx - 1)
      invariant rest != [] || Offset(part, idx) < |x| + n
      decreases |rest|
    {
      ConsecutiveForm(part, x, idx);
      ConsecutivesNext(part, x, idx - 1);
      sends := sends + [Ljust(part + [0x20 + idx % 16] + rest[..Min(n, |rest|)], FRAME_SIZE)];
      rest := rest[Min(n, |rest|)..];
      idx := idx + 1;
    }
    LastFrame(part, x, idx);
  }

  lemma ConsecutivesNone(pre: seq<byte>, dat: seq<byte>)
    requires Prefix(pre)
    ensures Consecutives(pre, dat, 0) == []
  {
  }

  lemma ConsecutivesNext(pre: seq<byte>, dat: seq<byte>, k: nat)
    requires Prefix(pre)
    ensures Consecutives(pre, dat, k + 1) == Consecutives(pre, dat, k) + [Consecutive(pre, dat, k + 1)]
  {
  }

  lemma LastFrame(pre: seq<byte>, x: seq<byte>, idx: nat)
    requires Prefix(pre) && idx >= 1 && |x| >= Room(pre) && |x| <= Offset(pre, idx) < |x| + Room(pre)
    ensures idx - 1 == |x| / Room(pre)
  {
    var k := idx - 1;
    if Room(pre) == 6 {
      assert 6 * k <= |x| < 6 * k + 6;
      assert |x| / 6 == k;
    } else {
      assert 7 * k <= |x| < 7 * k + 7;
      assert |x| / 7 == k;
    }
  }

  /** msg. */
  method Msg(x: seq<byte>) returns (ret: seq<byte>)
    requires |x| <= 7
    ensures ret == Ljust([|x|] + x, FRAME_SIZE) && |ret| == FRAME_SIZE
  {
    ret := Ljust([|x|] + x, FRAME_SIZE);
  }

  lemma SingleForm(pre: seq<byte>, x: seq<byte>)
    requires Prefix(pre) && |x| <= Room(pre)
    ensures pre + Ljust([|x|] + x, FRAME_SIZE)[..8 - |pre|] == Single(pre, x)
  {
  }

  lemma ConsecutiveForm(pre: seq<byte>, x: seq<byte>, k: nat)
    requires Prefix(pre) && k >= 1 && Offset(pre, k) < |x|
    ensures var rest := x[Offset(pre, k)..];
            var n := Min(Room(pre), |rest|);
            && Consecutive(pre, x, k) == Ljust(pre + [0x20 + k % 16] + rest[..n], FRAME_SIZE)
            && Offset(pre, k + 1) == Offset(pre, k) + Room(pre)
            && rest[n..] == x[Min(|x|, Offset(pre, k + 1))..]
            && (rest[n..] != [] || Offset(pre, k + 1) < |x| + Room(pre))
  {
    var at := Offset(pre, k);
    var rest := x[at..];
    var n := Min(Room(pre), |rest|);
    assert Offset(pre, k + 1) == at + Room(pre) by {
      if Room(pre) == 6 {
        assert k * 6 == (k - 1) * 6 + 6;
      } else {
        assert k * 7 == (k - 1) * 7 + 7;
      }
    }
    assert Slice(x, at, Room(pre)) == rest[..n];
    assert rest[n..] == x[at + n..];
  }

  datatype Received = Payload(dat: seq<byte>) | Failed | Waiting

  /** The bodies of `count` consecutive frames, if each starts with `pre` and its number. */
  function Collect(pre: seq<byte>, frames: seq<seq<byte>>, count: nat): Option<seq<byte>>
    requires count <= |frames|
  {
    if count == 0 then Some([])
    else
      var before, f := Collect(pre, frames, count - 1), frames[count - 1];
      if before.None? || |f| <= |pre| || f[..|pre| + 1] != pre + [0x20 + count % 16] then None
      else Some(before.value + f[|pre| + 1..])
  }

  /** A consecutive frame with this prefix and number. */
  predicate Numbered(pre: seq<byte>, f: seq<byte>, n: nat) {
    |f| > |pre| && f[..|pre|] == pre && f[|pre|] as int == 0x20 + n % 16
  }

  /** The loop ends exactly when the frames are numbered from 1, modulo sixteen, without a gap. */
  lemma {:induction false} CollectsIff(pre: seq<byte>, frames: seq<seq<byte>>, count: nat)
    requires count <= |frames|
    ensures Collect(pre, frames, count).Some? <==> forall i :: 0 <= i < count ==> Numbered(pre, frames[i], i + 1)
  {
    if count > 0 {
      CollectsIff(pre, frames, count - 1);
      var f, tag: byte := frames[count - 1], 0x20 + count % 16;
      if |f| > |pre| {
        assert f[..|pre| + 1] == f[..|pre|] + [f[|pre|]];
        assert (pre + [tag])[..|pre|] == pre && (pre + [tag])[|pre|] == tag;
      }
    }
  }

  /** Here, too, j missing frames are noticed unless their number is a multiple of sixteen. */
  lemma MissedFramesCollectIff(pre: seq<byte>, dat: seq<byte>, k: nat, j: nat)
    requires Prefix(pre)
    ensures var frames := Consecutives(pre, dat, k) + [Consecutive(pre, dat, k + 1 + j)];
            Collect(pre, frames, k + 1).Some? <==> j % 16 == 0
  {
    hide Collect, Slice, Ljust;
    var frames := Consecutives(pre, dat, k) + [Consecutive(pre, dat, k + 1 + j)];
    CollectsIff(pre, frames, k + 1);
    forall i | 0 <= i <= k
      ensures Numbered(pre, frames[i], i + 1) <==> i < k || j % 16 == 0
    {
      ConsecutiveNumbered(pre, dat, if i < k then i + 1 else k + 1 + j, i + 1);
    }
    assert Numbered(pre, frames[k], k + 1) <==> j % 16 == 0;
  }

  lemma ConsecutiveNumbered(pre: seq<byte>, dat: seq<byte>, k: nat, n: nat)
    requires Prefix(pre) && k >= 1
    ensures Numbered(pre, Consecutive(pre, dat, k), n) <==> (k - n) % 16 == 0
  {
    var f := Consecutive(pre, dat, k);
    assert f[..|pre|] == pre && f[|pre|] as int == 0x20 + k % 16;
  }

  /** isotp_recv and isotp_recv_subaddr over the frames that arrive, in order. */
  function Reassemble(pre: seq<byte>, inbox: seq<seq<byte>>): Received
    requires Prefix(pre)
  {
    if inbox == [] then Waiting
    else
      var f, p := inbox[0], |pre|;
      if |f| <= p || f[..p] != pre then Failed
      else if f[p] as int / 16 == 1 then
        if |f| <= p + 1 then Failed
        else
          var tlen, head := f[p] as int % 16 * 256 + f[p + 1] as int, f[p + 2..];
          var count := (tlen - |head| + 6 - p) / (7 - p);
          if count <= 0 then Payload(head[..Min(tlen, |head|)])
          else if |inbox| - 1 < count then Waiting
          else match Collect(pre, inbox[1..], count)
            case None => Failed
            case Some(body) => Payload((head + body)[..Min(tlen, |head + body|)])
      else if f[p] as int / 16 == 0 then Payload(f[p + 1..][..Min(f[p] as int % 16, |f| - p - 1)])
      else Failed
  }

  /** A first frame, or a single one, with this prefix. */
  predicate Opens(pre: seq<byte>, f: seq<byte>) {
    |f| > |pre| && f[..|pre|] == pre && (f[|pre|] < 0x10 || (f[|pre|] < 0x20 && |f| > |pre| + 1))
  }

  /** The number of bytes a frame that opens a message still leaves to come. */
  function Missing(pre: seq<byte>, f: seq<byte>): int
    requires Opens(pre, f)
  {
    if f[|pre|] < 0x10 then 0
    else (f[|pre|] as int - 0x10) * 256 + f[|pre| + 1] as int - (|f| - |pre| - 2)
  }

  /** The receiver waits for its first frame, and then while the frames that came cannot hold all the bytes to
      come. */
  lemma WaitsIff(pre: seq<byte>, inbox: seq<seq<byte>>)
    requires Prefix(pre)
    ensures Reassemble(pre, inbox) == Waiting <==>
              inbox == [] || (Opens(pre, inbox[0]) && (7 - |pre|) * (|inbox| - 1) < Missing(pre, inbox[0]))
  {
    hide Collect;
    if inbox != [] && Opens(pre, inbox[0]) {
      EnoughRoom(7 - |pre|, |inbox| - 1, Missing(pre, inbox[0]));
    }
  }

  lemma EnoughRoom(room: nat, n: nat, missing: int)
    requires room == 6 || room == 7
    ensures room * n < missing <==> n < (missing + room - 1) / room
    ensures missing <= 0 <==> (missing + room - 1) / room <= 0
  {
  }

  /** It fails on anything else but a single or first frame, and then on a frame out of turn among those it
      waited for. */
  lemma FailsIff(pre: seq<byte>, inbox: seq<seq<byte>>)
    requires Prefix(pre) && inbox != []
    ensures Reassemble(pre, inbox) == Failed <==>
              || !Opens(pre, inbox[0])
              || var missing := Missing(pre, inbox[0]);
                 0 < missing <= (7 - |pre|) * (|inbox| - 1)
                 && exists i :: 1 <= i <= (missing + 6 - |pre|) / (7 - |pre|) && !Numbered(pre, inbox[i], i)
  {
    hide Collect;
    if Opens(pre, inbox[0]) {
      var missing := Missing(pre, inbox[0]);
      EnoughRoom(7 - |pre|, |inbox| - 1, missing);
      var count := (missing + 6 - |pre|) / (7 - |pre|);
      if 0 < count < |inbox| {
        CollectsIff(pre, inbox[1..], count);
        assert forall i :: 0 <= i < count ==> inbox[1..][i] == inbox[i + 1];
      }
    }
  }

  lemma {:induction false} CollectsPayloads(pre: seq<byte>, dat: seq<byte>, n: nat, k: nat)
    requires Prefix(pre) && k <= n
    ensures Collect(pre, Consecutives(pre, dat, n), k) == Some(Payloads(pre, dat, k))
  {
    if k > 0 {
      CollectsPayloads(pre, dat, n, k - 1);
      var f := Consecutive(pre, dat, k);
      assert f[..|pre| + 1] == pre + [0x20 + k % 16];
    }
  }

  lemma FirstShape(pre: seq<byte>, dat: seq<byte>)
    requires Prefix(pre) && Room(pre) < |dat| < 0x1000
    ensures var f, p := First(pre, dat), |pre|;
            && |f| > p + 1 && f[..p] == pre && f[p + 2..] == dat[..Room(pre) - 1]
            && f[p] as int / 16 == 1 && f[p] as int % 16 * 256 + f[p + 1] as int == |dat|
  {
  }

  lemma FrameCount(pre: seq<byte>, len: nat)
    requires Prefix(pre) && len > Room(pre)
    ensures (len - (Room(pre) - 1) + 6 - |pre|) / (7 - |pre|) == len / Room(pre) >= 1
  {
  }

  lemma ReassembleSingle(pre: seq<byte>, dat: seq<byte>)
    requires Prefix(pre) && |dat| <= Room(pre)
    ensures Reassemble(pre, [Single(pre, dat)]) == Payload(dat)
  {
    var f, p := Single(pre, dat), |pre|;
    assert f[..p] == pre && f[p] == |dat| && f[p + 1..][..|dat|] == dat;
  }

  /** A first frame and enough consecutive ones: their bytes, cut to the announced length. */
  lemma ReassembleSegments(pre: seq<byte>, first: seq<byte>, rest: seq<seq<byte>>, dat: seq<byte>, body: seq<byte>)
    requires Prefix(pre) && |first| > |pre| + 1 && first[..|pre|] == pre && first[|pre|] as int / 16 == 1
    requires first[|pre|] as int % 16 * 256 + first[|pre| + 1] as int == |dat|
    requires (|dat| - |first[|pre| + 2..]| + 6 - |pre|) / (7 - |pre|) == |rest| >= 1
    requires Collect(pre, rest, |rest|) == Some(body) && dat <= first[|pre| + 2..] + body
    ensures Reassemble(pre, [first] + rest) == Payload(dat)
  {
    hide Collect;
    assert ([first] + rest)[1..] == rest;
  }

  /** Either receiver of isotp.py gets back every message of at most 4095 bytes from its frames. */
  lemma ReassembleFrames(pre: seq<byte>, dat: seq<byte>)
    requires Prefix(pre) && |dat| < 0x1000
    ensures Reassemble(pre, Frames(pre, dat)) == Payload(dat)
  {
    hide Collect, Reassemble, Consecutives, Payloads, First, Single;
    var n := Room(pre);
    if |dat| <= n {
      ReassembleSingle(pre, dat);
    } else {
      var count := |dat| / n;
      FirstShape(pre, dat);
      FrameCount(pre, |dat|);
      CollectsPayloads(pre, dat, count, count);
      PayloadsCarry(pre, dat, count);
      EnoughFrames(pre, dat, count);
      assert dat[..Carried(pre, dat, count)] == dat;
      ReassembleSegments(pre, First(pre, dat), Consecutives(pre, dat, count), dat, Payloads(pre, dat, count));
    }
  }

  /** The inbox starts with a first frame that carries the right prefix. */
  predicate AsksToContinue(subaddr: Option<byte>, inbox: seq<seq<byte>>) {
    && inbox != []
    && match subaddr
       case None => |inbox[0]| >= 2 && 0x10 <= inbox[0][0] < 0x20
       case Some(a) => |inbox[0]| >= 3 && inbox[0][0] == a && 0x10 <= inbox[0][1] < 0x20
  }

  /** Flow control: continue, no block size, no pause. */
  function ContinueFor(subaddr: Option<byte>): seq<byte> {
    match subaddr
    case None => [0x30, 0, 0, 0, 0, 0, 0, 0]
    case Some(a) => [a, 0x30, 0, 0, 0, 0, 0, 0]
  }

  lemma ContinuePadded(subaddr: Option<byte>)
    ensures Ljust(PrefixOf(subaddr) + [0x30], FRAME_SIZE) == ContinueFor(subaddr)
  {
  }

  /** isotp_recv, by way of isotp_recv_subaddr when there is a sub-address; `reply` is the flow control sent. */
  method IsotpRecv(inbox: seq<seq<byte>>, subaddr: Option<byte>) returns (r: Received, reply: seq<seq<byte>>)
    ensures r == Reassemble(PrefixOf(subaddr), inbox)
    ensures reply == if AsksToContinue(subaddr, inbox) then [ContinueFor(subaddr)] else []
  {
    hide Collect, Ljust, ContinueFor;
    ContinuePadded(subaddr);
    var pre := PrefixOf(subaddr);
    reply := [];
    if inbox == [] {
      return Waiting, reply;
    }
    var msg, p := inbox[0], |pre|;
    if |msg| <= p || msg[..p] != pre {
      return Failed, reply;
    }
    if msg[p] as int / 16 == 1 {
      if |msg| <= p + 1 {
        return Failed, reply;
      }
      var tlen, dat := msg[p] as int % 16 * 256 + msg[p + 1] as int, msg[p + 2..];
      reply := [Ljust(pre + [0x30], FRAME_SIZE)];
      var count := (tlen - |dat| + 6 - p) / (7 - p);
      if count <= 0 {
        return Payload(dat[..Min(tlen, |dat|)]), reply;
      }
      if |inbox| - 1 < count {
        return Waiting, reply;
      }
      var body := Gather(pre, inbox[1..], count);
      if body.None? {
        return Failed, reply;
      }
      dat := dat + body.value;
      r := Payload(dat[..Min(tlen, |dat|)]);
    } else if msg[p] as int / 16 == 0 {
      var tlen, dat := msg[p] as int % 16, msg[p + 1..];
      r := Payload(dat[..Min(tlen, |dat|)]);
    } else {
      r := Failed;
    }
  }

  /** The loop over the consecutive frames. */
  method Gather(pre: seq<byte>, frames: seq<seq<byte>>, count: nat) returns (body: Option<seq<byte>>)
    requires Prefix(pre) && count <= |frames|
    ensures body == Collect(pre, frames, count)
  {
    var dat: seq<byte> := [];
    for idx := 1 to count + 1
      invariant Collect(pre, frames, idx - 1) == Some(dat)
    {
      var mm := frames[idx - 1];
      if |mm| <= |pre| || mm[..|pre| + 1] != pre + [0x20 + idx % 16] {
        CollectStops(pre, frames, idx, count);
        return None;
      }
      dat := dat + mm[|pre| + 1..];
    }
    body := Some(dat);
  }

  lemma {:induction false} CollectStops(pre: seq<byte>, frames: seq<seq<byte>>, k: nat, n: nat)
    requires k <= n <= |frames| && Collect(pre, frames, k) == None
    ensures Collect(pre, frames, n) == None
  {
    if k < n {
      CollectStops(pre, frames, k, n - 1);
    }
  }

  /** isotp.py to isotp.py: the message comes back exactly when the sub-address is not dropped. */
  method IsotpRoundTrip(x: seq<byte>, subaddr: Option<byte>) returns (r: Received)
    requires |x| < 0x1000
    ensures r == Payload(x) <==> !SubaddrLost(subaddr, |x|)
  {
    hide Reassemble, Frames;
    var frames := IsotpSend(x, subaddr);
    var reply;
    r, reply := IsotpRecv(frames, subaddr);
    if SubaddrLost(subaddr, |x|) {
      WrongAddress(frames);
    } else {
      ReassembleFrames(PrefixOf(subaddr), x);
    }
  }

  lemma WrongAddress(inbox: seq<seq<byte>>)
    requires inbox != [] && inbox[0] != [] && inbox[0][0] != 0
    ensures Reassemble([0], inbox) == Failed
  {
  }

  /** IsoTpMessage to isotp.py: the receiver's answer to the first frame is all the sender needs. */
  method UdsToIsotp(sender: IsoTpMessage, x: seq<byte>) returns (r: Received)
    requires |x| < 0x1000
    modifies sender
    ensures r == Payload(x) && sender.txDone
  {
    hide Reassemble, Consecutives, Single, First, Consecutive, Continue, ContinueFor;
    ghost var base := sender.sent;
    var mark := |sender.sent|;
    var reply;
    sender.Send(x);
    if |x| > 7 {
      FirstAsks(x);
      SentAt(base, First([], x), Consecutives([], x, 0));
      r, reply := IsotpRecv([sender.sent[mark]], None);
      PlainContinue();
      ReplyContinues();
      var o := sender.RxNext(reply[0], base);
      EnoughFrames([], x, |x| / 7);
      SentAt(base, First([], x), Consecutives([], x, |x| / 7));
    }
    assert sender.sent == base + Frames([], x);
    r, reply := IsotpRecv(sender.sent[mark..], None);
    ReassembleFrames([], x);
  }

  lemma FirstAsks(x: seq<byte>)
    requires 7 < |x| < 0x1000
    ensures AsksToContinue(None, [First([], x)])
  {
    FirstReceived(NoReception, x);
    assert First([], x)[0] == 0x10 + |x| / 256;
  }

  lemma PlainContinue()
    ensures ContinueFor(None) == CONTINUE_FRAME
  {
  }

  /** isotp.py to IsoTpMessage. */
  method IsotpToUds(receiver: IsoTpMessage, x: seq<byte>) returns (ok: bool)
    requires |x| < 0x1000
    modifies receiver
    ensures ok && receiver.rxDone && receiver.rxDat == x
    ensures receiver.sent == old(receiver.sent) + if |x| > 7 then [CONTINUE_FRAME] else []
  {
    hide Consecutives, Single, First, Consecutive, RxStep, Halfway;
    var frames := IsotpSend(x, None);
    ghost var rx0 := receiver.Rx();
    if |x| <= 7 {
      SingleReceived(rx0, x);
      var o := receiver.RxNext(frames[0], []);
      ok := o == Done;
    } else {
      FirstReceived(rx0, x);
      var o := receiver.RxNext(frames[0], []);
      ok := o == Done;
      var rest := ReceiveRest(receiver, frames[1..], x);
      ok := ok && rest;
    }
  }
}
