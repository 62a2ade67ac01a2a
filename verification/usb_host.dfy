// The two host ends of the USB stream: selfdrive/boardd/panda.cc and panda/python/__init__.py, and
// what either says to, or hears from, the board.

module UsbHost {
  import opened Words
  import opened CanStream
  import opened UsbBoard

  const USB_TX_SOFT_LIMIT: nat := 256
  const PANDA_BUS_CNT: nat := 4

  /** A frame as the host sees it. */
  datatype Message = Message(address: nat, bus: nat, dat: seq<byte>)

  ghost predicate Sendable(m: Message) {
    m.address < 0x2000_0000 && m.bus < 8 && exists dlc: nat :: dlc < 16 && |m.dat| == DlcToLen(dlc)
  }

  // ---- Length codes

  /** The arithmetic of panda.cc. */
  function LenToDlc(len: nat): nat {
    if len <= 8 then len
    else if len <= 24 then 8 + (len - 8) / 4 + (if len % 4 != 0 then 1 else 0)
    else 11 + len / 16 + (if len % 16 != 0 then 1 else 0)
  }

  /** It inverts the table; it is the table entry the length comes from exactly when there is one. */
  lemma LenToDlcInverts(len: nat)
    requires len <= 64
    ensures LenToDlc(len) < 16 && DlcToLen(LenToDlc(len)) >= len
    ensures (exists dlc: nat :: dlc < 16 && DlcToLen(dlc) == len) <==> DlcToLen(LenToDlc(len)) == len
    ensures forall dlc: nat :: dlc < 16 && DlcToLen(dlc) == len ==> dlc == LenToDlc(len)
  {
    forall dlc: nat | dlc < 16 && DlcToLen(dlc) == len
      ensures dlc == LenToDlc(len)
    {
      assert dlc <= 8 || dlc == 9 || dlc == 10 || dlc == 11 || dlc == 12 || dlc == 13 || dlc == 14 || dlc == 15;
    }
  }

  /** DLC_TO_LEN.index(len) of panda/python/__init__.py, by search. */
  method PythonLenToDlc(len: nat) returns (dlc: nat)
    requires exists d: nat :: d < 16 && DlcToLen(d) == len
    ensures dlc < 16 && DlcToLen(dlc) == len
  {
    dlc := 0;
    while DlcToLen(dlc) != len
      invariant dlc < 16 && exists d: nat :: dlc <= d < 16 && DlcToLen(d) == len
      decreases 16 - dlc
    {
      dlc := dlc + 1;
    }
  }

  // ---- Headers

  function HeaderFor(m: Message, spare: nat): (h: Header)
    requires Sendable(m)
    ensures HeaderFits(h)
  {
    LenToDlcInverts(|m.dat|);
    Header(spare % 2, m.bus, LenToDlc(|m.dat|), spare / 2 % 2, spare / 4 % 2,
           if m.address >= 0x800 then 1 else 0, m.address)
  }

  /** The frame for `m`; `spare` holds the reserved, rejected and returned bits, which panda.cc leaves unset. */
  function WireOf(m: Message, spare: nat): (w: seq<byte>)
    requires Sendable(m)
    ensures |w| == HEAD_SIZE + |m.dat|
  {
    HeaderBytes(HeaderFor(m, spare)) + m.dat
  }

  /** What the board reads back from a frame. */
  function MessageOf(w: seq<byte>): Message
    requires Wire(w)
  {
    var h := HeaderOf(w);
    Message(h.addr, h.bus, w[HEAD_SIZE..])
  }

  lemma WireRoundTrip(m: Message, spare: nat)
    requires Sendable(m)
    ensures Wire(WireOf(m, spare)) && MessageOf(WireOf(m, spare)) == m
    ensures HeaderOf(WireOf(m, spare)).extended == if m.address >= 0x800 then 1 else 0
  {
    hide HeaderBytes, HeaderOf;
    var h := HeaderFor(m, spare);
    LenToDlcInverts(|m.dat|);
    HeaderPrefix(h, m.dat);
    HeaderPrefix(h, []);
    assert WireOf(m, spare)[0] == (HeaderBytes(h) + [])[0];
  }

  // ---- Packing

  predicate ForBus(m: Message, busOffset: nat) {
    busOffset <= m.bus < busOffset + PANDA_BUS_CNT
  }

  /** With bus offsets as boardd gives them, four buses to a panda, every message is for exactly one panda. */
  lemma EveryBusOnce(m: Message, panda: nat)
    ensures ForBus(m, 4 * panda) <==> m.bus / 4 == panda
  {
  }

  /** The frames pack_can_buffer sends: one per message addressed to this panda, its bus made relative. */
  function Selected(msgs: seq<Message>, spare: seq<nat>, busOffset: nat): (ws: seq<seq<byte>>)
    requires |spare| == |msgs|
    requires forall i :: 0 <= i < |msgs| && ForBus(msgs[i], busOffset) ==>
        Sendable(msgs[i].(bus := msgs[i].bus - busOffset))
  {
    if msgs == [] then []
    else
      var k := |msgs| - 1;
      Selected(msgs[..k], spare[..k], busOffset)
      + if ForBus(msgs[k], busOffset) then [WireOf(msgs[k].(bus := msgs[k].bus - busOffset), spare[k])] else []
  }

  /** write_packet: copies `src`, inserting a counter at every multiple of 64. */
  method WritePacket(dest: array<byte>, start: nat, src: seq<byte>, ghost p: seq<byte>) returns (pos: nat)
    requires start <= dest.Length && dest[..start] == Framed(p, 0)
    requires FramedLen(|p| + |src|) <= dest.Length
    modifies dest
    ensures pos <= dest.Length && dest[..pos] == Framed(p + src, 0)
  {
    hide Framed;
    pos := start;
    assert p + src[..0] == p;
    for i := 0 to |src|
      invariant pos <= dest.Length && dest[..pos] == Framed(p + src[..i], 0)
    {
      ghost var q := p + src[..i];
      FramedLength(q, 0);
      PacketStart(|q|);
      FramedByte(q, src[i], 0);
      FramedLength(q + [src[i]], 0);
      assert p + src[..i + 1] == q + [src[i]];
      if pos % PACKET_SIZE == 0 {
        dest[pos] := pos / PACKET_SIZE % 256;
        pos := pos + 1;
      }
      dest[pos] := src[i];
      pos := pos + 1;
    }
    assert src[..|src|] == src;
  }

  /** The two write_packet calls for one frame: header, then data. */
  method WriteFrame(dest: array<byte>, start: nat, w: seq<byte>, ghost ws: seq<seq<byte>>) returns (pos: nat)
    requires start < USB_TX_SOFT_LIMIT && dest.Length == 2 * USB_TX_SOFT_LIMIT
    requires AllWire(ws) && Wire(w) && dest[..start] == Framed(Flatten(ws), 0)
    modifies dest
    ensures 0 < pos <= dest.Length && AllWire(ws + [w])
    ensures dest[..pos] == Framed(Flatten(ws + [w]), 0) && |Flatten(ws + [w])| <= pos
  {
    hide Framed, Flatten, PacketLen;
    ghost var p := Flatten(ws);
    FramedLength(p, 0);
    FlattenSnoc(ws, w);
    assert p + w[..HEAD_SIZE] + w[HEAD_SIZE..] == p + w;
    pos := WritePacket(dest, start, w[..HEAD_SIZE], p);
    pos := WritePacket(dest, pos, w[HEAD_SIZE..], p + w[..HEAD_SIZE]);
    FramedLength(p + w, 0);
  }

  /** Panda::pack_can_buffer; each transfer is one call of write_func. */
  method PackCanBuffer(msgs: seq<Message>, spare: seq<nat>, busOffset: nat) returns (transfers: seq<seq<byte>>)
    requires |spare| == |msgs|
    requires forall i :: 0 <= i < |msgs| && ForBus(msgs[i], busOffset) ==>
        Sendable(msgs[i].(bus := msgs[i].bus - busOffset))
    ensures forall i :: 0 <= i < |transfers| ==> WellSent(transfers[i])
    ensures FramesOf(transfers) == Selected(msgs, spare, busOffset)
  {
    hide Framed, Flatten, Parse, WellSent, Unframed, Sendable, AllWire, PacketLen, FramesOf, HeaderFor;
    var sendBuf := new byte[2 * USB_TX_SOFT_LIMIT];
    var pos: nat := 0;
    transfers := [];
    ghost var ws: seq<seq<byte>> := [];
    EmptyBuffer();
    for i := 0 to |msgs|
      invariant pos < USB_TX_SOFT_LIMIT && (pos == 0 ==> ws == []) && sendBuf[..pos] == Framed(Flatten(ws), 0)
          && AllWire(ws)
      invariant |Flatten(ws)| <= pos
      invariant forall k :: 0 <= k < |transfers| ==> WellSent(transfers[k])
      invariant FramesOf(transfers) + ws == Selected(msgs[..i], spare[..i], busOffset)
    {
      assert msgs[..i + 1][..i] == msgs[..i] && spare[..i + 1][..i] == spare[..i];
      if ForBus(msgs[i], busOffset) {
        var m := msgs[i].(bus := msgs[i].bus - busOffset);
        var w := WireOf(m, spare[i]);
        WireRoundTrip(m, spare[i]);
        pos := WriteFrame(sendBuf, pos, w, ws);
        ws := ws + [w];
        if pos >= USB_TX_SOFT_LIMIT {
          SendFrames(transfers, ws);
          transfers := transfers + [sendBuf[..pos]];
          pos, ws := 0, [];
          EmptyBuffer();
        }
      }
    }
    if pos > 0 {
      SendFrames(transfers, ws);
      transfers := transfers + [sendBuf[..pos]];
    }
    assert msgs[..|msgs|] == msgs && spare[..|spare|] == spare;
  }

  lemma EmptyBuffer()
    ensures Framed(Flatten([]), 0) == [] && Flatten([]) == [] && AllWire([]) && FramesOf([]) == []
  {
  }

  /** The frames for messages sent with every spare bit zero. */
  function PlainWires(msgs: seq<Message>): (ws: seq<seq<byte>>)
    requires forall i :: 0 <= i < |msgs| ==> Sendable(msgs[i])
    ensures |ws| == |msgs|
  {
    if msgs == [] then [] else PlainWires(msgs[..|msgs| - 1]) + [WireOf(msgs[|msgs| - 1], 0)]
  }

  /** The header as panda/python/__init__.py assembles it. */
  lemma PythonHeader(m: Message, dlc: nat)
    requires Sendable(m) && dlc < 16 && DlcToLen(dlc) == |m.dat|
    ensures [dlc * 16 + m.bus * 2] + LittleEndian(m.address * 8 + (if m.address >= 0x800 then 4 else 0), 4) + m.dat
        == WireOf(m, 0)
  {
    LenToDlcInverts(|m.dat|);
  }

  method PythonWire(m: Message) returns (w: seq<byte>)
    requires Sendable(m)
    ensures w == WireOf(m, 0)
  {
    hide DlcToLen, LittleEndian;
    var dlc := PythonLenToDlc(|m.dat|);
    var word4b := m.address * 8 + if m.address >= 0x800 then 4 else 0;
    PythonHeader(m, dlc);
    w := [dlc * 16 + m.bus * 2] + LittleEndian(word4b, 4) + m.dat;
  }

  /** Chunks of at least 257 bytes, the last one shorter, each a whole number of frames. */
  method Chunks(msgs: seq<Message>) returns (snds: seq<seq<byte>>)
    requires forall i :: 0 <= i < |msgs| ==> Sendable(msgs[i])
    ensures forall i :: 0 <= i < |snds| ==> |snds[i]| <= 325 && Parse(snds[i]).rest == []
    ensures Joined(snds) == PlainWires(msgs)
  {
    hide Parse, Flatten, PacketLen, Joined, AllWire, Sendable, WireOf;
    var last: seq<byte> := [];
    snds := [];
    ghost var ws: seq<seq<byte>> := [];
    JoinedStep(snds, ws);
    EmptyBuffer();
    for i := 0 to |msgs|
      invariant |last| <= 256 && last == Flatten(ws) && AllWire(ws)
      invariant forall k :: 0 <= k < |snds| ==> |snds[k]| <= 325 && Parse(snds[k]).rest == []
      invariant Joined(snds) + ws == PlainWires(msgs[..i])
    {
      assert msgs[..i + 1][..i] == msgs[..i];
      var m := msgs[i];
      var w := PythonWire(m);
      WireRoundTrip(m, 0);
      FlattenSnoc(ws, w);
      WireAppend(ws, w);
      last := last + w;
      ws := ws + [w];
      if |last| > USB_TX_SOFT_LIMIT {
        JoinedStep(snds, ws);
        snds := snds + [last];
        last, ws := [], [];
        EmptyBuffer();
      }
    }
    JoinedStep(snds, ws);
    snds := snds + [last];
    assert msgs[..|msgs|] == msgs;
  }

  /** All frames of unframed chunks. */
  function Joined(snds: seq<seq<byte>>): seq<seq<byte>> {
    if snds == [] then [] else Joined(snds[..|snds| - 1]) + Parse(snds[|snds| - 1]).frames
  }

  lemma JoinedStep(snds: seq<seq<byte>>, ws: seq<seq<byte>>)
    requires AllWire(ws)
    ensures Parse(Flatten(ws)).rest == [] && Joined(snds + [Flatten(ws)]) == Joined(snds) + ws && Joined([]) == []
  {
    ParseFlatten(ws, []);
    assert Flatten(ws) + [] == Flatten(ws) && ws + [] == ws;
    assert (snds + [Flatten(ws)])[..|snds|] == snds;
  }

  lemma WireAppend(ws: seq<seq<byte>>, w: seq<byte>)
    requires AllWire(ws) && Wire(w)
    ensures AllWire(ws + [w]) && |w| <= 69
  {
  }

  lemma ApplyStep(tx: seq<byte>, snd: seq<byte>, i: nat, c: byte)
    requires i < |snd|
    ensures var next := Min(i + 63, |snd|);
            tx + Framed(snd[i..], c) == tx + ([c] + snd[i..next]) + Framed(snd[next..], c + 1)
  {
    hide Framed;
    var next := Min(i + 63, |snd|);
    FramedFront(snd[i..], c);
    assert snd[i..][..next - i] == snd[i..next] && snd[i..][next - i..] == snd[next..];
    Assoc(tx, [c] + snd[i..next], Framed(snd[next..], c + 1));
  }

  /** A counter before every 63 bytes. */
  method ApplyCounters(snd: seq<byte>) returns (tx: seq<byte>)
    requires |snd| <= 63 * 256
    ensures tx == Framed(snd, 0)
  {
    hide Framed;
    tx := [];
    var counter: int, i := 0, 0;
    while i < |snd|
      invariant i == 63 * counter && tx + Framed(snd[Min(i, |snd|)..], counter) == Framed(snd, 0)
      decreases |snd| - i
    {
      var chunk := snd[i..Min(i + 63, |snd|)];
      ApplyStep(tx, snd, i, counter);
      tx := tx + ([counter] + chunk);
      counter, i := counter + 1, i + 63;
    }
    FramedFront([], counter);
    assert snd[Min(i, |snd|)..] == [];
    NothingLeft(tx, Framed([], counter));
  }

  /** pack_can_buffer of panda/python/__init__.py. */
  method PythonPack(msgs: seq<Message>) returns (transfers: seq<seq<byte>>)
    requires forall i :: 0 <= i < |msgs| ==> Sendable(msgs[i])
    ensures forall i :: 0 <= i < |transfers| ==> WellSent(transfers[i])
    ensures FramesOf(transfers) == PlainWires(msgs)
  {
    hide Framed, Parse, Joined, Unframed, PlainWires;
    var snds := Chunks(msgs);
    transfers := [];
    EmptyBuffer();
    JoinedStep([], []);
    for i := 0 to |snds|
      invariant |transfers| == i && forall k :: 0 <= k < i ==> WellSent(transfers[k])
      invariant FramesOf(transfers) == Joined(snds[..i])
    {
      var tx := ApplyCounters(snds[i]);
      UnframedFramed(snds[i], 0);
      JoinedNext(snds[..i + 1]);
      assert snds[..i + 1][..i] == snds[..i];
      assert (transfers + [tx])[..i] == transfers;
      transfers := transfers + [tx];
    }
    assert snds[..|snds|] == snds;
  }

  lemma JoinedNext(snds: seq<seq<byte>>)
    requires snds != []
    ensures Joined(snds) == Joined(snds[..|snds| - 1]) + Parse(snds[|snds| - 1]).frames
  {
  }

  // ---- Unpacking

  /** What either host reports for a frame; a loopback echo or a rejection moves the bus number. */
  function HostFrame(w: seq<byte>, busOffset: nat): Message
    requires Wire(w)
  {
    var h := HeaderOf(w);
    Message(h.addr, h.bus + busOffset + 0x80 * h.returned + 0xC0 * h.rejected, w[HEAD_SIZE..])
  }

  /** The same from the bytes, as the Python library takes them apart. */
  function PythonFrame(s: seq<byte>, pcktLen: nat): Message
    requires HEAD_SIZE <= pcktLen <= |s|
  {
    var bus := s[0] as int / 2 % 8;
    var address := (0x100_0000 * s[4] as int + 0x1_0000 * s[3] as int + 0x100 * s[2] as int + s[1] as int) / 8;
    var returned, rejected := s[1] as int / 2 % 2, s[1] as int % 2;
    Message(address, bus + (if returned == 1 then 128 else 0) + (if rejected == 1 then 192 else 0),
            s[HEAD_SIZE..pcktLen])
  }

  /** The bit fields of the C++ host and the shifts of the Python one read the same message, the buses of a
      later panda being numbered on. */
  lemma PythonReadsHostFrame(w: seq<byte>)
    requires Wire(w)
    ensures PythonFrame(w, |w|) == HostFrame(w, 0)
    ensures forall o: nat :: HostFrame(w, o) == HostFrame(w, 0).(bus := HostFrame(w, 0).bus + o)
  {
    assert w[HEAD_SIZE..|w|] == w[HEAD_SIZE..];
  }

  function HostFrames(ws: seq<seq<byte>>, busOffset: nat): (ms: seq<Message>)
    requires AllWire(ws)
    ensures |ms| == |ws|
  {
    seq(|ws|, i requires 0 <= i < |ws| => HostFrame(ws[i], busOffset))
  }

  lemma HostFramesSnoc(ws: seq<seq<byte>>, w: seq<byte>, busOffset: nat)
    requires AllWire(ws) && Wire(w)
    ensures AllWire(ws + [w])
        && HostFrames(ws + [w], busOffset) == HostFrames(ws, busOffset) + [HostFrame(w, busOffset)]
  {
  }

  /** Overread is the C++ loop reading past the end of its buffer, on a stream that stops inside a frame. */
  datatype Unpacked = Malformed | Overread | Frames(frames: seq<Message>)

  /** Panda::unpack_can_buffer; `data` is what one bulk read returned. */
  method UnpackCanBuffer(data: seq<byte>, busOffset: nat) returns (u: Unpacked)
    ensures u.Malformed? <==> !CountersRight(data, 0)
    ensures u.Overread? <==> CountersRight(data, 0) && Parse(Unframed(data)).rest != []
    ensures u.Frames? ==> u.frames == HostFrames(Parse(Unframed(data)).frames, busOffset)
  {
    hide Parse, CountersRight, Unframed, HostFrames;
    var ok, recvBuf := DropCounters(data);
    u := Malformed;
    if ok {
      u := SplitBuffer(recvBuf, busOffset);
    }
  }

  method DropCounters(data: seq<byte>) returns (ok: bool, recvBuf: seq<byte>)
    ensures ok <==> CountersRight(data, 0)
    ensures ok ==> recvBuf == Unframed(data)
  {
    hide Unframed, CountersRight;
    recvBuf := [];
    var i := 0;
    assert data[0..] == data && [] + Unframed(data) == Unframed(data);
    while i < |data|
      invariant i % 64 == 0
      invariant CountersRight(data, 0) <==> CountersRight(data[Min(i, |data|)..], i / 64)
      invariant Unframed(data) == recvBuf + Unframed(data[Min(i, |data|)..])
      decreases |data| - i
    {
      DropStep(data, i, i / 64);
      var chunkLen := Min(PACKET_SIZE, |data| - i);
      if data[i] as int != i / 64 {
        return false, recvBuf;
      }
      Assoc(recvBuf, data[i + 1..i + chunkLen], Unframed(data[Min(i + 64, |data|)..]));
      recvBuf := recvBuf + data[i + 1..i + chunkLen];
      i := i + PACKET_SIZE;
    }
    assert data[Min(i, |data|)..] == [];
    NothingFramed();
    NothingLeft(recvBuf, []);
    ok := true;
  }

  lemma DropStep(data: seq<byte>, i: nat, c: nat)
    requires i < |data|
    ensures var j := Min(i + 64, |data|);
            && Unframed(data[i..]) == data[i + 1..j] + Unframed(data[j..])
            && (CountersRight(data[i..], c) <==> data[i] as int == c && CountersRight(data[j..], c + 1))
  {
    var t, j := data[i..], Min(i + 64, |data|);
    assert t[1..Min(|t|, 64)] == data[i + 1..j] && t[Min(|t|, 64)..] == data[j..];
  }

  lemma NothingFramed()
    ensures Unframed([]) == [] && forall c :: CountersRight([], c)
  {
  }

  method SplitBuffer(recvBuf: seq<byte>, busOffset: nat) returns (u: Unpacked)
    ensures !u.Malformed? && (u.Overread? <==> Parse(recvBuf).rest != [])
    ensures u.Frames? ==> u.frames == HostFrames(Parse(recvBuf).frames, busOffset)
  {
    hide Parse, HeaderOf, HostFrames, AllWire;
    var out: seq<Message> := [];
    ghost var ws: seq<seq<byte>> := [];
    NoHostFrames(busOffset);
    var pos := 0;
    assert recvBuf[0..] == recvBuf;
    while pos < |recvBuf|
      invariant 0 <= pos <= |recvBuf| && AllWire(ws) && out == HostFrames(ws, busOffset)
      invariant Parse(recvBuf) == Split(ws + Parse(recvBuf[pos..]).frames, Parse(recvBuf[pos..]).rest)
      decreases |recvBuf| - pos
    {
      ghost var s := recvBuf[pos..];
      var dataLen := DlcToLen(recvBuf[pos] as int / 16);
      if pos + HEAD_SIZE + dataLen > |recvBuf| {
        ParseUnfinished(s);
        return Overread;
      }
      ParseNext(s);
      ghost var w := s[..PacketLen(s[0])];
      HostFramesSnoc(ws, w, busOffset);
      SameHeader(s, w);
      var h := HeaderOf(recvBuf[pos..]);
      assert recvBuf[pos + HEAD_SIZE..pos + HEAD_SIZE + dataLen] == w[HEAD_SIZE..];
      assert recvBuf[pos + HEAD_SIZE + dataLen..] == s[|w|..];
      out := out + [Message(h.addr, h.bus + busOffset + 0x80 * h.returned + 0xC0 * h.rejected,
                            recvBuf[pos + HEAD_SIZE..pos + HEAD_SIZE + dataLen])];
      Assoc(ws, [w], Parse(s[|w|..]).frames);
      ws := ws + [w];
      pos := pos + HEAD_SIZE + dataLen;
    }
    assert recvBuf[pos..] == [];
    ParseUnfinished([]);
    NothingLeft(ws, []);
    u := Frames(out);
  }

  lemma NoHostFrames(busOffset: nat)
    ensures AllWire([]) && HostFrames([], busOffset) == [] && Split([], []).frames == []
  {
  }

  lemma SameHeader(s: seq<byte>, w: seq<byte>)
    requires |w| >= HEAD_SIZE && w <= s
    ensures HeaderOf(s) == HeaderOf(w)
  {
    assert forall i :: 0 <= i < |w| ==> s[i] == w[i];
  }

  /** The payload up to the first wrong counter. */
  function GoodPayload(t: seq<byte>, c: nat): seq<byte> {
    if |t| == 0 || t[0] as int != c then [] else t[1..Min(|t|, 64)] + GoodPayload(t[Min(|t|, 64)..], c + 1)
  }

  lemma {:induction false} AllGood(t: seq<byte>, c: nat)
    requires CountersRight(t, c)
    ensures GoodPayload(t, c) == Unframed(t)
  {
    if |t| > 0 {
      AllGood(t[Min(|t|, 64)..], c + 1);
    }
  }

  /** The payload is that of the n packets before the first with a wrong counter. */
  lemma {:induction false} GoodUpTo(t: seq<byte>, c: nat, n: nat)
    requires 64 * n < |t| && CountersRight(t[..64 * n], c) && t[64 * n] as int != c + n
    ensures GoodPayload(t, c) == Unframed(t[..64 * n])
    decreases n
  {
    if n > 0 {
      var front, rest := t[..64], t[64..];
      assert t[..64 * n] == front + rest[..64 * (n - 1)];
      FrontPacket(front, rest[..64 * (n - 1)]);
      GoodUpTo(rest, c + 1, n - 1);
    }
  }

  /** unpack_can_buffer of panda/python/__init__.py, with the DLC_TO_LEN lookup. */
  method PythonUnpack(dat: seq<byte>) returns (ret: seq<Message>)
    ensures ret == HostFrames(Parse(GoodPayload(dat, 0)).frames, 0)
  {
    hide Parse, HostFrames, Ahead, AllWire, PacketLen;
    ret := [];
    ghost var ws: seq<seq<byte>> := [];
    ghost var goal := Parse(GoodPayload(dat, 0));
    var counter: int, rest, tail: seq<byte> := 0, dat, [];
    NoHostFrames(0);
    ParseUnfinished([]);
    StartAhead([], GoodPayload(dat, 0));
    while rest != [] && counter == rest[0] as int
      invariant counter >= 0 && AllWire(ws) && ret == HostFrames(ws, 0)
      invariant Ahead([], goal, ws, tail + GoodPayload(rest, counter)) && Parse(tail) == Split([], tail)
      decreases |rest|
    {
      var data := rest[1..Min(|rest|, PACKET_SIZE)];
      ghost var todo := GoodPayload(rest, counter);
      assert todo[..|data|] == data && todo[|data|..] == GoodPayload(rest[Min(|rest|, PACKET_SIZE)..], counter + 1);
      NextPacket([], goal, ws, tail, todo, |data|);
      var chunk := tail + data;
      ParseUnfinished(Parse(chunk).rest);
      var more;
      more, tail := PythonSplit(chunk);
      HostFramesConcat(ws, Parse(chunk).frames, 0);
      ret := ret + more;
      ws := ws + Parse(chunk).frames;
      rest, counter := rest[Min(|rest|, PACKET_SIZE)..], counter + 1;
    }
    NothingLeft(tail, GoodPayload(rest, counter));
    AllTaken([], goal, ws, tail);
    assert [] + goal.frames == goal.frames;
  }

  method PythonSplit(chunk: seq<byte>) returns (ret: seq<Message>, tail: seq<byte>)
    ensures ret == HostFrames(Parse(chunk).frames, 0) && tail == Parse(chunk).rest
  {
    hide Parse, HostFrame, HostFrames, AllWire, PacketLen, DlcToLen;
    ret, tail := [], [];
    ghost var ws: seq<seq<byte>> := [];
    NoHostFrames(0);
    ParseUnfinished([]);
    var pos := 0;
    assert chunk[0..] == chunk;
    while pos < |chunk|
      invariant 0 <= pos <= |chunk| && AllWire(ws) && ret == HostFrames(ws, 0)
      invariant Parse(chunk) == Split(ws + Parse(chunk[pos..]).frames, Parse(chunk[pos..]).rest)
      decreases |chunk| - pos
    {
      ghost var s := chunk[pos..];
      var pcktLen := PacketLen(chunk[pos]);
      if pcktLen > |chunk[pos..]| {
        ParseUnfinished(s);
        NothingLeft(ws, []);
        return ret, chunk[pos..];
      }
      ParseNext(s);
      ghost var w := s[..pcktLen];
      HostFramesSnoc(ws, w, 0);
      PythonReadsHostFrame(w);
      FrameData(chunk, pos, pcktLen);
      assert chunk[pos + pcktLen..] == s[pcktLen..];
      var header := chunk[pos..pos + HEAD_SIZE];
      var bus := header[0] as int / 2 % 8;
      var address := (0x100_0000 * header[4] as int + 0x1_0000 * header[3] as int
                      + 0x100 * header[2] as int + header[1] as int) / 8;
      var returned, rejected := header[1] as int / 2 % 2, header[1] as int % 2;
      if returned == 1 {
        bus := bus + 128;
      }
      if rejected == 1 {
        bus := bus + 192;
      }
      ret := ret + [Message(address, bus, chunk[pos + HEAD_SIZE..pos + pcktLen])];
      Assoc(ws, [w], Parse(s[pcktLen..]).frames);
      ws := ws + [w];
      pos := pos + pcktLen;
    }
    assert chunk[pos..] == [];
    NothingLeft(ws, []);
  }

  lemma FrameData(chunk: seq<byte>, pos: nat, n: nat)
    requires HEAD_SIZE <= n && pos + n <= |chunk|
    ensures chunk[pos + HEAD_SIZE..pos + n] == chunk[pos..][..n][HEAD_SIZE..n]
  {
  }

  lemma HostFramesConcat(a: seq<seq<byte>>, b: seq<seq<byte>>, busOffset: nat)
    requires AllWire(a) && AllWire(b)
    ensures AllWire(a + b) && HostFrames(a + b, busOffset) == HostFrames(a, busOffset) + HostFrames(b, busOffset)
  {
  }

  // ---- End to end

  function Decoded(ws: seq<seq<byte>>): (ms: seq<Message>)
    requires AllWire(ws)
    ensures |ms| == |ws|
  {
    seq(|ws|, i requires 0 <= i < |ws| => MessageOf(ws[i]))
  }

  lemma DecodedSnoc(ws: seq<seq<byte>>, w: seq<byte>)
    requires AllWire(ws) && Wire(w)
    ensures AllWire(ws + [w]) && Decoded(ws + [w]) == Decoded(ws) + [MessageOf(w)]
  {
  }

  lemma DecodedNone()
    ensures AllWire([]) && Decoded([]) == []
  {
  }

  /** The messages for this panda, with relative bus numbers. */
  function Addressed(msgs: seq<Message>, busOffset: nat): seq<Message> {
    if msgs == [] then []
    else
      var k := |msgs| - 1;
      Addressed(msgs[..k], busOffset)
      + if ForBus(msgs[k], busOffset) then [msgs[k].(bus := msgs[k].bus - busOffset)] else []
  }

  /** A panda takes a message for one of its own four buses, with the number of the bus on the panda. */
  lemma AddressedOne(m: Message, panda: nat)
    ensures Addressed([m], 4 * panda) == if m.bus / 4 == panda then [m.(bus := m.bus % 4)] else []
  {
    EveryBusOnce(m, panda);
    assert [m][..0] == [] && Addressed([m][..0], 4 * panda) == [];
  }

  /** It takes, of any two lists in a row, what it takes of each, in order. */
  lemma {:induction false} AddressedInOrder(msgs: seq<Message>, more: seq<Message>, busOffset: nat)
    ensures Addressed(msgs + more, busOffset) == Addressed(msgs, busOffset) + Addressed(more, busOffset)
  {
    hide ForBus;
    if more == [] {
      assert msgs + more == msgs;
    } else {
      var k := |more| - 1;
      assert (msgs + more)[..|msgs| + k] == msgs + more[..k];
      AddressedInOrder(msgs, more[..k], busOffset);
    }
  }

  lemma {:induction false} SelectedDecodes(msgs: seq<Message>, spare: seq<nat>, busOffset: nat)
    requires |spare| == |msgs|
    requires forall i :: 0 <= i < |msgs| && ForBus(msgs[i], busOffset) ==>
        Sendable(msgs[i].(bus := msgs[i].bus - busOffset))
    ensures AllWire(Selected(msgs, spare, busOffset))
    ensures Decoded(Selected(msgs, spare, busOffset)) == Addressed(msgs, busOffset)
  {
    hide Sendable, MessageOf, WireOf, AllWire, Decoded, Wire;
    DecodedNone();
    if msgs != [] {
      var k := |msgs| - 1;
      SelectedDecodes(msgs[..k], spare[..k], busOffset);
      if ForBus(msgs[k], busOffset) {
        var m := msgs[k].(bus := msgs[k].bus - busOffset);
        WireRoundTrip(m, spare[k]);
        DecodedSnoc(Selected(msgs[..k], spare[..k], busOffset), WireOf(m, spare[k]));
      } else {
        NothingLeft(Selected(msgs[..k], spare[..k], busOffset), []);
        NothingLeft(Addressed(msgs[..k], busOffset), []);
      }
    }
  }

  lemma {:induction false} PlainDecodes(msgs: seq<Message>)
    requires forall i :: 0 <= i < |msgs| ==> Sendable(msgs[i])
    ensures AllWire(PlainWires(msgs))
    ensures Decoded(PlainWires(msgs)) == msgs
  {
    hide Sendable, MessageOf, WireOf, AllWire, Decoded, Wire;
    DecodedNone();
    if msgs != [] {
      var init, m := msgs[..|msgs| - 1], msgs[|msgs| - 1];
      PlainDecodes(init);
      WireRoundTrip(m, 0);
      DecodedSnoc(PlainWires(init), WireOf(m, 0));
      assert msgs == init + [m];
    }
  }

  /** Every transfer into endpoint 3, in order. */
  method Deliver(board: Ep3, transfers: seq<seq<byte>>)
    requires board.Valid() && forall i :: 0 <= i < |transfers| ==> WellSent(transfers[i])
    modifies board, board.data
    ensures board.Valid() && board.sent == old(board.sent) + FramesOf(transfers)
  {
    hide Parse, Unframed, Framed;
    var stale: seq<byte> := seq(PACKET_SIZE, _ => 0);
    assert transfers[..0] == [];
    for i := 0 to |transfers|
      invariant board.Valid() && board.sent == old(board.sent) + FramesOf(transfers[..i])
    {
      assert transfers[..i + 1][..i] == transfers[..i];
      Assoc(old(board.sent), FramesOf(transfers[..i]), Parse(Unframed(transfers[i])).frames);
      board.ReceiveTransfer(transfers[i], stale, Unframed(transfers[i]));
    }
    assert transfers[..|transfers|] == transfers;
  }

  /** boardd to the board: can_send is called with exactly the messages for this panda, in order. */
  method CanSend(board: Ep3, msgs: seq<Message>, spare: seq<nat>, busOffset: nat)
    requires board.Valid() && board.sent == [] && |spare| == |msgs|
    requires forall i :: 0 <= i < |msgs| && ForBus(msgs[i], busOffset) ==>
        Sendable(msgs[i].(bus := msgs[i].bus - busOffset))
    modifies board, board.data
    ensures board.Valid() && AllWire(board.sent) && Decoded(board.sent) == Addressed(msgs, busOffset)
  {
    hide Sendable, AllWire, Decoded, WellSent;
    var transfers := PackCanBuffer(msgs, spare, busOffset);
    SelectedDecodes(msgs, spare, busOffset);
    Deliver(board, transfers);
    assert [] + FramesOf(transfers) == FramesOf(transfers);
  }

  /** The same from the Python library. */
  method CanSendMany(board: Ep3, msgs: seq<Message>)
    requires board.Valid() && board.sent == []
    requires forall i :: 0 <= i < |msgs| ==> Sendable(msgs[i])
    modifies board, board.data
    ensures board.Valid() && AllWire(board.sent) && Decoded(board.sent) == msgs
  {
    hide Sendable, AllWire, Decoded, WellSent;
    var transfers := PythonPack(msgs);
    PlainDecodes(msgs);
    Deliver(board, transfers);
    assert [] + FramesOf(transfers) == FramesOf(transfers);
  }

  /**
   * Board to both hosts, for frames of any length.  One transfer, decoded by
   * each, is exactly the popped frames, unless the queue and the arrivals make
   * it cut a frame; then both hosts lose that frame, the C++ one by reading
   * past its buffer.  Classic frames are never cut.
   */
  method CanReceive(board: Ep1, arrivals: nat -> seq<seq<byte>>)
    returns (boardd: Unpacked, python: seq<Message>, ghost popped: seq<seq<byte>>)
    requires board.Valid() && board.AtStart()
    requires forall k :: AllWire(arrivals(k))
    modifies board, board.data
    ensures board.Valid() && AllWire(popped)
    ensures exists n :: n <= 256 && old(board.queue) + Arrived(arrivals, n) == popped + board.queue
    ensures board.AtStart() <==> !Cuts(old(board.queue), arrivals)
    ensures !Cuts(old(board.queue), arrivals) ==> python == HostFrames(popped, 0) && boardd == Frames(python)
    ensures Cuts(old(board.queue), arrivals) ==>
              popped != [] && python == HostFrames(popped[..|popped| - 1], 0) && boardd == Overread
    ensures Classic(old(board.queue)) && (forall k :: Classic(arrivals(k))) ==> !Cuts(old(board.queue), arrivals)
  {
    hide Framed, Flatten, Parse, HostFrames, GoodPayload, Unframed, CountersRight, PacketLen, Arrived, AllWire, Cuts;
    ghost var start := board.queue;
    if Classic(start) && forall k :: Classic(arrivals(k)) {
      ClassicFits(start, arrivals);
    }
    ArrivedWire(arrivals);
    var t, n;
    t, n, popped := board.ReadTransfer(arrivals);
    PoppedWire(start, Arrived(arrivals, n), popped, board.queue);
    UnframedFramed(Unframed(t), 0);
    AllGood(t, 0);
    if board.AtStart() {
      NothingLeft(Unframed(t), board.Pending());
      ParseFlatten(popped, []);
      ParseUnfinished([]);
      NothingLeft(Flatten(popped), []);
      NothingLeft(popped, []);
    } else {
      CutFrame(popped, Unframed(t), board.Pending());
    }
    boardd := UnpackCanBuffer(t, 0);
    python := PythonUnpack(t);
  }

  lemma ArrivedWire(arrivals: nat -> seq<seq<byte>>)
    requires forall k :: AllWire(arrivals(k))
    ensures forall n :: AllWire(Arrived(arrivals, n))
  {
    forall n
      ensures AllWire(Arrived(arrivals, n))
    {
      ArrivedWireTo(arrivals, n);
    }
  }

  lemma {:induction false} ArrivedWireTo(arrivals: nat -> seq<seq<byte>>, n: nat)
    requires forall k :: AllWire(arrivals(k))
    ensures AllWire(Arrived(arrivals, n))
  {
    if n > 0 {
      ArrivedWireTo(arrivals, n - 1);
      assert AllWire(arrivals(n - 1));
    }
  }

  lemma PoppedWire(start: seq<seq<byte>>, news: seq<seq<byte>>, popped: seq<seq<byte>>, rest: seq<seq<byte>>)
    requires AllWire(start) && AllWire(news) && start + news == popped + rest
    ensures AllWire(popped)
  {
    assert forall i :: 0 <= i < |popped| ==> popped[i] == (start + news)[i];
  }
}
