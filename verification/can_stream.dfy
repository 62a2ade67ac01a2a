// CAN frames on the USB wire: the packed header, frames laid end to end, and the counter byte that
// starts every 64-byte packet (panda/board/can_definitions.h, selfdrive/boardd/panda.h).

module CanStream {
  import opened Words

  const HEAD_SIZE: nat := 5
  const PACKET_SIZE: nat := 64

  /** The dlc_to_len table. */
  function DlcToLen(dlc: nat): (n: nat)
    requires dlc < 16
    ensures n <= 64
  {
    if dlc <= 8 then dlc else [12, 16, 20, 24, 32, 48, 64][dlc - 9]
  }

  /** The bit-field header: one byte reserved:1 bus:3 data_len_code:4, then rejected:1 returned:1 extended:1 addr:29. */
  datatype Header = Header(reserved: nat, bus: nat, dlc: nat, rejected: nat, returned: nat, extended: nat, addr: nat)

  predicate HeaderFits(h: Header) {
    h.reserved < 2 && h.bus < 8 && h.dlc < 16 && h.rejected < 2 && h.returned < 2 && h.extended < 2
        && h.addr < 0x2000_0000
  }

  function Word4(h: Header): (w: nat)
    requires HeaderFits(h)
    ensures w < TWO_32
  {
    h.addr * 8 + h.extended * 4 + h.returned * 2 + h.rejected
  }

  function HeaderBytes(h: Header): (s: seq<byte>)
    requires HeaderFits(h)
    ensures |s| == HEAD_SIZE
  {
    [h.dlc * 16 + h.bus * 2 + h.reserved] + LittleEndian(Word4(h), 4)
  }

  function HeaderOf(s: seq<byte>): (h: Header)
    requires |s| >= HEAD_SIZE
    ensures HeaderFits(h) && h.dlc == s[0] / 16
  {
    var (b0, b1, b2, b3, b4) := (s[0] as int, s[1] as int, s[2] as int, s[3] as int, s[4] as int);
    Header(b0 % 2, b0 / 2 % 8, b0 / 16, b1 % 2, b1 / 2 % 2, b1 / 4 % 2, b1 / 8 + 32 * b2 + 0x2000 * b3 + 0x20_0000 * b4)
  }

  lemma HeadByteFields(dlc: nat, bus: nat, reserved: nat)
    requires dlc < 16 && bus < 8 && reserved < 2
    ensures var b := dlc * 16 + bus * 2 + reserved;
            b < 256 && b % 2 == reserved && b / 2 % 8 == bus && b / 16 == dlc
  {
    assert (dlc * 16 + bus * 2 + reserved) / 2 == dlc * 8 + bus;
  }

  lemma HeaderRoundTrip(h: Header)
    requires HeaderFits(h)
    ensures HeaderOf(HeaderBytes(h)) == h
  {
    hide LittleEndian, Word4;
    var s := HeaderBytes(h);
    HeadByteFields(h.dlc, h.bus, h.reserved);
    Word4Bytes(Word4(h));
    assert s[1..] == LittleEndian(Word4(h), 4);
    Word4Fields(h, s[1] as int, s[2] as int, s[3] as int, s[4] as int);
  }

  /** Only the first five bytes matter. */
  lemma HeaderPrefix(h: Header, dat: seq<byte>)
    requires HeaderFits(h)
    ensures HeaderOf(HeaderBytes(h) + dat) == h
  {
    hide HeaderBytes;
    HeaderRoundTrip(h);
    assert forall i :: 0 <= i < 5 ==> (HeaderBytes(h) + dat)[i] == HeaderBytes(h)[i];
  }

  lemma Word4Bytes(w: nat)
    requires w < TWO_32
    ensures var s := LittleEndian(w, 4);
            w == s[0] as int + 256 * s[1] as int + 0x1_0000 * s[2] as int + 0x100_0000 * s[3] as int
  {
    var w1, w2, w3 := w / 256, w / 0x1_0000, w / 0x100_0000;
    assert LittleEndian(w3, 1) == [w3 % 256];
    assert LittleEndian(w2, 2) == [w2 % 256, w3 % 256];
    assert LittleEndian(w1, 3) == [w1 % 256, w2 % 256, w3 % 256];
  }

  lemma Word4Fields(h: Header, b1: nat, b2: nat, b3: nat, b4: nat)
    requires HeaderFits(h) && b1 < 256 && Word4(h) == b1 + 256 * b2 + 0x1_0000 * b3 + 0x100_0000 * b4
    ensures b1 % 2 == h.rejected && b1 / 2 % 2 == h.returned && b1 / 4 % 2 == h.extended
    ensures b1 / 8 + 32 * b2 + 0x2000 * b3 + 0x20_0000 * b4 == h.addr
  {
    var high := 32 * b2 + 0x2000 * b3 + 0x20_0000 * b4;
    var low := h.addr - high;
    assert b1 == 8 * low + 4 * h.extended + 2 * h.returned + h.rejected;
    assert b1 / 2 == 4 * low + 2 * h.extended + h.returned;
    assert b1 / 4 == 2 * low + h.extended;
    assert b1 / 8 == low;
  }

  // ---- Frames end to end

  /** The length of the frame that starts with this byte. */
  function PacketLen(first: byte): (n: nat)
    ensures HEAD_SIZE <= n <= 69
  {
    HEAD_SIZE + DlcToLen(first / 16)
  }

  predicate Wire(w: seq<byte>) {
    |w| > 0 && |w| == PacketLen(w[0])
  }

  predicate AllWire(ws: seq<seq<byte>>) {
    forall i :: 0 <= i < |ws| ==> Wire(ws[i])
  }

  function Flatten(ws: seq<seq<byte>>): seq<byte> {
    if ws == [] then [] else ws[0] + Flatten(ws[1..])
  }

  /** A byte stream cut greedily into frames; `rest` is an unfinished frame. */
  datatype Split = Split(frames: seq<seq<byte>>, rest: seq<byte>)

  function Parse(s: seq<byte>): (p: Split)
    ensures AllWire(p.frames)
    ensures p.rest != [] ==> |p.rest| < PacketLen(p.rest[0])
  {
    if |s| == 0 || |s| < PacketLen(s[0]) then Split([], s)
    else
      var n := PacketLen(s[0]);
      var p := Parse(s[n..]);
      Split([s[..n]] + p.frames, p.rest)
  }

  lemma {:induction false} ParseLosesNothing(s: seq<byte>)
    ensures Flatten(Parse(s).frames) + Parse(s).rest == s
  {
    if !(|s| == 0 || |s| < PacketLen(s[0])) {
      var n := PacketLen(s[0]);
      ParseLosesNothing(s[n..]);
      var p := Parse(s[n..]);
      assert Parse(s).frames[1..] == p.frames;
      assert s == s[..n] + s[n..];
    }
  }

  lemma ParseNext(s: seq<byte>)
    requires s != [] && |s| >= PacketLen(s[0])
    ensures var n := PacketLen(s[0]);
            Wire(s[..n]) && Parse(s) == Split([s[..n]] + Parse(s[n..]).frames, Parse(s[n..]).rest)
  {
  }

  lemma ParseFront(w: seq<byte>, s: seq<byte>)
    requires Wire(w)
    ensures Parse(w + s) == Split([w] + Parse(s).frames, Parse(s).rest)
  {
    assert (w + s)[..|w|] == w && (w + s)[|w|..] == s;
  }

  /** Frames laid end to end are found again. */
  lemma {:induction false} ParseFlatten(ws: seq<seq<byte>>, rest: seq<byte>)
    requires AllWire(ws)
    ensures Parse(Flatten(ws) + rest) == Split(ws + Parse(rest).frames, Parse(rest).rest)
  {
    hide Parse, PacketLen;
    if ws == [] {
      assert Flatten(ws) + rest == rest;
      assert ws + Parse(rest).frames == Parse(rest).frames;
    } else {
      var tail := Flatten(ws[1..]) + rest;
      assert Wire(ws[0]);
      assert Flatten(ws) + rest == ws[0] + tail;
      ParseFront(ws[0], tail);
      ParseFlatten(ws[1..], rest);
      assert ws + Parse(rest).frames == [ws[0]] + (ws[1..] + Parse(rest).frames);
    }
  }

  /** Reading in two portions: the unfinished frame is completed by the second. */
  lemma ParseConcat(x: seq<byte>, y: seq<byte>)
    ensures var p, q := Parse(x), Parse(Parse(x).rest + y);
            Parse(x + y) == Split(p.frames + q.frames, q.rest)
  {
    hide Parse, Flatten, AllWire;
    ParseLosesNothing(x);
    var p := Parse(x);
    assert x + y == Flatten(p.frames) + (p.rest + y);
    ParseFlatten(p.frames, p.rest + y);
  }

  lemma {:induction false} FlattenConcat(a: seq<seq<byte>>, b: seq<seq<byte>>)
    ensures Flatten(a + b) == Flatten(a) + Flatten(b)
  {
    if a == [] {
      assert a + b == b;
    } else {
      assert (a + b)[1..] == a[1..] + b;
      FlattenConcat(a[1..], b);
    }
  }

  lemma FlattenSnoc(ws: seq<seq<byte>>, w: seq<byte>)
    ensures Flatten(ws + [w]) == Flatten(ws) + w
  {
    FlattenConcat(ws, [w]);
    assert Flatten([w]) == w;
  }

  // ---- Packets

  /** The payload with a counter byte before every 63 bytes, the first counter being `c`. */
  function Framed(p: seq<byte>, c: nat): seq<byte> {
    if |p| == 0 then []
    else if |p| <= 63 then [c % 256] + p
    else [c % 256] + p[..63] + Framed(p[63..], c + 1)
  }

  function FramedLen(n: nat): nat {
    n + (n + 62) / 63
  }

  lemma {:induction false} FramedLength(p: seq<byte>, c: nat)
    ensures |Framed(p, c)| == FramedLen(|p|)
  {
    if |p| > 63 {
      FramedLength(p[63..], c + 1);
    }
  }

  lemma PacketLess(n: nat)
    requires n >= 63
    ensures (n - 63) % 63 == n % 63 && 1 + (n - 63) / 63 == n / 63
  {
  }

  /** One more byte, preceded by a counter when it starts a packet. */
  lemma {:induction false} FramedByte(p: seq<byte>, b: byte, c: nat)
    ensures Framed(p + [b], c) == Framed(p, c) + (if |p| % 63 == 0 then [(c + |p| / 63) % 256] else []) + [b]
  {
    if |p| > 63 {
      assert (p + [b])[..63] == p[..63] && (p + [b])[63..] == p[63..] + [b];
      FramedByte(p[63..], b, c + 1);
      PacketLess(|p|);
    } else if |p| == 63 {
      assert (p + [b])[..63] == p && (p + [b])[63..] == [b];
    }
  }

  /** One packet more after full packets. */
  lemma {:induction false} FramedAppend(p: seq<byte>, chunk: seq<byte>, c: nat)
    requires |p| % 63 == 0 && |chunk| <= 63
    ensures Framed(p + chunk, c) == Framed(p, c) + if chunk == [] then [] else [(c + |p| / 63) % 256] + chunk
    decreases |p|
  {
    if |p| == 0 {
      assert p + chunk == chunk;
    } else if chunk == [] {
      assert p + chunk == p;
    } else {
      assert (p + chunk)[..63] == p[..63] && (p + chunk)[63..] == p[63..] + chunk;
      FramedAppend(p[63..], chunk, c + 1);
      assert 1 + |p[63..]| / 63 == |p| / 63;
      assert p[63..] == [] ==> p[..63] == p;
    }
  }

  /** Where a packet starts, in the payload and in the framed bytes. */
  lemma PacketStart(n: nat)
    ensures FramedLen(n) % 64 == 0 <==> n % 63 == 0
    ensures n % 63 == 0 ==> FramedLen(n) / 64 == n / 63
  {
    var q, r := n / 63, n % 63;
    assert n == 63 * q + r;
    assert (n + 62) / 63 == q + if r == 0 then 0 else 1;
  }

  /** The counter bytes dropped again. */
  function Unframed(t: seq<byte>): seq<byte> {
    if |t| == 0 then [] else t[1..Min(|t|, 64)] + Unframed(t[Min(|t|, 64)..])
  }

  /** Every counter is right, counting from `c`. */
  predicate CountersRight(t: seq<byte>, c: nat) {
    |t| > 0 ==> t[0] == c && CountersRight(t[Min(|t|, 64)..], c + 1)
  }

  /** Packet k, if there is one, starts with the counter that follows from c. */
  predicate CounterAt(t: seq<byte>, k: nat, c: nat) {
    64 * k < |t| ==> t[64 * k] as int == c + k
  }

  /** The counters are the bytes at the multiples of 64, and they count up. */
  lemma {:induction false} CountersRightIff(t: seq<byte>, c: nat)
    ensures CountersRight(t, c) <==> forall k: nat :: CounterAt(t, k, c)
    decreases |t|
  {
    if |t| > 0 {
      var rest := t[Min(|t|, 64)..];
      CountersRightIff(rest, c + 1);
      assert CounterAt(t, 0, c) <==> t[0] as int == c;
      if CountersRight(rest, c + 1) {
        forall k: nat | k > 0
          ensures CounterAt(t, k, c)
        {
          LaterCounter(t, k - 1, c);
        }
      } else {
        var k: nat :| !CounterAt(rest, k, c + 1);
        LaterCounter(t, k, c);
      }
    }
  }

  lemma LaterCounter(t: seq<byte>, k: nat, c: nat)
    requires |t| > 0
    ensures CounterAt(t, k + 1, c) <==> CounterAt(t[Min(|t|, 64)..], k, c + 1)
  {
    if 64 * (k + 1) < |t| {
      assert t[64..][64 * k] == t[64 * (k + 1)];
    }
  }

  lemma FrontPacket(first: seq<byte>, t: seq<byte>)
    requires |first| == 64
    ensures Unframed(first + t) == first[1..] + Unframed(t)
    ensures forall c: nat :: CountersRight(first + t, c) <==> first[0] == c && CountersRight(t, c + 1)
  {
    assert (first + t)[1..64] == first[1..] && (first + t)[64..] == t;
  }

  lemma {:induction false} UnframedFramed(p: seq<byte>, c: nat)
    ensures Unframed(Framed(p, c)) == p
    ensures c * 63 + |p| <= 63 * 256 ==> CountersRight(Framed(p, c), c)
  {
    if |p| > 63 {
      var t, first := Framed(p, c), [c % 256] + p[..63];
      UnframedFramed(p[63..], c + 1);
      FrontPacket(first, Framed(p[63..], c + 1));
      assert t == first + Framed(p[63..], c + 1) && first[1..] == p[..63];
    } else if |p| > 0 {
      assert Framed(p, c)[Min(|Framed(p, c)|, 64)..] == [];
    }
  }

  /** A frame begun in `r` and finished by `q` needs its missing bytes from `q`. */
  lemma FinishedBy(r: seq<byte>, q: seq<byte>)
    requires Parse(r).frames == [] && r != [] && Parse(r + q).rest == []
    ensures |r| + |q| >= PacketLen(r[0]) > |r|
  {
  }

  // ---- Whole transfers

  /** A transfer the board can take: counters right, no frame cut off at its end. */
  ghost predicate WellSent(t: seq<byte>) {
    var p := Unframed(t);
    t == Framed(p, 0) && |p| <= 63 * 256 && Parse(p).rest == []
  }

  function FramesOf(transfers: seq<seq<byte>>): seq<seq<byte>> {
    if transfers == [] then []
    else FramesOf(transfers[..|transfers| - 1]) + Parse(Unframed(transfers[|transfers| - 1])).frames
  }

  /** One more transfer that carries the frames `ws`. */
  lemma SendFrames(transfers: seq<seq<byte>>, ws: seq<seq<byte>>)
    requires AllWire(ws) && |Flatten(ws)| <= 63 * 256
    ensures var t := Framed(Flatten(ws), 0); WellSent(t) && FramesOf(transfers + [t]) == FramesOf(transfers) + ws
  {
    var p := Flatten(ws);
    var t := Framed(p, 0);
    UnframedFramed(p, 0);
    ParseFlatten(ws, []);
    assert p + [] == p && ws + [] == ws;
    assert (transfers + [t])[..|transfers|] == transfers;
  }
}
