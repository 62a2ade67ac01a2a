// Streaming SHA-1 of panda/crypto/sha.c against FIPS 180-4.

module Sha1 {
  import opened Words

  type Octet = bv8
  type Word32 = bv32

  const DIGEST_SIZE: nat := 20

  // ---- FIPS 180-4

  function Rotl(n: bv6, x: Word32): Word32
    requires n <= 32
  {
    (x << n) | (x >> (32 - n))
  }

  /** Section 4.1.1. */
  function Ch(x: Word32, y: Word32, z: Word32): Word32 { (x & y) ^ (!x & z) }

  function Parity(x: Word32, y: Word32, z: Word32): Word32 { x ^ y ^ z }

  function Maj(x: Word32, y: Word32, z: Word32): Word32 { (x & y) ^ (x & z) ^ (y & z) }

  function F(t: nat, x: Word32, y: Word32, z: Word32): Word32 {
    if t < 20 then Ch(x, y, z) else if t < 40 then Parity(x, y, z) else if t < 60 then Maj(x, y, z) else Parity(x, y, z)
  }

  /** Section 4.2.1. */
  function K(t: nat): Word32 {
    if t < 20 then 0x5a827999 else if t < 40 then 0x6ed9eba1 else if t < 60 then 0x8f1bbcdc else 0xca62c1d6
  }

  datatype State = State(a: Word32, b: Word32, c: Word32, d: Word32, e: Word32)

  /** Section 5.3.1. */
  const INITIAL: State := State(0x67452301, 0xefcdab89, 0x98badcfe, 0x10325476, 0xc3d2e1f0)

  function BigEndianWord(s: seq<Octet>, at: nat): Word32
    requires at + 4 <= |s|
  {
    (s[at] as bv32 << 24) | (s[at + 1] as bv32 << 16) | (s[at + 2] as bv32 << 8) | (s[at + 3] as bv32)
  }

  /** Section 6.1.2, step 1: the message schedule. */
  function Schedule(block: seq<Octet>, t: nat): Word32
    requires |block| == 64
  {
    if t < 16 then BigEndianWord(block, 4 * t)
    else Rotl(1, Schedule(block, t - 3) ^ Schedule(block, t - 8) ^ Schedule(block, t - 14) ^ Schedule(block, t - 16))
  }

  /** Section 6.1.2, step 3: the sum T, modulo 2^32. */
  function Sum5(rotated: Word32, f: Word32, e: Word32, k: Word32, w: Word32): Word32 {
    rotated + f + e + k + w
  }

  /** Section 6.1.2, step 3: one round. */
  function Round(block: seq<Octet>, t: nat, s: State): State
    requires |block| == 64
  {
    State(Sum5(Rotl(5, s.a), F(t, s.b, s.c, s.d), s.e, K(t), Schedule(block, t)), s.a, Rotl(30, s.b), s.c, s.d)
  }

  function Rounds(block: seq<Octet>, t: nat, s: State): State
    requires |block| == 64
  {
    if t == 0 then s else Round(block, t - 1, Rounds(block, t - 1, s))
  }

  /** Addition modulo 2^32. */
  function Add(x: Word32, y: Word32): Word32 { x + y }

  function Plus(s: State, t: State): State {
    State(Add(s.a, t.a), Add(s.b, t.b), Add(s.c, t.c), Add(s.d, t.d), Add(s.e, t.e))
  }

  /** Section 6.1.2: one block. */
  function Compress(s: State, block: seq<Octet>): State
    requires |block| == 64
  {
    Plus(s, Rounds(block, 80, s))
  }

  /** All complete blocks of `m`. */
  function Absorb(s: State, m: seq<Octet>): State
    decreases |m|
  {
    if |m| < 64 then s else Absorb(Compress(s, m[..64]), m[64..])
  }

  function Zeros(n: nat): (s: seq<Octet>)
    ensures |s| == n && forall i :: 0 <= i < n ==> s[i] == 0
  {
    if n == 0 then [] else Zeros(n - 1) + [0]
  }

  lemma ZerosStep(m: seq<Octet>, n: nat)
    ensures m + Zeros(0) == m && m + Zeros(n) + [0] == m + Zeros(n + 1)
  {
  }

  /** The smallest k with len + 1 + k = 56 modulo 64. */
  function ZeroCount(len: nat): (k: nat)
    ensures k < 64 && (len + 1 + k) % 64 == 56
  {
    (119 - len % 64) % 64
  }

  /** Big-endian 64-bit length. */
  function Length64(bits: nat): (s: seq<Octet>)
    ensures |s| == 8
  {
    seq(8, i requires 0 <= i < 8 => LengthByte(bits, i))
  }

  lemma Length64At(bits: nat, i: nat)
    requires i < 8
    ensures Length64(bits)[..i] + [LengthByte(bits, i)] == Length64(bits)[..i + 1]
  {
  }

  function LengthByte(bits: nat, i: nat): Octet
    requires i < 8
  {
    (bits / Power256(7 - i) % 256) as bv8
  }

  /** Section 5.1.1. */
  function Pad(m: seq<Octet>): seq<Octet> {
    m + [0x80] + Zeros(ZeroCount(|m|)) + Length64(8 * |m|)
  }

  function WordOctets(w: Word32): seq<Octet> {
    [((w >> 24) & 0xff) as bv8, ((w >> 16) & 0xff) as bv8, ((w >> 8) & 0xff) as bv8, (w & 0xff) as bv8]
  }

  function Digest(s: State): (d: seq<Octet>)
    ensures |d| == DIGEST_SIZE
  {
    WordOctets(s.a) + WordOctets(s.b) + WordOctets(s.c) + WordOctets(s.d) + WordOctets(s.e)
  }

  function Sha1(m: seq<Octet>): (d: seq<Octet>)
    ensures |d| == DIGEST_SIZE
  {
    Digest(Absorb(INITIAL, Pad(m)))
  }

  // ---- Facts about the specification

  /** The code's forms of Ch and Maj, and the order in which it adds the five terms of T. */
  function CodeChoice(B: Word32, C: Word32, D: Word32): Word32 { D ^ (B & (C ^ D)) }

  function CodeMajority(B: Word32, C: Word32, D: Word32): Word32 { (B & C) | (D & (B | C)) }

  function CodeSum(rotated: Word32, E: Word32, w: Word32, f: Word32, k: Word32): Word32 { (rotated + E + w) + (f + k) }

  lemma ChoiceBits(B: Word32, C: Word32, D: Word32)
    ensures D ^ (B & (C ^ D)) == (B & C) ^ (!B & D)
  {
  }

  lemma MajorityBits(B: Word32, C: Word32, D: Word32)
    ensures (B & C) | (D & (B | C)) == (B & C) ^ (B & D) ^ (C & D)
  {
  }

  lemma ChoiceForm(B: Word32, C: Word32, D: Word32)
    ensures CodeChoice(B, C, D) == Ch(B, C, D)
  {
    ChoiceBits(B, C, D);
  }

  lemma MajorityForm(B: Word32, C: Word32, D: Word32)
    ensures CodeMajority(B, C, D) == Maj(B, C, D)
  {
    MajorityBits(B, C, D);
  }

  lemma SumForm(rotated: Word32, E: Word32, w: Word32, f: Word32, k: Word32)
    ensures CodeSum(rotated, E, w, f, k) == Sum5(rotated, f, E, k, w)
  {
  }

  /** The loop body of SHA1_Transform up to the shuffle of A to E. */
  method RoundSum(t: nat, A: Word32, B: Word32, C: Word32, D: Word32, E: Word32, w: Word32) returns (tmp: Word32)
    ensures tmp == Sum5(Rotl(5, A), F(t, B, C, D), E, K(t), w)
  {
    hide Rotl, Ch, Maj, Parity, CodeChoice, CodeMajority, CodeSum, Sum5;
    ChoiceForm(B, C, D);
    MajorityForm(B, C, D);
    SumForm(Rotl(5, A), E, w, F(t, B, C, D), K(t));
    if t < 20 {
      tmp := CodeSum(Rotl(5, A), E, w, CodeChoice(B, C, D), 0x5A827999);
    } else if t < 40 {
      tmp := CodeSum(Rotl(5, A), E, w, Parity(B, C, D), 0x6ED9EBA1);
    } else if t < 60 {
      tmp := CodeSum(Rotl(5, A), E, w, CodeMajority(B, C, D), 0x8F1BBCDC);
    } else {
      tmp := CodeSum(Rotl(5, A), E, w, Parity(B, C, D), 0xCA62C1D6);
    }
  }

  lemma ScheduleStep(block: seq<Octet>, t: nat)
    requires |block| == 64
    ensures t < 16 ==> Schedule(block, t) == BigEndianWord(block, 4 * t)
    ensures t >= 16 ==>
              Schedule(block, t) == Rotl(1, Schedule(block, t - 3) ^ Schedule(block, t - 8)
                                            ^ Schedule(block, t - 14) ^ Schedule(block, t - 16))
  {
  }

  lemma PaddedWhole(m: seq<Octet>)
    ensures |Pad(m)| % 64 == 0
  {
    hide Length64, Zeros;
    var k := ZeroCount(|m|);
    assert |Pad(m)| == |m| + 1 + k + 8;
    WholeBlock(|m| + 1 + k);
  }

  lemma WholeBlock(n: nat)
    requires n % 64 == 56
    ensures (n + 8) % 64 == 0
  {
  }

  /** Absorbing in two parts, the first made of whole blocks. */
  lemma {:induction false} AbsorbSplit(s: State, x: seq<Octet>, y: seq<Octet>)
    requires |x| % 64 == 0
    ensures Absorb(s, x + y) == Absorb(Absorb(s, x), y)
    decreases |x|
  {
    if |x| < 64 {
      assert x + y == y;
    } else {
      assert (x + y)[..64] == x[..64] && (x + y)[64..] == x[64..] + y;
      AbsorbSplit(Compress(s, x[..64]), x[64..], y);
    }
  }

  /** The octets of `m` after its last complete block. */
  function Tail(m: seq<Octet>): (t: seq<Octet>)
    ensures |t| == |m| % 64
  {
    m[|m| - |m| % 64..]
  }

  /** One more octet completes a block or lengthens the tail. */
  lemma TailOctet(m: seq<Octet>, b: Octet)
    ensures Tail(m + [b]) == if |m| % 64 == 63 then [] else Tail(m) + [b]
    ensures |m + [b]| % 64 == if |m| % 64 == 63 then 0 else |m| % 64 + 1
  {
    assert |m + [b]| % 64 == if |m| % 64 == 63 then 0 else |m| % 64 + 1;
  }

  lemma OneMore(m: seq<Octet>, data: seq<Octet>, n: nat)
    requires n < |data|
    ensures m + data[..n] + [data[n]] == m + data[..n + 1]
  {
  }

  lemma AbsorbOctet(s: State, m: seq<Octet>, b: Octet)
    ensures Absorb(s, m + [b]) == if |m| % 64 == 63 then Compress(Absorb(s, m), Tail(m) + [b]) else Absorb(s, m)
  {
    hide Compress;
    var whole, tail := m[..|m| - |m| % 64], Tail(m);
    assert m == whole + tail && m + [b] == whole + (tail + [b]);
    AbsorbSplit(s, whole, tail);
    AbsorbSplit(s, whole, tail + [b]);
    if |m| % 64 == 63 {
      assert (tail + [b])[..64] == tail + [b];
    }
  }

  lemma JoinWords(s: seq<Octet>)
    requires |s| == DIGEST_SIZE
    ensures s == s[4 * 0..4 * 0 + 4] + s[4 * 1..4 * 1 + 4] + s[4 * 2..4 * 2 + 4] + s[4 * 3..4 * 3 + 4]
               + s[4 * 4..4 * 4 + 4]
  {
  }

  /** HASH_CTX; `message` is everything the context has been fed. */
  class Context {
    var count: nat
    const buf: array<Octet>
    const state: array<Word32>
    ghost var message: seq<Octet>

    function Current(): State
      reads state
      requires state.Length == 8
    {
      State(state[0], state[1], state[2], state[3], state[4])
    }

    ghost predicate Valid()
      reads this, buf, state
      ensures Valid() ==>
          buf.Length == 64 && state.Length == 8 && count == |message| && Current() == Absorb(INITIAL, message)
    {
      && buf.Length == 64 && state.Length == 8
      && count == |message| < 0x1_0000_0000_0000_0000
      && Current() == Absorb(INITIAL, message)
      && buf[..count % 64] == Tail(message)
    }

    /** SHA_init. */
    constructor ()
      ensures Valid() && message == [] && fresh(buf) && fresh(state)
    {
      buf := new Octet[64];
      state := new Word32[8];
      count := 0;
      message := [];
      new;
      state[0] := 0x67452301;
      state[1] := 0xefcdab89;
      state[2] := 0x98badcfe;
      state[3] := 0x10325476;
      state[4] := 0xc3d2e1f0;
    }

    /** The message schedule of SHA1_Transform. */
    method Expand(W: array<Word32>)
      requires buf.Length == 64 && W.Length == 80 && W != state
      modifies W
      ensures state[..] == old(state[..])
      ensures forall k :: 0 <= k < 80 ==> W[k] == Schedule(buf[..], k)
    {
      hide Rotl, Schedule;
      for t := 0 to 16
        invariant forall k :: 0 <= k < t ==> W[k] == Schedule(buf[..], k)
      {
        ScheduleStep(buf[..], t);
        W[t] := (buf[4 * t] as bv32 << 24) | (buf[4 * t + 1] as bv32 << 16) | (buf[4 * t + 2] as bv32 << 8)
            | (buf[4 * t + 3] as bv32);
      }
      for t := 16 to 80
        invariant forall k :: 0 <= k < t ==> W[k] == Schedule(buf[..], k)
      {
        ScheduleStep(buf[..], t);
        W[t] := Rotl(1, W[t - 3] ^ W[t - 8] ^ W[t - 14] ^ W[t - 16]);
      }
    }

    /** SHA1_Transform. */
    method Transform()
      requires buf.Length == 64 && state.Length == 8
      modifies state
      ensures Current() == Compress(old(Current()), buf[..])
    {
      hide Schedule, Absorb, Rotl, F, K, Add, Sum5;
      ghost var block := buf[..];
      var W := new Word32[80];
      Expand(W);
      var A, B, C, D, E := state[0], state[1], state[2], state[3], state[4];
      for t := 0 to 80
        invariant state[..] == old(state[..])
        invariant forall k :: 0 <= k < 80 ==> W[k] == Schedule(block, k)
        invariant State(A, B, C, D, E) == Rounds(block, t, old(Current()))
      {
        ghost var before := State(A, B, C, D, E);
        var tmp := RoundSum(t, A, B, C, D, E, W[t]);
        E, D, C, B, A := D, C, Rotl(30, B), A, tmp;
        assert State(A, B, C, D, E) == Round(block, t, before);
      }
      ghost var s0 := Current();
      assert Compress(s0, block) == Plus(s0, State(A, B, C, D, E));
      state[0] := Add(state[0], A);
      state[1] := Add(state[1], B);
      state[2] := Add(state[2], C);
      state[3] := Add(state[3], D);
      state[4] := Add(state[4], E);
      assert s0 == old(Current());
      assert buf[..] == block;
      assert Current() == Plus(s0, State(A, B, C, D, E));
    }

    /** SHA_update. */
    method Update(data: seq<Octet>)
      requires Valid() && |message| + |data| < 0x1_0000_0000_0000_0000
      modifies this, buf, state
      ensures Valid() && message == old(message) + data
    {
      hide Absorb, Compress, Tail;
      var i := count % 64;
      count := count + |data|;
      var n := 0;
      while n < |data|
        invariant 0 <= n <= |data| && count == old(count) + |data|
        invariant message == old(message) + data[..n]
        invariant i == |message| % 64 && buf[..i] == Tail(message)
        invariant Current() == Absorb(INITIAL, message)
      {
        AbsorbOctet(INITIAL, message, data[n]);
        TailOctet(message, data[n]);
        OneMore(old(message), data, n);
        buf[i] := data[n];
        i := i + 1;
        assert buf[..i] == Tail(message) + [data[n]];
        message := message + [data[n]];
        if i == 64 {
          assert buf[..] == buf[..i];
          Transform();
          i := 0;
        }
        n := n + 1;
      }
    }

    /** The zero octets of SHA_final. */
    method PadZeros(ghost n: nat)
      requires Valid() && |message| < 0x4000_0000_0000_0000
      requires n < 64 && (|message| + n) % 64 == 56
      modifies this, buf, state
      ensures Valid() && message == old(message) + Zeros(n)
    {
      hide Absorb, Zeros, Context.Valid;
      ZerosStep(old(message), 0);
      ghost var zeros := 0;
      while count % 64 != 56
        invariant Valid() && zeros <= n
        invariant message == old(message) + Zeros(zeros)
        decreases n - zeros
      {
        Update([0]);
        ZerosStep(old(message), zeros);
        zeros := zeros + 1;
      }
    }

    /** The bit count of SHA_final. */
    method PutLength(cnt: nat)
      requires Valid() && |message| < 0x4000_0000_0000_0000
      modifies this, buf, state
      ensures Valid() && message == old(message) + Length64(cnt)
    {
      hide Absorb, Length64, LengthByte, Context.Valid;
      var i := 0;
      ghost var m := message;
      while i < 8
        invariant 0 <= i <= 8
        invariant Valid() && message == m + Length64(cnt)[..i]
      {
        Update([LengthByte(cnt, i)]);
        Length64At(cnt, i);
        i := i + 1;
      }
      assert Length64(cnt)[..8] == Length64(cnt);
    }

    /** SHA_final; the digest is left at the start of `buf`. */
    method Final()
      requires Valid() && |message| < 0x2000_0000_0000_0000
      modifies this, buf, state
      ensures buf[..DIGEST_SIZE] == Sha1(old(message))
    {
      hide Absorb, Digest, Length64, LengthByte, Zeros, Context.Valid;
      var cnt := count * 8 % 0x1_0000_0000_0000_0000;
      Update([0x80]);
      PadZeros(ZeroCount(|old(message)|));
      PutLength(cnt);
      assert message == Pad(old(message));
      StoreDigest();
    }

    /** One word as four big-endian bytes. */
    method StoreWord(at: nat, tmp: Word32)
      requires at + 4 <= buf.Length
      modifies buf
      ensures buf[at..at + 4] == WordOctets(tmp)
      ensures forall i, j :: 0 <= i <= j <= at ==> buf[i..j] == old(buf[i..j])
    {
      buf[at] := ((tmp >> 24) & 0xff) as bv8;
      buf[at + 1] := ((tmp >> 16) & 0xff) as bv8;
      buf[at + 2] := ((tmp >> 8) & 0xff) as bv8;
      buf[at + 3] := (tmp & 0xff) as bv8;
    }

    /** The state as 20 big-endian bytes. */
    method StoreDigest()
      requires buf.Length == 64 && state.Length == 8
      modifies buf
      ensures buf[..DIGEST_SIZE] == Digest(Current())
    {
      for i := 0 to 5
        invariant forall k :: 0 <= k < i ==> buf[4 * k..4 * k + 4] == WordOctets(state[k])
      {
        StoreWord(4 * i, state[i]);
        assert forall k :: 0 <= k < i ==> 4 * k + 4 <= 4 * i;
      }
      ghost var d := buf[..DIGEST_SIZE];
      JoinWords(d);
      assert forall k :: 0 <= k < 5 ==> d[4 * k..4 * k + 4] == WordOctets(state[k]) by {
        assert forall k :: 0 <= k < 5 ==> d[4 * k..4 * k + 4] == buf[4 * k..4 * k + 4];
      }
    }
  }

  /** SHA_hash. */
  method Hash(data: seq<Octet>) returns (digest: seq<Octet>)
    requires |data| < 0x2000_0000_0000_0000
    ensures digest == Sha1(data)
  {
    var ctx := new Context();
    assert [] + data == data;
    ctx.Update(data);
    ctx.Final();
    digest := ctx.buf[..DIGEST_SIZE];
  }

  function Flatten(pieces: seq<seq<Octet>>): seq<Octet> {
    if pieces == [] then [] else Flatten(pieces[..|pieces| - 1]) + pieces[|pieces| - 1]
  }

  lemma {:induction false} FlattenGrows(pieces: seq<seq<Octet>>, n: nat)
    requires n <= |pieces|
    ensures |Flatten(pieces[..n])| <= |Flatten(pieces)|
    decreases |pieces|
  {
    if n < |pieces| {
      FlattenGrows(pieces[..|pieces| - 1], n);
      assert pieces[..|pieces| - 1][..n] == pieces[..n];
    } else {
      assert pieces[..n] == pieces;
    }
  }

  /** However the message is cut over SHA_update calls, SHA_final gives its SHA-1. */
  method HashPieces(pieces: seq<seq<Octet>>) returns (digest: seq<Octet>)
    requires |Flatten(pieces)| < 0x2000_0000_0000_0000
    ensures digest == Sha1(Flatten(pieces))
  {
    var ctx := new Context();
    for n := 0 to |pieces|
      invariant fresh(ctx) && fresh(ctx.buf) && fresh(ctx.state) && ctx.Valid()
      invariant ctx.message == Flatten(pieces[..n])
    {
      FlattenGrows(pieces, n + 1);
      assert pieces[..n + 1][..n] == pieces[..n];
      ctx.Update(pieces[n]);
    }
    assert pieces[..|pieces|] == pieces;
    ctx.Final();
    digest := ctx.buf[..DIGEST_SIZE];
  }
}
