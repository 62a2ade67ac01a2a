// The two-block example of FIPS 180-4, step by step: padding, schedules,
// rounds and the chaining of the blocks, on literal words.

module Sha1Example {
  import opened Words
  import opened Sha1
  import opened Sha1Laws

  function Letter(n: nat): Octet {
    if n == 0 then 0x61 else Letter(n - 1) + 1
  }

  /** "abcdbcdecdefdefgefghfghighijhijkijkljklmklmnlmnomnopnopq". */
  const MESSAGE: seq<Octet> := seq(56, i requires 0 <= i < 56 => Letter(i / 4 + i % 4))

  /** The state after the first block. */
  const MIDDLE: State := State(0xf4286818, 0xc37b27ae, 0x0408f581, 0x84677148, 0x4a566572)

  // ---- Padding

  lemma LengthDigits(i: nat)
    requires i < 8
    ensures 448 / Power256(7 - i) % 256 == if i == 7 then 0xc0 else if i == 6 then 1 else 0
  {
    hide Power256;
    Powers();
    if i < 6 {
      assert 448 < Power256(7 - i);
    }
  }

  lemma LengthOctets(i: nat)
    requires i < 8
    ensures Length64(448)[i] == if i == 7 then 0xc0 else if i == 6 then 1 else 0
  {
    hide Power256;
    LengthDigits(i);
  }

  /** The one bit still fits into the first block, the length does not. */
  lemma PaddedMessage()
    ensures var p := Pad(MESSAGE);
            && |p| == 128 && p[..56] == MESSAGE
            && p[56] == 0x80 && (forall i :: 56 < i < 126 ==> p[i] == 0) && p[126] == 1 && p[127] == 0xc0
  {
    hide Length64;
    PaddingSays(MESSAGE);
    var p := Pad(MESSAGE);
    assert p[..56] == MESSAGE;
    assert p[120..] == Length64(448);
    forall i | 120 <= i < 128
      ensures p[i] == if i == 127 then 0xc0 else if i == 126 then 1 else 0
    {
      assert p[i] == Length64(448)[i - 120];
      LengthOctets(i - 120);
    }
  }

  lemma FirstWord(b: seq<Octet>, t: nat, x: Octet, w: Word32)
    requires |b| == 64 && t < 14 && b[..56] == MESSAGE && Letter(t) == x
    requires (x as bv32 << 24) | ((x + 1) as bv32 << 16) | ((x + 2) as bv32 << 8) | (x + 3) as bv32 == w
    ensures Schedule(b, t) == w
  {
    hide BigEndianWord, Letter;
    ScheduleStep(b, t);
    LetterAt(b, 4 * t);
    LetterAt(b, 4 * t + 1);
    LetterAt(b, 4 * t + 2);
    LetterAt(b, 4 * t + 3);
    NextLetters(t);
    FourLetters(b, 4 * t, x);
  }

  lemma LetterAt(b: seq<Octet>, i: nat)
    requires |b| == 64 && b[..56] == MESSAGE && i < 56
    ensures b[i] == Letter(i / 4 + i % 4)
  {
    assert b[i] == b[..56][i];
  }

  lemma FourLetters(b: seq<Octet>, at: nat, x: Octet)
    requires at + 4 <= |b| && b[at] == x && b[at + 1] == x + 1 && b[at + 2] == x + 2 && b[at + 3] == x + 3
    ensures BigEndianWord(b, at)
         == (x as bv32 << 24) | ((x + 1) as bv32 << 16) | ((x + 2) as bv32 << 8) | (x + 3) as bv32
  {
  }

  lemma NextLetters(n: nat)
    ensures Letter(n + 1) == Letter(n) + 1 && Letter(n + 2) == Letter(n) + 2 && Letter(n + 3) == Letter(n) + 3
  {
  }

  lemma FirstBlock(b: seq<Octet>)
    requires b == Pad(MESSAGE)[..64]
    ensures FirstWords(b)
  {
    hide Pad;
    PaddedMessage();
    assert b[..56] == MESSAGE;
    FirstWord(b, 0, 0x61, 0x61626364); FirstWord(b, 1, 0x62, 0x62636465); FirstWord(b, 2, 0x63, 0x63646566);
    FirstWord(b, 3, 0x64, 0x64656667); FirstWord(b, 4, 0x65, 0x65666768); FirstWord(b, 5, 0x66, 0x66676869);
    FirstWord(b, 6, 0x67, 0x6768696a); FirstWord(b, 7, 0x68, 0x68696a6b); FirstWord(b, 8, 0x69, 0x696a6b6c);
    FirstWord(b, 9, 0x6a, 0x6a6b6c6d); FirstWord(b, 10, 0x6b, 0x6b6c6d6e); FirstWord(b, 11, 0x6c, 0x6c6d6e6f);
    FirstWord(b, 12, 0x6d, 0x6d6e6f70); FirstWord(b, 13, 0x6e, 0x6e6f7071);
    ScheduleStep(b, 14);
    ScheduleStep(b, 15);
  }

  lemma SecondBlock(b: seq<Octet>)
    requires b == Pad(MESSAGE)[64..]
    ensures SecondWords(b)
  {
    hide BigEndianWord, Pad;
    PaddedMessage();
    forall t | 0 <= t < 16
      ensures Schedule(b, t) == if t == 15 then 0x1c0 else 0
    {
      ScheduleStep(b, t);
      WordIsHorner(b, 4 * t);
    }
  }

  // ---- Schedules and rounds

  lemma NoRounds(b: seq<Octet>, s: State)
    requires |b| == 64
    ensures Rounds(b, 0, s) == s
  {
  }

  lemma NextRound(b: seq<Octet>, t: nat, start: State, a: Word32)
    requires |b| == 64 && Round(b, t, Rounds(b, t, start)).a == a
    ensures var s := Rounds(b, t, start);
            Rounds(b, t + 1, start) == State(a, s.a, Rotl(30, s.b), s.c, s.d)
  {
  }

  lemma NextWord(b: seq<Octet>, t: nat, w: Word32)
    requires |b| == 64 && t >= 16
    requires Rotl(1, Schedule(b, t - 3) ^ Schedule(b, t - 8) ^ Schedule(b, t - 14) ^ Schedule(b, t - 16)) == w
    ensures Schedule(b, t) == w
  {
  }

  predicate FirstWords(b: seq<Octet>) {
    && |b| == 64
    && Schedule(b, 0) == 0x61626364 && Schedule(b, 1) == 0x62636465 && Schedule(b, 2) == 0x63646566
    && Schedule(b, 3) == 0x64656667 && Schedule(b, 4) == 0x65666768 && Schedule(b, 5) == 0x66676869
    && Schedule(b, 6) == 0x6768696a && Schedule(b, 7) == 0x68696a6b && Schedule(b, 8) == 0x696a6b6c
    && Schedule(b, 9) == 0x6a6b6c6d && Schedule(b, 10) == 0x6b6c6d6e && Schedule(b, 11) == 0x6c6d6e6f
    && Schedule(b, 12) == 0x6d6e6f70 && Schedule(b, 13) == 0x6e6f7071 && Schedule(b, 14) == 0x80000000
    && Schedule(b, 15) == 0x00000000
  }

  lemma FirstSchedule20(b: seq<Octet>)
    requires FirstWords(b)
    ensures
      && Schedule(b, 0) == 0x61626364 && Schedule(b, 1) == 0x62636465 && Schedule(b, 2) == 0x63646566
      && Schedule(b, 3) == 0x64656667 && Schedule(b, 4) == 0x65666768 && Schedule(b, 5) == 0x66676869
      && Schedule(b, 6) == 0x6768696a && Schedule(b, 7) == 0x68696a6b && Schedule(b, 8) == 0x696a6b6c
      && Schedule(b, 9) == 0x6a6b6c6d && Schedule(b, 10) == 0x6b6c6d6e && Schedule(b, 11) == 0x6c6d6e6f
      && Schedule(b, 12) == 0x6d6e6f70 && Schedule(b, 13) == 0x6e6f7071 && Schedule(b, 14) == 0x80000000
      && Schedule(b, 15) == 0x00000000 && Schedule(b, 16) == 0x0a063a3e && Schedule(b, 17) == 0xd8dadcdf
      && Schedule(b, 18) == 0xdadcdec0 && Schedule(b, 19) == 0xc8d2b4be
  {
    hide Schedule;
    NextWord(b, 16, 0x0a063a3e); NextWord(b, 17, 0xd8dadcdf); NextWord(b, 18, 0xdadcdec0); NextWord(b, 19, 0xc8d2b4be);
  }

  lemma FirstRounds20(b: seq<Octet>)
    requires FirstWords(b)
    ensures Rounds(b, 20, INITIAL) == State(0x6c445652, 0x944b1bd1, 0x509ae70d, 0x1ac1a012, 0x5098df8e)
  {
    hide Rounds, Schedule;
    FirstSchedule20(b);
    NoRounds(b, INITIAL);
    NextRound(b, 0, INITIAL, 0x0116fc17); NextRound(b, 1, INITIAL, 0xebf3b452); NextRound(b, 2, INITIAL, 0x5109913a);
    NextRound(b, 3, INITIAL, 0x2c4f6eac); NextRound(b, 4, INITIAL, 0x33f4ae5b); NextRound(b, 5, INITIAL, 0x96b85189);
    NextRound(b, 6, INITIAL, 0xdb04cb58); NextRound(b, 7, INITIAL, 0x45833f0f); NextRound(b, 8, INITIAL, 0xc565c35e);
    NextRound(b, 9, INITIAL, 0x6350afda); NextRound(b, 10, INITIAL, 0x8993ea77); NextRound(b, 11, INITIAL, 0xe19ecaa2);
    NextRound(b, 12, INITIAL, 0x8603481e); NextRound(b, 13, INITIAL, 0x32f94a85); NextRound(b, 14, INITIAL, 0xb2e7a8be);
    NextRound(b, 15, INITIAL, 0x42637e39); NextRound(b, 16, INITIAL, 0x6b068048); NextRound(b, 17, INITIAL, 0x426b9c35);
    NextRound(b, 18, INITIAL, 0x944b1bd1); NextRound(b, 19, INITIAL, 0x6c445652);
  }

  lemma FirstSchedule40(b: seq<Octet>)
    requires FirstWords(b)
    ensures
      && Schedule(b, 20) == 0x6f757b5b && Schedule(b, 21) == 0x757b5967 && Schedule(b, 22) == 0x8da16d70
      && Schedule(b, 23) == 0xdaeefaba && Schedule(b, 24) == 0xfaf6cab6 && Schedule(b, 25) == 0xa6fb675a
      && Schedule(b, 26) == 0x0c604cc8 && Schedule(b, 27) == 0x604cc02c && Schedule(b, 28) == 0x49c0e6e2
      && Schedule(b, 29) == 0x2ee8cbbc && Schedule(b, 30) == 0xcfd72ec4 && Schedule(b, 31) == 0x97e9810e
      && Schedule(b, 32) == 0x0989cbe8 && Schedule(b, 33) == 0xf24843fe && Schedule(b, 34) == 0x5c40d0ba
      && Schedule(b, 35) == 0xa8d9cc3b && Schedule(b, 36) == 0xb2b9666e && Schedule(b, 37) == 0xba7b71b7
      && Schedule(b, 38) == 0x20b28a72 && Schedule(b, 39) == 0xb28af500
  {
    hide Schedule;
    FirstSchedule20(b);
    NextWord(b, 20, 0x6f757b5b); NextWord(b, 21, 0x757b5967); NextWord(b, 22, 0x8da16d70); NextWord(b, 23, 0xdaeefaba);
    NextWord(b, 24, 0xfaf6cab6); NextWord(b, 25, 0xa6fb675a); NextWord(b, 26, 0x0c604cc8); NextWord(b, 27, 0x604cc02c);
    NextWord(b, 28, 0x49c0e6e2); NextWord(b, 29, 0x2ee8cbbc); NextWord(b, 30, 0xcfd72ec4); NextWord(b, 31, 0x97e9810e);
    NextWord(b, 32, 0x0989cbe8); NextWord(b, 33, 0xf24843fe); NextWord(b, 34, 0x5c40d0ba); NextWord(b, 35, 0xa8d9cc3b);
    NextWord(b, 36, 0xb2b9666e); NextWord(b, 37, 0xba7b71b7); NextWord(b, 38, 0x20b28a72); NextWord(b, 39, 0xb28af500);
  }

  lemma FirstRounds40(b: seq<Octet>)
    requires FirstWords(b)
    ensures Rounds(b, 40, INITIAL) == State(0xadeb7478, 0x24957f22, 0x50fe1eba, 0x564cff26, 0xaadf0cbb)
  {
    hide Rounds, Schedule;
    FirstSchedule40(b);
    FirstRounds20(b);
    NextRound(b, 20, INITIAL, 0x95836da5); NextRound(b, 21, INITIAL, 0x09511177); NextRound(b, 22, INITIAL, 0xe2b92dc4);
    NextRound(b, 23, INITIAL, 0xfd224575); NextRound(b, 24, INITIAL, 0xeeb82d9a); NextRound(b, 25, INITIAL, 0x5a142c1a);
    NextRound(b, 26, INITIAL, 0x2972f7c7); NextRound(b, 27, INITIAL, 0xd526a644); NextRound(b, 28, INITIAL, 0xe1122421);
    NextRound(b, 29, INITIAL, 0x05b457b2); NextRound(b, 30, INITIAL, 0xa9c84bec); NextRound(b, 31, INITIAL, 0x52e31f60);
    NextRound(b, 32, INITIAL, 0x5af3242c); NextRound(b, 33, INITIAL, 0x31c756a9); NextRound(b, 34, INITIAL, 0xe9ac987c);
    NextRound(b, 35, INITIAL, 0xab7c32ee); NextRound(b, 36, INITIAL, 0x5933fc99); NextRound(b, 37, INITIAL, 0x43f87ae9);
    NextRound(b, 38, INITIAL, 0x24957f22); NextRound(b, 39, INITIAL, 0xadeb7478);
  }

  lemma FirstSchedule60(b: seq<Octet>)
    requires FirstWords(b)
    ensures
      && Schedule(b, 40) == 0x8ac87842 && Schedule(b, 41) == 0x289addf4 && Schedule(b, 42) == 0x56d51f21
      && Schedule(b, 43) == 0xd96b7fd2 && Schedule(b, 44) == 0x3868e778 && Schedule(b, 45) == 0xab5e4848
      && Schedule(b, 46) == 0x7f0e2118 && Schedule(b, 47) == 0xde87a111 && Schedule(b, 48) == 0xe8be56b0
      && Schedule(b, 49) == 0x1a0ae652 && Schedule(b, 50) == 0xcd5611c8 && Schedule(b, 51) == 0x46ef29dc
      && Schedule(b, 52) == 0x60d3da6d && Schedule(b, 53) == 0xddf3ba6e && Schedule(b, 54) == 0x2737f5e9
      && Schedule(b, 55) == 0x4888a710 && Schedule(b, 56) == 0xd2a1177b && Schedule(b, 57) == 0x9999633b
      && Schedule(b, 58) == 0xd6c69d03 && Schedule(b, 59) == 0xccf6127b
  {
    hide Schedule;
    FirstSchedule40(b);
    NextWord(b, 40, 0x8ac87842); NextWord(b, 41, 0x289addf4); NextWord(b, 42, 0x56d51f21); NextWord(b, 43, 0xd96b7fd2);
    NextWord(b, 44, 0x3868e778); NextWord(b, 45, 0xab5e4848); NextWord(b, 46, 0x7f0e2118); NextWord(b, 47, 0xde87a111);
    NextWord(b, 48, 0xe8be56b0); NextWord(b, 49, 0x1a0ae652); NextWord(b, 50, 0xcd5611c8); NextWord(b, 51, 0x46ef29dc);
    NextWord(b, 52, 0x60d3da6d); NextWord(b, 53, 0xddf3ba6e); NextWord(b, 54, 0x2737f5e9); NextWord(b, 55, 0x4888a710);
    NextWord(b, 56, 0xd2a1177b); NextWord(b, 57, 0x9999633b); NextWord(b, 58, 0xd6c69d03); NextWord(b, 59, 0xccf6127b);
  }

  lemma FirstRounds60(b: seq<Octet>)
    requires FirstWords(b)
    ensures Rounds(b, 60, INITIAL) == State(0x9ef775c3, 0xf03d3782, 0xeb029e53, 0xe9a06dc8, 0x1ddb0e44)
  {
    hide Rounds, Schedule;
    FirstSchedule60(b);
    FirstRounds40(b);
    NextRound(b, 40, INITIAL, 0xd70e5010); NextRound(b, 41, INITIAL, 0x79bcfb08); NextRound(b, 42, INITIAL, 0xf9bcb8de);
    NextRound(b, 43, INITIAL, 0x633e9561); NextRound(b, 44, INITIAL, 0x98c1ea64); NextRound(b, 45, INITIAL, 0xc6ea241e);
    NextRound(b, 46, INITIAL, 0xa2ad4f02); NextRound(b, 47, INITIAL, 0xc8a69090); NextRound(b, 48, INITIAL, 0x88341600);
    NextRound(b, 49, INITIAL, 0x7e846f58); NextRound(b, 50, INITIAL, 0x86e358ba); NextRound(b, 51, INITIAL, 0x8d2e76c8);
    NextRound(b, 52, INITIAL, 0xce892e10); NextRound(b, 53, INITIAL, 0xedea95b1); NextRound(b, 54, INITIAL, 0x36d1230a);
    NextRound(b, 55, INITIAL, 0x776c3910); NextRound(b, 56, INITIAL, 0xa681b723); NextRound(b, 57, INITIAL, 0xac0a794f);
    NextRound(b, 58, INITIAL, 0xf03d3782); NextRound(b, 59, INITIAL, 0x9ef775c3);
  }

  lemma FirstSchedule80(b: seq<Octet>)
    requires FirstWords(b)
    ensures
      && Schedule(b, 60) == 0x7c58fe6d && Schedule(b, 61) == 0xfdd99c68 && Schedule(b, 62) == 0xf8e32074
      && Schedule(b, 63) == 0xe0ba3c7d && Schedule(b, 64) == 0x152198d6 && Schedule(b, 65) == 0x7b3f1982
      && Schedule(b, 66) == 0x37f2d5b7 && Schedule(b, 67) == 0x8596323e && Schedule(b, 68) == 0x810790d6
      && Schedule(b, 69) == 0xbea0a942 && Schedule(b, 70) == 0x11c7e1b1 && Schedule(b, 71) == 0x6158d101
      && Schedule(b, 72) == 0x5fcd77d9 && Schedule(b, 73) == 0x7f2f12e6 && Schedule(b, 74) == 0xf868cfb1
      && Schedule(b, 75) == 0xd6e997e9 && Schedule(b, 76) == 0xf526b852 && Schedule(b, 77) == 0xb7578dcc
      && Schedule(b, 78) == 0x55d99df4 && Schedule(b, 79) == 0x1ff69958
  {
    hide Schedule;
    FirstSchedule60(b);
    NextWord(b, 60, 0x7c58fe6d); NextWord(b, 61, 0xfdd99c68); NextWord(b, 62, 0xf8e32074); NextWord(b, 63, 0xe0ba3c7d);
    NextWord(b, 64, 0x152198d6); NextWord(b, 65, 0x7b3f1982); NextWord(b, 66, 0x37f2d5b7); NextWord(b, 67, 0x8596323e);
    NextWord(b, 68, 0x810790d6); NextWord(b, 69, 0xbea0a942); NextWord(b, 70, 0x11c7e1b1); NextWord(b, 71, 0x6158d101);
    NextWord(b, 72, 0x5fcd77d9); NextWord(b, 73, 0x7f2f12e6); NextWord(b, 74, 0xf868cfb1); NextWord(b, 75, 0xd6e997e9);
    NextWord(b, 76, 0xf526b852); NextWord(b, 77, 0xb7578dcc); NextWord(b, 78, 0x55d99df4); NextWord(b, 79, 0x1ff69958);
  }

  lemma FirstRounds80(b: seq<Octet>)
    requires FirstWords(b)
    ensures Rounds(b, 80, INITIAL) == State(0x8ce34517, 0xd3ad7c25, 0x6b4e1883, 0x74351cd2, 0x86838382)
  {
    hide Rounds, Schedule;
    FirstSchedule80(b);
    FirstRounds60(b);
    NextRound(b, 60, INITIAL, 0x36254b13); NextRound(b, 61, INITIAL, 0x4080d4dc); NextRound(b, 62, INITIAL, 0x2bfaf7a8);
    NextRound(b, 63, INITIAL, 0x513f9ca0); NextRound(b, 64, INITIAL, 0xe5895c81); NextRound(b, 65, INITIAL, 0x1037d2d5);
    NextRound(b, 66, INITIAL, 0x14a82da9); NextRound(b, 67, INITIAL, 0x6d17c9fd); NextRound(b, 68, INITIAL, 0x2c7b07bd);
    NextRound(b, 69, INITIAL, 0xfdf6efff); NextRound(b, 70, INITIAL, 0x112b96e3); NextRound(b, 71, INITIAL, 0x84065712);
    NextRound(b, 72, INITIAL, 0xab89fb71); NextRound(b, 73, INITIAL, 0xc5210e35); NextRound(b, 74, INITIAL, 0x352d9f4b);
    NextRound(b, 75, INITIAL, 0x1a0e0e0a); NextRound(b, 76, INITIAL, 0xd0d47349); NextRound(b, 77, INITIAL, 0xad38620d);
    NextRound(b, 78, INITIAL, 0xd3ad7c25); NextRound(b, 79, INITIAL, 0x8ce34517);
  }

  predicate SecondWords(b: seq<Octet>) {
    && |b| == 64
    && Schedule(b, 0) == 0x00000000 && Schedule(b, 1) == 0x00000000 && Schedule(b, 2) == 0x00000000
    && Schedule(b, 3) == 0x00000000 && Schedule(b, 4) == 0x00000000 && Schedule(b, 5) == 0x00000000
    && Schedule(b, 6) == 0x00000000 && Schedule(b, 7) == 0x00000000 && Schedule(b, 8) == 0x00000000
    && Schedule(b, 9) == 0x00000000 && Schedule(b, 10) == 0x00000000 && Schedule(b, 11) == 0x00000000
    && Schedule(b, 12) == 0x00000000 && Schedule(b, 13) == 0x00000000 && Schedule(b, 14) == 0x00000000
    && Schedule(b, 15) == 0x000001c0
  }

  lemma SecondSchedule20(b: seq<Octet>)
    requires SecondWords(b)
    ensures
      && Schedule(b, 0) == 0x00000000 && Schedule(b, 1) == 0x00000000 && Schedule(b, 2) == 0x00000000
      && Schedule(b, 3) == 0x00000000 && Schedule(b, 4) == 0x00000000 && Schedule(b, 5) == 0x00000000
      && Schedule(b, 6) == 0x00000000 && Schedule(b, 7) == 0x00000000 && Schedule(b, 8) == 0x00000000
      && Schedule(b, 9) == 0x00000000 && Schedule(b, 10) == 0x00000000 && Schedule(b, 11) == 0x00000000
      && Schedule(b, 12) == 0x00000000 && Schedule(b, 13) == 0x00000000 && Schedule(b, 14) == 0x00000000
      && Schedule(b, 15) == 0x000001c0 && Schedule(b, 16) == 0x00000000 && Schedule(b, 17) == 0x00000000
      && Schedule(b, 18) == 0x00000380 && Schedule(b, 19) == 0x00000000
  {
    hide Schedule;
    NextWord(b, 16, 0x00000000); NextWord(b, 17, 0x00000000); NextWord(b, 18, 0x00000380); NextWord(b, 19, 0x00000000);
  }

  lemma SecondRounds20(b: seq<Octet>)
    requires SecondWords(b)
    ensures Rounds(b, 20, MIDDLE) == State(0xd8992153, 0xc2eb709f, 0x2946d62f, 0x9541f6db, 0x365dc8d8)
  {
    hide Rounds, Schedule;
    SecondSchedule20(b);
    NoRounds(b, MIDDLE);
    NextRound(b, 0, MIDDLE, 0x2df257e9); NextRound(b, 1, MIDDLE, 0x4d3dc58f); NextRound(b, 2, MIDDLE, 0xc352bb05);
    NextRound(b, 3, MIDDLE, 0xeef743c6); NextRound(b, 4, MIDDLE, 0x41e34277); NextRound(b, 5, MIDDLE, 0x5443915c);
    NextRound(b, 6, MIDDLE, 0xe7fa0377); NextRound(b, 7, MIDDLE, 0xc6946813); NextRound(b, 8, MIDDLE, 0xfdde1de1);
    NextRound(b, 9, MIDDLE, 0xb8538aca); NextRound(b, 10, MIDDLE, 0x6ba94f63); NextRound(b, 11, MIDDLE, 0x43a2792f);
    NextRound(b, 12, MIDDLE, 0xfecd7bbf); NextRound(b, 13, MIDDLE, 0xa2604ca8); NextRound(b, 14, MIDDLE, 0x258b0baa);
    NextRound(b, 15, MIDDLE, 0xd9772360); NextRound(b, 16, MIDDLE, 0x5507db6e); NextRound(b, 17, MIDDLE, 0xa51b58bc);
    NextRound(b, 18, MIDDLE, 0xc2eb709f); NextRound(b, 19, MIDDLE, 0xd8992153);
  }

  lemma SecondSchedule40(b: seq<Octet>)
    requires SecondWords(b)
    ensures
      && Schedule(b, 20) == 0x00000000 && Schedule(b, 21) == 0x00000700 && Schedule(b, 22) == 0x00000000
      && Schedule(b, 23) == 0x00000380 && Schedule(b, 24) == 0x00000e00 && Schedule(b, 25) == 0x00000000
      && Schedule(b, 26) == 0x00000000 && Schedule(b, 27) == 0x00001c00 && Schedule(b, 28) == 0x00000000
      && Schedule(b, 29) == 0x00000d80 && Schedule(b, 30) == 0x00003800 && Schedule(b, 31) == 0x00000480
      && Schedule(b, 32) == 0x00000000 && Schedule(b, 33) == 0x00007000 && Schedule(b, 34) == 0x00000e00
      && Schedule(b, 35) == 0x00003600 && Schedule(b, 36) == 0x0000e000 && Schedule(b, 37) == 0x00000e00
      && Schedule(b, 38) == 0x00000000 && Schedule(b, 39) == 0x0001ce00
  {
    hide Schedule;
    SecondSchedule20(b);
    NextWord(b, 20, 0x00000000); NextWord(b, 21, 0x00000700); NextWord(b, 22, 0x00000000); NextWord(b, 23, 0x00000380);
    NextWord(b, 24, 0x00000e00); NextWord(b, 25, 0x00000000); NextWord(b, 26, 0x00000000); NextWord(b, 27, 0x00001c00);
    NextWord(b, 28, 0x00000000); NextWord(b, 29, 0x00000d80); NextWord(b, 30, 0x00003800); NextWord(b, 31, 0x00000480);
    NextWord(b, 32, 0x00000000); NextWord(b, 33, 0x00007000); NextWord(b, 34, 0x00000e00); NextWord(b, 35, 0x00003600);
    NextWord(b, 36, 0x0000e000); NextWord(b, 37, 0x00000e00); NextWord(b, 38, 0x00000000); NextWord(b, 39, 0x0001ce00);
  }

  lemma SecondRounds40(b: seq<Octet>)
    requires SecondWords(b)
    ensures Rounds(b, 40, MIDDLE) == State(0x03bb6310, 0x84e2a5f2, 0x21f56e03, 0xb3bd6b84, 0x1a5b6901)
  {
    hide Rounds, Schedule;
    SecondSchedule40(b);
    SecondRounds20(b);
    NextRound(b, 20, MIDDLE, 0x37482f5f); NextRound(b, 21, MIDDLE, 0xee8700bd); NextRound(b, 22, MIDDLE, 0x9ad594b9);
    NextRound(b, 23, MIDDLE, 0x8fbaa5b9); NextRound(b, 24, MIDDLE, 0x88fb5867); NextRound(b, 25, MIDDLE, 0xeec50521);
    NextRound(b, 26, MIDDLE, 0x50bce434); NextRound(b, 27, MIDDLE, 0x5c416daf); NextRound(b, 28, MIDDLE, 0x2429be5f);
    NextRound(b, 29, MIDDLE, 0x0a2fb108); NextRound(b, 30, MIDDLE, 0x17986223); NextRound(b, 31, MIDDLE, 0x8a4af384);
    NextRound(b, 32, MIDDLE, 0x6b629993); NextRound(b, 33, MIDDLE, 0xf15f04f3); NextRound(b, 34, MIDDLE, 0x295cc25b);
    NextRound(b, 35, MIDDLE, 0x696da404); NextRound(b, 36, MIDDLE, 0xcef5ae12); NextRound(b, 37, MIDDLE, 0x87d5b80c);
    NextRound(b, 38, MIDDLE, 0x84e2a5f2); NextRound(b, 39, MIDDLE, 0x03bb6310);
  }

  lemma SecondSchedule60(b: seq<Octet>)
    requires SecondWords(b)
    ensures
      && Schedule(b, 40) == 0x00000000 && Schedule(b, 41) == 0x0000d800 && Schedule(b, 42) == 0x00038000
      && Schedule(b, 43) == 0x00004f00 && Schedule(b, 44) == 0x00000000 && Schedule(b, 45) == 0x00070e00
      && Schedule(b, 46) == 0x0000ee00 && Schedule(b, 47) == 0x00037500 && Schedule(b, 48) == 0x000e0000
      && Schedule(b, 49) == 0x0000e000 && Schedule(b, 50) == 0x00003600 && Schedule(b, 51) == 0x001cee00
      && Schedule(b, 52) == 0x00000000 && Schedule(b, 53) == 0x000df000 && Schedule(b, 54) == 0x00380000
      && Schedule(b, 55) == 0x0004c600 && Schedule(b, 56) == 0x0000e000 && Schedule(b, 57) == 0x0070ee00
      && Schedule(b, 58) == 0x000ee000 && Schedule(b, 59) == 0x00369e00
  {
    hide Schedule;
    SecondSchedule40(b);
    NextWord(b, 40, 0x00000000); NextWord(b, 41, 0x0000d800); NextWord(b, 42, 0x00038000); NextWord(b, 43, 0x00004f00);
    NextWord(b, 44, 0x00000000); NextWord(b, 45, 0x00070e00); NextWord(b, 46, 0x0000ee00); NextWord(b, 47, 0x00037500);
    NextWord(b, 48, 0x000e0000); NextWord(b, 49, 0x0000e000); NextWord(b, 50, 0x00003600); NextWord(b, 51, 0x001cee00);
    NextWord(b, 52, 0x00000000); NextWord(b, 53, 0x000df000); NextWord(b, 54, 0x00380000); NextWord(b, 55, 0x0004c600);
    NextWord(b, 56, 0x0000e000); NextWord(b, 57, 0x0070ee00); NextWord(b, 58, 0x000ee000); NextWord(b, 59, 0x00369e00);
  }

  lemma SecondRounds60(b: seq<Octet>)
    requires SecondWords(b)
    ensures Rounds(b, 60, MIDDLE) == State(0xa65818f7, 0x5b086c42, 0xb9e15956, 0xea1256a6, 0xdb69cb9f)
  {
    hide Rounds, Schedule;
    SecondSchedule60(b);
    SecondRounds40(b);
    NextRound(b, 40, MIDDLE, 0xc2d8f75f); NextRound(b, 41, MIDDLE, 0xbfb25768); NextRound(b, 42, MIDDLE, 0x28589152);
    NextRound(b, 43, MIDDLE, 0xec1d3d61); NextRound(b, 44, MIDDLE, 0x3caed7af); NextRound(b, 45, MIDDLE, 0xc3d033ea);
    NextRound(b, 46, MIDDLE, 0x7316056a); NextRound(b, 47, MIDDLE, 0x46f93b68); NextRound(b, 48, MIDDLE, 0xdc8e7f26);
    NextRound(b, 49, MIDDLE, 0x850d411c); NextRound(b, 50, MIDDLE, 0x7e4672c0); NextRound(b, 51, MIDDLE, 0x89fbd41d);
    NextRound(b, 52, MIDDLE, 0x1797e228); NextRound(b, 53, MIDDLE, 0x431d65bc); NextRound(b, 54, MIDDLE, 0x2bdbb8cb);
    NextRound(b, 55, MIDDLE, 0x6da72e7f); NextRound(b, 56, MIDDLE, 0xa8495a9b); NextRound(b, 57, MIDDLE, 0xe785655a);
    NextRound(b, 58, MIDDLE, 0x5b086c42); NextRound(b, 59, MIDDLE, 0xa65818f7);
  }

  lemma SecondSchedule80(b: seq<Octet>)
    requires SecondWords(b)
    ensures
      && Schedule(b, 60) == 0x00e00000 && Schedule(b, 61) == 0x000ed600 && Schedule(b, 62) == 0x0000e000
      && Schedule(b, 63) == 0x01cea600 && Schedule(b, 64) == 0x00000000 && Schedule(b, 65) == 0x00d80000
      && Schedule(b, 66) == 0x0380e000 && Schedule(b, 67) == 0x004f0000 && Schedule(b, 68) == 0x00000000
      && Schedule(b, 69) == 0x070e0000 && Schedule(b, 70) == 0x00ee0000 && Schedule(b, 71) == 0x03751c00
      && Schedule(b, 72) == 0x0e000000 && Schedule(b, 73) == 0x00e0e000 && Schedule(b, 74) == 0x00363800
      && Schedule(b, 75) == 0x1cee9000 && Schedule(b, 76) == 0x00000000 && Schedule(b, 77) == 0x0df09000
      && Schedule(b, 78) == 0x3800e000 && Schedule(b, 79) == 0x04c77400
  {
    hide Schedule;
    SecondSchedule60(b);
    NextWord(b, 60, 0x00e00000); NextWord(b, 61, 0x000ed600); NextWord(b, 62, 0x0000e000); NextWord(b, 63, 0x01cea600);
    NextWord(b, 64, 0x00000000); NextWord(b, 65, 0x00d80000); NextWord(b, 66, 0x0380e000); NextWord(b, 67, 0x004f0000);
    NextWord(b, 68, 0x00000000); NextWord(b, 69, 0x070e0000); NextWord(b, 70, 0x00ee0000); NextWord(b, 71, 0x03751c00);
    NextWord(b, 72, 0x0e000000); NextWord(b, 73, 0x00e0e000); NextWord(b, 74, 0x00363800); NextWord(b, 75, 0x1cee9000);
    NextWord(b, 76, 0x00000000); NextWord(b, 77, 0x0df09000); NextWord(b, 78, 0x3800e000); NextWord(b, 79, 0x04c77400);
  }

  lemma SecondRounds80(b: seq<Octet>)
    requires SecondWords(b)
    ensures Rounds(b, 80, MIDDLE) == State(0x906fd62c, 0x58c0aac0, 0xb6a55520, 0x74e9b89d, 0x9af00b7f)
  {
    hide Rounds, Schedule;
    SecondSchedule80(b);
    SecondRounds60(b);
    NextRound(b, 60, MIDDLE, 0x7aab101b); NextRound(b, 61, MIDDLE, 0x93614c9c); NextRound(b, 62, MIDDLE, 0xf66d9bf4);
    NextRound(b, 63, MIDDLE, 0xd504902b); NextRound(b, 64, MIDDLE, 0x60a9da62); NextRound(b, 65, MIDDLE, 0x8b687819);
    NextRound(b, 66, MIDDLE, 0x083e90c3); NextRound(b, 67, MIDDLE, 0xf6226bbf); NextRound(b, 68, MIDDLE, 0x76c0563b);
    NextRound(b, 69, MIDDLE, 0x989dd165); NextRound(b, 70, MIDDLE, 0x8b2c7573); NextRound(b, 71, MIDDLE, 0xae1b8e7b);
    NextRound(b, 72, MIDDLE, 0xca1840de); NextRound(b, 73, MIDDLE, 0x16f3babb); NextRound(b, 74, MIDDLE, 0xd28d83ad);
    NextRound(b, 75, MIDDLE, 0x6bc02dfe); NextRound(b, 76, MIDDLE, 0xd3a6e275); NextRound(b, 77, MIDDLE, 0xda955482);
    NextRound(b, 78, MIDDLE, 0x58c0aac0); NextRound(b, 79, MIDDLE, 0x906fd62c);
  }

  // ---- The digest

  lemma FirstState(b: seq<Octet>)
    requires FirstWords(b)
    ensures Compress(INITIAL, b) == MIDDLE
  {
    hide Rounds;
    FirstRounds80(b);
  }

  lemma SecondState(b: seq<Octet>)
    requires SecondWords(b)
    ensures Compress(MIDDLE, b)
         == State(0x84983e44, 0x1c3bd26e, 0xbaae4aa1, 0xf95129e5, 0xe54670f1)
  {
    hide Rounds;
    SecondRounds80(b);
  }

  lemma TwoBlocks(s: State, p: seq<Octet>)
    requires |p| == 128
    ensures Absorb(s, p) == Compress(Compress(s, p[..64]), p[64..])
  {
    hide Compress;
    OneBlock(Compress(s, p[..64]), p[64..]);
  }

  lemma OneBlock(s: State, b: seq<Octet>)
    requires |b| == 64
    ensures Absorb(s, b) == Compress(s, b)
  {
    hide Compress;
    assert b[..64] == b && Absorb(Compress(s, b), b[64..]) == Compress(s, b);
  }

  /** 84983E44 1C3BD26E BAAE4AA1 F95129E5 E54670F1. */
  lemma ExampleDigest()
    ensures Sha1.Sha1(MESSAGE) == [0x84, 0x98, 0x3e, 0x44, 0x1c, 0x3b, 0xd2, 0x6e, 0xba, 0xae,
                                   0x4a, 0xa1, 0xf9, 0x51, 0x29, 0xe5, 0xe5, 0x46, 0x70, 0xf1]
  {
    hide Compress, Absorb, Pad;
    var p := Pad(MESSAGE);
    PaddedMessage();
    TwoBlocks(INITIAL, p);
    FirstBlock(p[..64]);
    SecondBlock(p[64..]);
    FirstState(p[..64]);
    SecondState(p[64..]);
  }
}
