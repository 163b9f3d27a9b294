/**
 * SHA-1 worked out: the 80 rounds in five stages of sixteen words, the digests of the two test messages of RFC 3174,
 * and the order of the digest's bytes.
 */
module Sha1Digests {
  import opened Wire
  import opened Bits
  import opened WebSocket
  import opened Sha1

  /** Sixteen words of the schedule. */
  datatype Window = Window(w0: bv32, w1: bv32, w2: bv32, w3: bv32, w4: bv32, w5: bv32, w6: bv32, w7: bv32,
    w8: bv32, w9: bv32, w10: bv32, w11: bv32, w12: bv32, w13: bv32, w14: bv32, w15: bv32)

  /** The window after x, word by word (section 6.1 of RFC 3174, step b). */
  predicate Follows(x: Window, y: Window)
  {
    && y.w0 == Mixed(x.w13, x.w8, x.w2, x.w0)
    && y.w1 == Mixed(x.w14, x.w9, x.w3, x.w1)
    && y.w2 == Mixed(x.w15, x.w10, x.w4, x.w2)
    && y.w3 == Mixed(y.w0, x.w11, x.w5, x.w3)
    && y.w4 == Mixed(y.w1, x.w12, x.w6, x.w4)
    && y.w5 == Mixed(y.w2, x.w13, x.w7, x.w5)
    && y.w6 == Mixed(y.w3, x.w14, x.w8, x.w6)
    && y.w7 == Mixed(y.w4, x.w15, x.w9, x.w7)
    && y.w8 == Mixed(y.w5, y.w0, x.w10, x.w8)
    && y.w9 == Mixed(y.w6, y.w1, x.w11, x.w9)
    && y.w10 == Mixed(y.w7, y.w2, x.w12, x.w10)
    && y.w11 == Mixed(y.w8, y.w3, x.w13, x.w11)
    && y.w12 == Mixed(y.w9, y.w4, x.w14, x.w12)
    && y.w13 == Mixed(y.w10, y.w5, x.w15, x.w13)
    && y.w14 == Mixed(y.w11, y.w6, y.w0, x.w14)
    && y.w15 == Mixed(y.w12, y.w7, y.w1, x.w15)
  }

  lemma FollowsFrom(x: Window, y: Window)
    requires y.w0 == Mixed(x.w13, x.w8, x.w2, x.w0)
    requires y.w1 == Mixed(x.w14, x.w9, x.w3, x.w1)
    requires y.w2 == Mixed(x.w15, x.w10, x.w4, x.w2)
    requires y.w3 == Mixed(y.w0, x.w11, x.w5, x.w3)
    requires y.w4 == Mixed(y.w1, x.w12, x.w6, x.w4)
    requires y.w5 == Mixed(y.w2, x.w13, x.w7, x.w5)
    requires y.w6 == Mixed(y.w3, x.w14, x.w8, x.w6)
    requires y.w7 == Mixed(y.w4, x.w15, x.w9, x.w7)
    requires y.w8 == Mixed(y.w5, y.w0, x.w10, x.w8)
    requires y.w9 == Mixed(y.w6, y.w1, x.w11, x.w9)
    requires y.w10 == Mixed(y.w7, y.w2, x.w12, x.w10)
    requires y.w11 == Mixed(y.w8, y.w3, x.w13, x.w11)
    requires y.w12 == Mixed(y.w9, y.w4, x.w14, x.w12)
    requires y.w13 == Mixed(y.w10, y.w5, x.w15, x.w13)
    requires y.w14 == Mixed(y.w11, y.w6, y.w0, x.w14)
    requires y.w15 == Mixed(y.w12, y.w7, y.w1, x.w15)
    ensures Follows(x, y)
  {
    hide Mixed;
  }

  /** Sixteen rounds from round t on. */
  function Sixteen(h: Hash, x: Window, t: nat): Hash
  {
    var g0 := Round(h, t, x.w0);
    var g1 := Round(g0, t + 1, x.w1);
    var g2 := Round(g1, t + 2, x.w2);
    var g3 := Round(g2, t + 3, x.w3);
    var g4 := Round(g3, t + 4, x.w4);
    var g5 := Round(g4, t + 5, x.w5);
    var g6 := Round(g5, t + 6, x.w6);
    var g7 := Round(g6, t + 7, x.w7);
    var g8 := Round(g7, t + 8, x.w8);
    var g9 := Round(g8, t + 9, x.w9);
    var g10 := Round(g9, t + 10, x.w10);
    var g11 := Round(g10, t + 11, x.w11);
    var g12 := Round(g11, t + 12, x.w12);
    var g13 := Round(g12, t + 13, x.w13);
    var g14 := Round(g13, t + 14, x.w14);
    var g15 := Round(g14, t + 15, x.w15);
    g15
  }

  predicate Stage(h: Hash, x: Window, t: nat, g: Hash, y: Window) { Sixteen(h, x, t) == g && Follows(x, y) }

  function WindowAt(block: seq<byte>, t: nat): Window
    requires |block| == 64
  {
    Window(Scheduled(block, t), Scheduled(block, t + 1), Scheduled(block, t + 2), Scheduled(block, t + 3),
           Scheduled(block, t + 4), Scheduled(block, t + 5), Scheduled(block, t + 6), Scheduled(block, t + 7),
           Scheduled(block, t + 8), Scheduled(block, t + 9), Scheduled(block, t + 10), Scheduled(block, t + 11),
           Scheduled(block, t + 12), Scheduled(block, t + 13), Scheduled(block, t + 14), Scheduled(block, t + 15))
  }


  lemma FirstHalfFollows(block: seq<byte>, t: nat, x: Window, y: Window)
    requires |block| == 64 && x == WindowAt(block, t) && t + 32 <= 80 && Follows(x, y)
    ensures y.w0 == Scheduled(block, t + 16) && y.w1 == Scheduled(block, t + 17) && y.w2 == Scheduled(block, t + 18)
    ensures y.w3 == Scheduled(block, t + 19) && y.w4 == Scheduled(block, t + 20) && y.w5 == Scheduled(block, t + 21)
    ensures y.w6 == Scheduled(block, t + 22) && y.w7 == Scheduled(block, t + 23)
  {
    hide Mixed, Scheduled;
    ScheduledAt(block, t + 16); ScheduledAt(block, t + 17); ScheduledAt(block, t + 18); ScheduledAt(block, t + 19);
    ScheduledAt(block, t + 20); ScheduledAt(block, t + 21); ScheduledAt(block, t + 22); ScheduledAt(block, t + 23);
  }

  lemma WindowFollows(block: seq<byte>, t: nat, x: Window, y: Window)
    requires |block| == 64 && x == WindowAt(block, t) && t + 32 <= 80 && Follows(x, y)
    ensures y == WindowAt(block, t + 16)
  {
    hide Mixed, Scheduled;
    FirstHalfFollows(block, t, x, y);
    ScheduledAt(block, t + 24); ScheduledAt(block, t + 25); ScheduledAt(block, t + 26); ScheduledAt(block, t + 27);
    ScheduledAt(block, t + 28); ScheduledAt(block, t + 29); ScheduledAt(block, t + 30); ScheduledAt(block, t + 31);
  }

  lemma SixteenRounds(h: Hash, block: seq<byte>, t: nat)
    requires |block| == 64
    ensures Sixteen(Rounds(h, block, t), WindowAt(block, t), t) == Rounds(h, block, t + 16)
  {
    hide Round, Scheduled;
    FourRounds(h, block, t); FourRounds(h, block, t + 4); FourRounds(h, block, t + 8); FourRounds(h, block, t + 12);
    hide Rounds;
  }

  lemma FourRounds(h: Hash, block: seq<byte>, t: nat)
    requires |block| == 64
    ensures Rounds(h, block, t + 4)
      == Round(Round(Round(Round(Rounds(h, block, t), t, Scheduled(block, t)), t + 1, Scheduled(block, t + 1)),
                     t + 2, Scheduled(block, t + 2)), t + 3, Scheduled(block, t + 3))
  {
    hide Round, Scheduled;
    assert Rounds(h, block, t + 2) == Round(Rounds(h, block, t + 1), t + 1, Scheduled(block, t + 1));
  }

  /** One stage on: the hash and the window after sixteen more rounds. */
  lemma OneStage(h: Hash, block: seq<byte>, t: nat, g: Hash, x: Window, g1: Hash, y: Window)
    requires |block| == 64 && t + 32 <= 80 && g == Rounds(h, block, t) && x == WindowAt(block, t)
    requires Stage(g, x, t, g1, y)
    ensures g1 == Rounds(h, block, t + 16) && y == WindowAt(block, t + 16)
  {
    hide Rounds, Follows, Sixteen, WindowAt;
    SixteenRounds(h, block, t);
    WindowFollows(block, t, x, y);
  }

  lemma StartAndEnd(h: Hash, block: seq<byte>)
    requires |block| == 64
    ensures Rounds(h, block, 0) == h && Compress(h, block) == Sum(h, Rounds(h, block, 80))
  {
    hide Sum, Scheduled, Round;
  }

  /** The compression in five stages. */
  lemma FiveStages(h: Hash, block: seq<byte>, x0: Window, h1: Hash, x1: Window, h2: Hash, x2: Window, h3: Hash,
                   x3: Window, h4: Hash, x4: Window)
    requires |block| == 64 && x0 == WindowAt(block, 0)
    requires Stage(h, x0, 0, h1, x1) && Stage(h1, x1, 16, h2, x2) && Stage(h2, x2, 32, h3, x3)
    requires Stage(h3, x3, 48, h4, x4)
    ensures Compress(h, block) == Sum(h, Sixteen(h4, x4, 64))
  {
    hide *;
    StartAndEnd(h, block);
    OneStage(h, block, 0, h, x0, h1, x1);
    OneStage(h, block, 16, h1, x1, h2, x2);
    OneStage(h, block, 32, h2, x2, h3, x3);
    OneStage(h, block, 48, h3, x3, h4, x4);
    SixteenRounds(h, block, 64);
  }

  // The three blocks of the two messages: words and hashes after every sixteen rounds.

  const ABC_WORDS0 := Window(
    0x61626380, 0x00000000, 0x00000000, 0x00000000, 0x00000000, 0x00000000, 0x00000000, 0x00000000,
    0x00000000, 0x00000000, 0x00000000, 0x00000000, 0x00000000, 0x00000000, 0x00000000, 0x00000018)
  const ABC_WORDS16 := Window(
    0xC2C4C700, 0x00000000, 0x00000030, 0x85898E01, 0x00000000, 0x00000060, 0x0B131C03, 0x00000030,
    0x85898EC1, 0x16263806, 0x00000000, 0x00000180, 0x2C4C700C, 0x000000F0, 0x93AFB507, 0x5898E048)
  const ABC_WORDS32 := Window(
    0x8E9A9202, 0x00000600, 0xB131C0F0, 0x16263BC6, 0x4EBED41E, 0x626380A1, 0x16263806, 0x000018C0,
    0xD2E138C4, 0x00000F00, 0x3AFB5079, 0x898E04E5, 0xE2BA3C2B, 0x000060C0, 0x053A37CD, 0x74458547)
  const ABC_WORDS48 := Window(
    0xDA9415ED, 0x26380A16, 0x626383A1, 0x4EBF54DE, 0x3835B44B, 0x0000F600, 0x1E84C7A3, 0x98E04D98,
    0x651D16A0, 0x62658CA1, 0x458544D6, 0x44584CB7, 0x7BA06619, 0x6380AEA2, 0x0AE55269, 0x627B49A1)
  const ABC_WORDS64 := Window(
    0x7CD45C9D, 0x000F0000, 0xFB50753A, 0xEC6765E8, 0xBA3C2BE2, 0x0060C000, 0x3A37CD05, 0x458546F4,
    0xB8599DD6, 0x380A1A26, 0x01E02203, 0xE7CC3456, 0xE6E60B69, 0x00F60A00, 0x5795EF4F, 0x822E0879)
  const ABC_HASH16 := Hash(0x20BDD62F, 0x196BEE77, 0x644A3DA5, 0x1181ED99, 0x18C623F9)
  const ABC_HASH32 := Hash(0x3B845D33, 0x1267B407, 0x717EEBD7, 0xA0DC2D4B, 0xD2AA1365)
  const ABC_HASH48 := Hash(0xBEAD02CA, 0xA01B846C, 0x8714787C, 0x503CA382, 0xFB86C6AB)
  const ABC_HASH64 := Hash(0x6B61C9E1, 0xB66C020B, 0x9523272C, 0xF5D5B051, 0x8FD4B796)

  lemma AbcWords()
    ensures Follows(ABC_WORDS0, ABC_WORDS16)
    ensures Follows(ABC_WORDS16, ABC_WORDS32)
    ensures Follows(ABC_WORDS32, ABC_WORDS48)
    ensures Follows(ABC_WORDS48, ABC_WORDS64)
  {
    hide Follows;
    FollowsFrom(ABC_WORDS0, ABC_WORDS16);
    FollowsFrom(ABC_WORDS16, ABC_WORDS32);
    FollowsFrom(ABC_WORDS32, ABC_WORDS48);
    FollowsFrom(ABC_WORDS48, ABC_WORDS64);
  }

  lemma AbcRounds0()
    ensures Sixteen(INITIAL, ABC_WORDS0, 0) == ABC_HASH16
  {
  }

  lemma AbcRounds1()
    ensures Sixteen(ABC_HASH16, ABC_WORDS16, 16) == ABC_HASH32
  {
  }

  lemma AbcRounds2()
    ensures Sixteen(ABC_HASH32, ABC_WORDS32, 32) == ABC_HASH48
  {
  }

  lemma AbcRounds3()
    ensures Sixteen(ABC_HASH48, ABC_WORDS48, 48) == ABC_HASH64
  {
  }

  const ABC_RESULT := Hash(0xA9993E36, 0x4706816A, 0xBA3E2571, 0x7850C26C, 0x9CD0D89D)

  lemma AbcEnds()
    ensures Sum(INITIAL, Sixteen(ABC_HASH64, ABC_WORDS64, 64)) == ABC_RESULT
  {
  }

  lemma AbcCompressed(block: seq<byte>)
    requires |block| == 64 && WindowAt(block, 0) == ABC_WORDS0
    ensures Compress(INITIAL, block) == ABC_RESULT
  {
    AbcWords();
    AbcRounds0(); AbcRounds1(); AbcRounds2(); AbcRounds3();
    AbcEnds();
    hide Follows, Sixteen, Compress, WindowAt, Sum;
    FiveStages(INITIAL, block, ABC_WORDS0, ABC_HASH16, ABC_WORDS16, ABC_HASH32, ABC_WORDS32, ABC_HASH48,
      ABC_WORDS48, ABC_HASH64, ABC_WORDS64);
  }

  const LONG_WORDS0 := Window(
    0x61626364, 0x62636465, 0x63646566, 0x64656667, 0x65666768, 0x66676869, 0x6768696A, 0x68696A6B,
    0x696A6B6C, 0x6A6B6C6D, 0x6B6C6D6E, 0x6C6D6E6F, 0x6D6E6F70, 0x6E6F7071, 0x80000000, 0x00000000)
  const LONG_WORDS16 := Window(
    0x0A063A3E, 0xD8DADCDF, 0xDADCDEC0, 0xC8D2B4BE, 0x6F757B5B, 0x757B5967, 0x8DA16D70, 0xDAEEFABA,
    0xFAF6CAB6, 0xA6FB675A, 0x0C604CC8, 0x604CC02C, 0x49C0E6E2, 0x2EE8CBBC, 0xCFD72EC4, 0x97E9810E)
  const LONG_WORDS32 := Window(
    0x0989CBE8, 0xF24843FE, 0x5C40D0BA, 0xA8D9CC3B, 0xB2B9666E, 0xBA7B71B7, 0x20B28A72, 0xB28AF500,
    0x8AC87842, 0x289ADDF4, 0x56D51F21, 0xD96B7FD2, 0x3868E778, 0xAB5E4848, 0x7F0E2118, 0xDE87A111)
  const LONG_WORDS48 := Window(
    0xE8BE56B0, 0x1A0AE652, 0xCD5611C8, 0x46EF29DC, 0x60D3DA6D, 0xDDF3BA6E, 0x2737F5E9, 0x4888A710,
    0xD2A1177B, 0x9999633B, 0xD6C69D03, 0xCCF6127B, 0x7C58FE6D, 0xFDD99C68, 0xF8E32074, 0xE0BA3C7D)
  const LONG_WORDS64 := Window(
    0x152198D6, 0x7B3F1982, 0x37F2D5B7, 0x8596323E, 0x810790D6, 0xBEA0A942, 0x11C7E1B1, 0x6158D101,
    0x5FCD77D9, 0x7F2F12E6, 0xF868CFB1, 0xD6E997E9, 0xF526B852, 0xB7578DCC, 0x55D99DF4, 0x1FF69958)
  const LONG_HASH16 := Hash(0x42637E39, 0xB2E7A8BE, 0x4CBE52A1, 0xA180D207, 0xB867B2A8)
  const LONG_HASH32 := Hash(0x52E31F60, 0xA9C84BEC, 0x816D15EC, 0x78448908, 0x3549A991)
  const LONG_HASH48 := Hash(0xC8A69090, 0xA2AD4F02, 0xB1BA8907, 0x26307A99, 0x58CFA558)
  const LONG_HASH64 := Hash(0x513F9CA0, 0x2BFAF7A8, 0x10203537, 0xCD8952C4, 0xE7BDDD70)

  lemma LongWords()
    ensures Follows(LONG_WORDS0, LONG_WORDS16)
    ensures Follows(LONG_WORDS16, LONG_WORDS32)
    ensures Follows(LONG_WORDS32, LONG_WORDS48)
    ensures Follows(LONG_WORDS48, LONG_WORDS64)
  {
    hide Follows;
    FollowsFrom(LONG_WORDS0, LONG_WORDS16);
    FollowsFrom(LONG_WORDS16, LONG_WORDS32);
    FollowsFrom(LONG_WORDS32, LONG_WORDS48);
    FollowsFrom(LONG_WORDS48, LONG_WORDS64);
  }

  lemma LongRounds0()
    ensures Sixteen(INITIAL, LONG_WORDS0, 0) == LONG_HASH16
  {
  }

  lemma LongRounds1()
    ensures Sixteen(LONG_HASH16, LONG_WORDS16, 16) == LONG_HASH32
  {
  }

  lemma LongRounds2()
    ensures Sixteen(LONG_HASH32, LONG_WORDS32, 32) == LONG_HASH48
  {
  }

  lemma LongRounds3()
    ensures Sixteen(LONG_HASH48, LONG_WORDS48, 48) == LONG_HASH64
  {
  }

  const LONG_RESULT := Hash(0xF4286818, 0xC37B27AE, 0x0408F581, 0x84677148, 0x4A566572)

  lemma LongEnds()
    ensures Sum(INITIAL, Sixteen(LONG_HASH64, LONG_WORDS64, 64)) == LONG_RESULT
  {
  }

  lemma LongCompressed(block: seq<byte>)
    requires |block| == 64 && WindowAt(block, 0) == LONG_WORDS0
    ensures Compress(INITIAL, block) == LONG_RESULT
  {
    LongWords();
    LongRounds0(); LongRounds1(); LongRounds2(); LongRounds3();
    LongEnds();
    hide Follows, Sixteen, Compress, WindowAt, Sum;
    FiveStages(INITIAL, block, LONG_WORDS0, LONG_HASH16, LONG_WORDS16, LONG_HASH32, LONG_WORDS32, LONG_HASH48,
      LONG_WORDS48, LONG_HASH64, LONG_WORDS64);
  }

  const LAST_WORDS0 := Window(
    0x00000000, 0x00000000, 0x00000000, 0x00000000, 0x00000000, 0x00000000, 0x00000000, 0x00000000,
    0x00000000, 0x00000000, 0x00000000, 0x00000000, 0x00000000, 0x00000000, 0x00000000, 0x000001C0)
  const LAST_WORDS16 := Window(
    0x00000000, 0x00000000, 0x00000380, 0x00000000, 0x00000000, 0x00000700, 0x00000000, 0x00000380,
    0x00000E00, 0x00000000, 0x00000000, 0x00001C00, 0x00000000, 0x00000D80, 0x00003800, 0x00000480)
  const LAST_WORDS32 := Window(
    0x00000000, 0x00007000, 0x00000E00, 0x00003600, 0x0000E000, 0x00000E00, 0x00000000, 0x0001CE00,
    0x00000000, 0x0000D800, 0x00038000, 0x00004F00, 0x00000000, 0x00070E00, 0x0000EE00, 0x00037500)
  const LAST_WORDS48 := Window(
    0x000E0000, 0x0000E000, 0x00003600, 0x001CEE00, 0x00000000, 0x000DF000, 0x00380000, 0x0004C600,
    0x0000E000, 0x0070EE00, 0x000EE000, 0x00369E00, 0x00E00000, 0x000ED600, 0x0000E000, 0x01CEA600)
  const LAST_WORDS64 := Window(
    0x00000000, 0x00D80000, 0x0380E000, 0x004F0000, 0x00000000, 0x070E0000, 0x00EE0000, 0x03751C00,
    0x0E000000, 0x00E0E000, 0x00363800, 0x1CEE9000, 0x00000000, 0x0DF09000, 0x3800E000, 0x04C77400)
  const LAST_HASH16 := Hash(0xD9772360, 0x258B0BAA, 0x2898132A, 0xFFB35EEF, 0xD0E89E4B)
  const LAST_HASH32 := Hash(0x8A4AF384, 0x17986223, 0x028BEC42, 0xC90A6F97, 0xD7105B6B)
  const LAST_HASH48 := Hash(0x46F93B68, 0x7316056A, 0xB0F40CFA, 0xCF2BB5EB, 0x7B074F58)
  const LAST_HASH64 := Hash(0xD504902B, 0xF66D9BF4, 0x24D85327, 0xDEAAC406, 0xE996063D)

  lemma LastWords()
    ensures Follows(LAST_WORDS0, LAST_WORDS16)
    ensures Follows(LAST_WORDS16, LAST_WORDS32)
    ensures Follows(LAST_WORDS32, LAST_WORDS48)
    ensures Follows(LAST_WORDS48, LAST_WORDS64)
  {
    hide Follows;
    FollowsFrom(LAST_WORDS0, LAST_WORDS16);
    FollowsFrom(LAST_WORDS16, LAST_WORDS32);
    FollowsFrom(LAST_WORDS32, LAST_WORDS48);
    FollowsFrom(LAST_WORDS48, LAST_WORDS64);
  }

  lemma LastRounds0()
    ensures Sixteen(LONG_RESULT, LAST_WORDS0, 0) == LAST_HASH16
  {
  }

  lemma LastRounds1()
    ensures Sixteen(LAST_HASH16, LAST_WORDS16, 16) == LAST_HASH32
  {
  }

  lemma LastRounds2()
    ensures Sixteen(LAST_HASH32, LAST_WORDS32, 32) == LAST_HASH48
  {
  }

  lemma LastRounds3()
    ensures Sixteen(LAST_HASH48, LAST_WORDS48, 48) == LAST_HASH64
  {
  }

  const LAST_RESULT := Hash(0x84983E44, 0x1C3BD26E, 0xBAAE4AA1, 0xF95129E5, 0xE54670F1)

  lemma LastEnds()
    ensures Sum(LONG_RESULT, Sixteen(LAST_HASH64, LAST_WORDS64, 64)) == LAST_RESULT
  {
  }

  lemma LastCompressed(block: seq<byte>)
    requires |block| == 64 && WindowAt(block, 0) == LAST_WORDS0
    ensures Compress(LONG_RESULT, block) == LAST_RESULT
  {
    LastWords();
    LastRounds0(); LastRounds1(); LastRounds2(); LastRounds3();
    LastEnds();
    hide Follows, Sixteen, Compress, WindowAt, Sum;
    FiveStages(LONG_RESULT, block, LAST_WORDS0, LAST_HASH16, LAST_WORDS16, LAST_HASH32, LAST_WORDS32, LAST_HASH48,
      LAST_WORDS48, LAST_HASH64, LAST_WORDS64);
  }

  // From bytes to words.

  /** Word k of a block, most significant byte first. */
  predicate WordIs(block: seq<byte>, k: nat, v: bv32)
    requires 4 * k + 4 <= |block|
  {
    Big(block[4 * k], block[4 * k + 1], block[4 * k + 2], block[4 * k + 3]) == v
  }

  lemma FirstWindow(block: seq<byte>, x: Window)
    requires |block| == 64
    requires WordIs(block, 0, x.w0) && WordIs(block, 1, x.w1) && WordIs(block, 2, x.w2) && WordIs(block, 3, x.w3)
    requires WordIs(block, 4, x.w4) && WordIs(block, 5, x.w5) && WordIs(block, 6, x.w6) && WordIs(block, 7, x.w7)
    requires WordIs(block, 8, x.w8) && WordIs(block, 9, x.w9) && WordIs(block, 10, x.w10) && WordIs(block, 11, x.w11)
    requires WordIs(block, 12, x.w12) && WordIs(block, 13, x.w13) && WordIs(block, 14, x.w14)
    requires WordIs(block, 15, x.w15)
    ensures WindowAt(block, 0) == x
  {
    hide Big;
  }

  /** Four bytes with these vectors make up this word. */
  lemma BigIs(b0: byte, b1: byte, b2: byte, b3: byte, v0: bv8, v1: bv8, v2: bv8, v3: bv8)
    requires IsVector(b0, v0) && IsVector(b1, v1) && IsVector(b2, v2) && IsVector(b3, v3)
    ensures Big(b0, b1, b2, b3) == Joined(v0, v1, v2, v3)
  {
    VectorIs(b0, v0);
    VectorIs(b1, v1);
    VectorIs(b2, v2);
    VectorIs(b3, v3);
    hide ToBits, IsVector;
  }

  function Joined(v0: bv8, v1: bv8, v2: bv8, v3: bv8): bv32
  {
    (v0 as bv32 << 24) | (v1 as bv32 << 16) | (v2 as bv32 << 8) | v3 as bv32
  }

  lemma ZeroWord()
    ensures Big(0, 0, 0, 0) == 0
  {
    assert IsVector(0, 0);
    hide Big, IsVector;
    BigIs(0, 0, 0, 0, 0, 0, 0, 0);
  }

  lemma ZeroWords(block: seq<byte>, first: nat, end: nat)
    requires 4 * end <= |block| && forall i: nat :: 4 * first <= i < 4 * end ==> block[i] == 0
    ensures forall k: nat :: first <= k < end ==> WordIs(block, k, 0)
  {
    ZeroWord();
    hide Big;
  }

  lemma {:induction false} BEOfZero(size: nat)
    ensures BE(0, size) == Zeros(size)
    decreases size
  {
    if size > 0 { BEOfZero(size - 1); }
  }

  lemma ShortLength(bits: nat)
    requires bits < 65536
    ensures BE(bits, 8) == Zeros(6) + [bits / 256, bits % 256]
  {
    BEOfZero(6);
    assert BE(bits, 8) == BE(bits / 256, 7) + [bits % 256];
    assert BE(bits / 256, 7) == BE(0, 6) + [bits / 256];
  }

  // The message "abc".

  const ABC: seq<byte> := [0x61, 0x62, 0x63]

  lemma AbcBytes()
    ensures var b := ABC + Padding(3);
      && |b| == 64 && b[0] == 0x61 && b[1] == 0x62 && b[2] == 0x63 && b[3] == 0x80
      && (forall i: nat :: 4 <= i < 63 ==> b[i] == 0) && b[63] == 0x18
  {
    ShortLength(24);
    hide BE;
  }

  lemma AbcVectors()
    ensures Joined(0x61, 0x62, 0x63, 0x80) == 0x61626380 && Joined(0, 0, 0, 0x18) == 0x18
    ensures IsVector(0x61, 0x61) && IsVector(0x62, 0x62) && IsVector(0x63, 0x63) && IsVector(0x80, 0x80)
    ensures IsVector(0, 0) && IsVector(0x18, 0x18)
  {
  }

  lemma AbcWindow()
    ensures |ABC + Padding(3)| == 64 && WindowAt(ABC + Padding(3), 0) == ABC_WORDS0
  {
    AbcBytes();
    var b := ABC + Padding(3);
    hide Padding, Big, WindowAt;
    ZeroWords(b, 1, 15);
    AbcEnd(b);
    hide WordIs;
    FirstWindow(b, ABC_WORDS0);
  }

  lemma AbcEnd(b: seq<byte>)
    requires |b| == 64 && b[0] == 0x61 && b[1] == 0x62 && b[2] == 0x63 && b[3] == 0x80
    requires b[60] == 0 && b[61] == 0 && b[62] == 0 && b[63] == 0x18
    ensures WordIs(b, 0, 0x61626380) && WordIs(b, 15, 0x18)
  {
    AbcVectors();
    hide Big, IsVector, Joined;
    BigIs(0x61, 0x62, 0x63, 0x80, 0x61, 0x62, 0x63, 0x80);
    BigIs(0, 0, 0, 0x18, 0, 0, 0, 0x18);
  }

  lemma OneBlock(h: Hash, d: seq<byte>)
    requires |d| == 64
    ensures Blocks(h, d) == Compress(h, d)
  {
    hide Compress;
    assert d[..64] == d && d[64..] == [];
  }

  /** The digest of "abc" is A9993E36 4706816A BA3E2571 7850C26C 9CD0D89D. */
  lemma AbcDigest()
    ensures Digest(ABC) == Hash(0xA9993E36, 0x4706816A, 0xBA3E2571, 0x7850C26C, 0x9CD0D89D)
  {
    hide Compress, WindowAt, Padding, Blocks;
    AbcWindow();
    AbcCompressed(ABC + Padding(3));
    OneBlock(INITIAL, ABC + Padding(3));
  }

  // The message "abcdbcdecdefdefgefghfghighijhijkijkljklmklmnlmnomnopnopq".

  const LETTERS: seq<byte> := seq(56, i requires 0 <= i < 56 => 0x61 + i / 4 + i % 4)

  lemma LongBytes()
    ensures var b := LETTERS + Padding(56);
      && |b| == 128 && (forall i: nat :: i < 56 ==> b[i] == 0x61 + i / 4 + i % 4) && b[56] == 0x80
      && (forall i: nat :: 57 <= i < 126 ==> b[i] == 0) && b[126] == 0x01 && b[127] == 0xC0
  {
    ShortLength(448);
    hide BE;
  }

  lemma OtherVectors()
    ensures IsVector(0x80, 0x80) && IsVector(0, 0) && IsVector(0x01, 0x01) && IsVector(0xC0, 0xC0)
    ensures Joined(0x80, 0, 0, 0) == 0x80000000 && Joined(0, 0, 0x01, 0xC0) == 0x1C0
  {
  }

  lemma LetterWord(b: seq<byte>, j: nat, v0: bv8, v1: bv8, v2: bv8, v3: bv8)
    requires |b| == 64 && j < 14 && forall i: nat :: i < 56 ==> b[i] == 0x61 + i / 4 + i % 4
    requires IsVector(0x61 + j, v0) && IsVector(0x62 + j, v1) && IsVector(0x63 + j, v2) && IsVector(0x64 + j, v3)
    ensures WordIs(b, j, Joined(v0, v1, v2, v3))
  {
    hide Big, IsVector, Joined;
    assert b[4 * j] == 0x61 + j && b[4 * j + 1] == 0x62 + j && b[4 * j + 2] == 0x63 + j && b[4 * j + 3] == 0x64 + j;
    BigIs(0x61 + j, 0x62 + j, 0x63 + j, 0x64 + j, v0, v1, v2, v3);
  }

  lemma FirstLettersVectors()
    ensures IsVector(0x61, 0x61) && IsVector(0x62, 0x62) && IsVector(0x63, 0x63) && IsVector(0x64, 0x64)
    ensures IsVector(0x65, 0x65) && IsVector(0x66, 0x66) && IsVector(0x67, 0x67) && IsVector(0x68, 0x68)
    ensures Joined(0x61, 0x62, 0x63, 0x64) == 0x61626364
    ensures Joined(0x62, 0x63, 0x64, 0x65) == 0x62636465
    ensures Joined(0x63, 0x64, 0x65, 0x66) == 0x63646566
    ensures Joined(0x64, 0x65, 0x66, 0x67) == 0x64656667
    ensures Joined(0x65, 0x66, 0x67, 0x68) == 0x65666768
  {
  }

  lemma FirstLetters(b: seq<byte>)
    requires |b| == 64 && forall i: nat :: i < 56 ==> b[i] == 0x61 + i / 4 + i % 4
    ensures WordIs(b, 0, 0x61626364)
    ensures WordIs(b, 1, 0x62636465)
    ensures WordIs(b, 2, 0x63646566)
    ensures WordIs(b, 3, 0x64656667)
    ensures WordIs(b, 4, 0x65666768)
  {
    FirstLettersVectors();
    hide WordIs, IsVector, Joined;
    LetterWord(b, 0, 0x61, 0x62, 0x63, 0x64);
    LetterWord(b, 1, 0x62, 0x63, 0x64, 0x65);
    LetterWord(b, 2, 0x63, 0x64, 0x65, 0x66);
    LetterWord(b, 3, 0x64, 0x65, 0x66, 0x67);
    LetterWord(b, 4, 0x65, 0x66, 0x67, 0x68);
  }

  lemma MiddleLettersVectors()
    ensures IsVector(0x66, 0x66) && IsVector(0x67, 0x67) && IsVector(0x68, 0x68) && IsVector(0x69, 0x69)
    ensures IsVector(0x6A, 0x6A) && IsVector(0x6B, 0x6B) && IsVector(0x6C, 0x6C) && IsVector(0x6D, 0x6D)
    ensures Joined(0x66, 0x67, 0x68, 0x69) == 0x66676869
    ensures Joined(0x67, 0x68, 0x69, 0x6A) == 0x6768696A
    ensures Joined(0x68, 0x69, 0x6A, 0x6B) == 0x68696A6B
    ensures Joined(0x69, 0x6A, 0x6B, 0x6C) == 0x696A6B6C
    ensures Joined(0x6A, 0x6B, 0x6C, 0x6D) == 0x6A6B6C6D
  {
  }

  lemma MiddleLetters(b: seq<byte>)
    requires |b| == 64 && forall i: nat :: i < 56 ==> b[i] == 0x61 + i / 4 + i % 4
    ensures WordIs(b, 5, 0x66676869)
    ensures WordIs(b, 6, 0x6768696A)
    ensures WordIs(b, 7, 0x68696A6B)
    ensures WordIs(b, 8, 0x696A6B6C)
    ensures WordIs(b, 9, 0x6A6B6C6D)
  {
    MiddleLettersVectors();
    hide WordIs, IsVector, Joined;
    LetterWord(b, 5, 0x66, 0x67, 0x68, 0x69);
    LetterWord(b, 6, 0x67, 0x68, 0x69, 0x6A);
    LetterWord(b, 7, 0x68, 0x69, 0x6A, 0x6B);
    LetterWord(b, 8, 0x69, 0x6A, 0x6B, 0x6C);
    LetterWord(b, 9, 0x6A, 0x6B, 0x6C, 0x6D);
  }

  lemma LastLettersVectors()
    ensures IsVector(0x6B, 0x6B) && IsVector(0x6C, 0x6C) && IsVector(0x6D, 0x6D) && IsVector(0x6E, 0x6E)
    ensures IsVector(0x6F, 0x6F) && IsVector(0x70, 0x70) && IsVector(0x71, 0x71)
    ensures Joined(0x6B, 0x6C, 0x6D, 0x6E) == 0x6B6C6D6E
    ensures Joined(0x6C, 0x6D, 0x6E, 0x6F) == 0x6C6D6E6F
    ensures Joined(0x6D, 0x6E, 0x6F, 0x70) == 0x6D6E6F70
    ensures Joined(0x6E, 0x6F, 0x70, 0x71) == 0x6E6F7071
  {
  }

  lemma LastLetters(b: seq<byte>)
    requires |b| == 64 && forall i: nat :: i < 56 ==> b[i] == 0x61 + i / 4 + i % 4
    ensures WordIs(b, 10, 0x6B6C6D6E)
    ensures WordIs(b, 11, 0x6C6D6E6F)
    ensures WordIs(b, 12, 0x6D6E6F70)
    ensures WordIs(b, 13, 0x6E6F7071)
  {
    LastLettersVectors();
    hide WordIs, IsVector, Joined;
    LetterWord(b, 10, 0x6B, 0x6C, 0x6D, 0x6E);
    LetterWord(b, 11, 0x6C, 0x6D, 0x6E, 0x6F);
    LetterWord(b, 12, 0x6D, 0x6E, 0x6F, 0x70);
    LetterWord(b, 13, 0x6E, 0x6F, 0x70, 0x71);
  }

  lemma LongWindow(b: seq<byte>)
    requires |b| == 64 && (forall i: nat :: i < 56 ==> b[i] == 0x61 + i / 4 + i % 4)
    requires b[56] == 0x80 && forall i: nat :: 57 <= i < 64 ==> b[i] == 0
    ensures WindowAt(b, 0) == LONG_WORDS0
  {
    FirstLetters(b);
    MiddleLetters(b);
    LastLetters(b);
    OtherVectors();
    hide Big, IsVector, Joined, WindowAt;
    ZeroWords(b, 15, 16);
    BigIs(0x80, 0, 0, 0, 0x80, 0, 0, 0);
    assert WordIs(b, 14, 0x80000000);
    hide WordIs;
    FirstWindow(b, LONG_WORDS0);
  }

  lemma LastWindow(b: seq<byte>)
    requires |b| == 64 && (forall i: nat :: i < 62 ==> b[i] == 0) && b[62] == 0x01 && b[63] == 0xC0
    ensures WindowAt(b, 0) == LAST_WORDS0
  {
    OtherVectors();
    hide Big, IsVector, Joined, WindowAt;
    ZeroWords(b, 0, 15);
    BigIs(0, 0, 0x01, 0xC0, 0, 0, 0x01, 0xC0);
    assert WordIs(b, 15, 0x1C0);
    hide WordIs;
    FirstWindow(b, LAST_WORDS0);
  }

  lemma TwoBlocks(h: Hash, d: seq<byte>)
    requires |d| == 128
    ensures Blocks(h, d) == Compress(Compress(h, d[..64]), d[64..])
  {
    hide Compress;
    OneBlock(Compress(h, d[..64]), d[64..]);
  }

  /** The digest of the two-block message is 84983E44 1C3BD26E BAAE4AA1 F95129E5 E54670F1. */
  lemma LongDigest()
    ensures Digest(LETTERS) == Hash(0x84983E44, 0x1C3BD26E, 0xBAAE4AA1, 0xF95129E5, 0xE54670F1)
  {
    hide Compress, WindowAt, Padding, Blocks;
    LongBytes();
    var b := LETTERS + Padding(56);
    LongWindow(b[..64]);
    LastWindow(b[64..]);
    LongCompressed(b[..64]);
    LastCompressed(b[64..]);
    TwoBlocks(INITIAL, b);
  }

  // The digest as bytes.

  lemma BytesOfWord(x: bv32)
    ensures var d := WordBytes(x); |d| == 4 && Big(d[0], d[1], d[2], d[3]) == x
  {
    ToFromBits(((x >> 24) & 0xFF) as bv8);
    ToFromBits(((x >> 16) & 0xFF) as bv8);
    ToFromBits(((x >> 8) & 0xFF) as bv8);
    ToFromBits((x & 0xFF) as bv8);
    hide ToBits, FromBits;
    WordParts(x);
  }

  lemma WordParts(x: bv32)
    ensures (((((x >> 24) & 0xFF) as bv8) as bv32) << 24) | (((((x >> 16) & 0xFF) as bv8) as bv32) << 16)
      | (((((x >> 8) & 0xFF) as bv8) as bv32) << 8) | (((x & 0xFF) as bv8) as bv32) == x
  {
  }

  /** The twenty bytes of a digest are its five words, most significant byte first. */
  lemma DigestBytes(h: Hash)
    ensures var d := HashBytes(h);
      && |d| == 20 && WordIs(d, 0, h.a) && WordIs(d, 1, h.b) && WordIs(d, 2, h.c) && WordIs(d, 3, h.d)
      && WordIs(d, 4, h.e)
  {
    BytesOfWord(h.a);
    BytesOfWord(h.b);
    BytesOfWord(h.c);
    BytesOfWord(h.d);
    BytesOfWord(h.e);
    hide Big, WordBytes;
  }
}
