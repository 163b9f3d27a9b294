/** Streaming SHA-1 (RFC 3174) as the handshake uses it: a 64-byte block that is compressed whenever it fills up. */
module Sha1 {
  import opened Wire
  import opened Bits
  import opened WebSocket

  datatype Hash = Hash(a: bv32, b: bv32, c: bv32, d: bv32, e: bv32)

  const INITIAL := Hash(0x67452301, 0xEFCDAB89, 0x98BADCFE, 0x10325476, 0xC3D2E1F0)

  function Rol1(v: bv32): bv32 { (v << 1) | (v >> 31) }

  function Rol5(v: bv32): bv32 { (v << 5) | (v >> 27) }

  function Rol30(v: bv32): bv32 { (v << 30) | (v >> 2) }

  function Wide(b: byte): bv32 { ToBits(b) as bv32 }

  function Big(b0: byte, b1: byte, b2: byte, b3: byte): bv32
  {
    (Wide(b0) << 24) | (Wide(b1) << 16) | (Wide(b2) << 8) | Wide(b3)
  }

  function Mixed(w3: bv32, w8: bv32, w14: bv32, w16: bv32): bv32 { Rol1(w3 ^ w8 ^ w14 ^ w16) }

  /** Word t of the message schedule of a block (section 6.1 of RFC 3174, steps a and b). */
  function Scheduled(block: seq<byte>, t: nat): bv32
    requires |block| == 64
  {
    if t < 16 then Big(block[4 * t], block[4 * t + 1], block[4 * t + 2], block[4 * t + 3])
    else Mixed(Scheduled(block, t - 3), Scheduled(block, t - 8), Scheduled(block, t - 14), Scheduled(block, t - 16))
  }

  function Choice(t: nat, b: bv32, c: bv32, d: bv32): bv32
  {
    if t < 20 then (b & c) | (!b & d) else if 40 <= t < 60 then (b & c) | (b & d) | (c & d) else b ^ c ^ d
  }

  function Constant(t: nat): bv32
  {
    if t < 20 then 0x5A827999 else if t < 40 then 0x6ED9EBA1 else if t < 60 then 0x8F1BBCDC else 0xCA62C1D6
  }

  function Round(h: Hash, t: nat, w: bv32): Hash
  {
    Hash(Rol5(h.a) + Choice(t, h.b, h.c, h.d) + h.e + Constant(t) + w, h.a, Rol30(h.b), h.c, h.d)
  }

  function Rounds(h: Hash, block: seq<byte>, t: nat): Hash
    requires |block| == 64
  {
    if t == 0 then h else Round(Rounds(h, block, t - 1), t - 1, Scheduled(block, t - 1))
  }

  function Sum(g: Hash, h: Hash): Hash { Hash(g.a + h.a, g.b + h.b, g.c + h.c, g.d + h.d, g.e + h.e) }

  function Compress(h: Hash, block: seq<byte>): Hash
    requires |block| == 64
  {
    Sum(h, Rounds(h, block, 80))
  }

  /** The hash of a whole number of blocks. */
  function Blocks(h: Hash, d: seq<byte>): Hash
    requires |d| % 64 == 0
    decreases |d|
  {
    if d == [] then h else Blocks(Compress(h, d[..64]), d[64..])
  }

  lemma {:induction false} BlocksSnoc(h: Hash, d: seq<byte>, block: seq<byte>)
    requires |d| % 64 == 0 && |block| == 64
    ensures Blocks(h, d + block) == Compress(Blocks(h, d), block)
    decreases |d|
  {
    hide Compress;
    if d == [] {
      assert d + block == block && block[..64] == block && block[64..] == [];
    } else {
      assert (d + block)[..64] == d[..64] && (d + block)[64..] == d[64..] + block;
      BlocksSnoc(Compress(h, d[..64]), d[64..], block);
    }
  }

  /** Zero bytes between the end mark and the length. */
  function ZeroFill(n: nat): nat { (119 - n % 64) % 64 }

  /** A one bit, zeros, and the length in bits on eight bytes, as section 4 of RFC 3174 pads a message of n bytes. */
  function Padding(n: nat): seq<byte> { [0x80] + Zeros(ZeroFill(n)) + BE(8 * n, 8) }

  lemma PaddedSize(n: nat)
    ensures (n + |Padding(n)|) % 64 == 0
  {
    PaddingLength(n);
    FillOf(n % 64);
    hide Padding;
    WholeBlocks(n / 64 + 1);
    WholeBlocks(n / 64 + 2);
    assert n == 64 * (n / 64) + n % 64;
  }

  lemma PaddingLength(n: nat)
    ensures |Padding(n)| == 9 + (119 - n % 64) % 64
  {
    hide BE, Zeros;
  }

  lemma FillOf(r: nat)
    requires r < 64
    ensures (119 - r) % 64 == if r <= 55 then 55 - r else 119 - r
  {
  }

  lemma WholeBlocks(q: nat)
    ensures 64 * q % 64 == 0
  {
  }

  /** The digest defined on the whole padded message at once. */
  function Digest(message: seq<byte>): Hash
  {
    PaddedSize(|message|);
    Blocks(INITIAL, message + Padding(|message|))
  }

  function WordBytes(x: bv32): seq<byte>
  {
    [FromBits(((x >> 24) & 0xFF) as bv8), FromBits(((x >> 16) & 0xFF) as bv8),
     FromBits(((x >> 8) & 0xFF) as bv8), FromBits((x & 0xFF) as bv8)]
  }

  function HashBytes(h: Hash): seq<byte>
  {
    WordBytes(h.a) + WordBytes(h.b) + WordBytes(h.c) + WordBytes(h.d) + WordBytes(h.e)
  }

  /** One word of the schedule: from the block, then from four earlier words. */
  lemma ScheduledAt(block: seq<byte>, i: nat)
    requires |block| == 64 && i < 80
    ensures Scheduled(block, i)
      == if i < 16 then Big(block[4 * i], block[4 * i + 1], block[4 * i + 2], block[4 * i + 3])
         else
           Mixed(Scheduled(block, i - 3), Scheduled(block, i - 8), Scheduled(block, i - 14), Scheduled(block, i - 16))
  {
    hide Big, Mixed;
  }

  method Schedule(block: seq<byte>) returns (w: array<bv32>)
    requires |block| == 64
    ensures fresh(w) && w.Length == 80 && forall k :: 0 <= k < 80 ==> w[k] == Scheduled(block, k)
  {
    hide Big, Mixed, Scheduled;
    w := new bv32[80](_ => 0);
    for i := 0 to 16
      invariant forall k :: 0 <= k < i ==> w[k] == Scheduled(block, k)
    {
      ScheduledAt(block, i);
      w[i] := Big(block[4 * i], block[4 * i + 1], block[4 * i + 2], block[4 * i + 3]);
    }
    for i := 16 to 80
      invariant forall k :: 0 <= k < i ==> w[k] == Scheduled(block, k)
    {
      ScheduledAt(block, i);
      w[i] := Mixed(w[i - 3], w[i - 8], w[i - 14], w[i - 16]);
    }
  }

  /** The schedule, then the 80 rounds. */
  method ProcessBlock(h: Hash, block: seq<byte>) returns (r: Hash)
    requires |block| == 64
    ensures r == Compress(h, block)
  {
    hide Big, Mixed, Round, Sum, Scheduled;
    var w := Schedule(block);
    var g := h;
    for i := 0 to 80
      invariant g == Rounds(h, block, i)
    {
      g := Round(g, i, w[i]);
    }
    return Sum(h, g);
  }

  class Sha1 {
    var state: Hash
    var total: nat
    const block: array<byte>
    var used: nat
    /** Everything hashed so far. */
    ghost var message: seq<byte>

    ghost predicate Valid()
      reads this, block
    {
      && block.Length == 64 && used == |message| % 64 && total == |message|
      && Absorbed(message, used, state, block[..])
    }

    constructor ()
      ensures Valid() && message == [] && fresh(block)
    {
      state, total, used, message := INITIAL, 0, 0, [];
      block := new byte[64](_ => 0);
      new;
      assert message[..0] == [];
    }

    /** Copies the next bytes into the block. */
    method Fill(data: seq<byte>)
      requires block.Length == 64 && used + |data| <= 64
      modifies this`used, block
      ensures used == old(used) + |data|
      ensures block[..used] == old(block[..used]) + data
    {
      for i := 0 to |data|
        invariant used == old(used)
        invariant block[..used] == old(block[..used])
        invariant block[used..used + i] == data[..i]
      {
        block[used + i] := data[i];
      }
      assert block[..used + |data|] == block[..used] + block[used..used + |data|];
      used := used + |data|;
    }

    method Update(data: seq<byte>)
      requires Valid()
      modifies this, block
      ensures Valid() && message == old(message) + data
    {
      total := total + |data|;
      var rest := data;
      ghost var goal := message + data;
      while rest != []
        invariant block.Length == 64 && used == |message| % 64 && total == |goal|
        invariant Absorbed(message, used, state, block[..]) && message + rest == goal
        decreases |rest|
      {
        hide Absorbed, Compress;
        var take := if 64 - used < |rest| then 64 - used else |rest|;
        ghost var before, earlier, start := block[..], message, used;
        AbsorbedSize(message, used, state, before);
        SplitRest(message, rest, take);
        Fill(rest[..take]);
        message := message + rest[..take];
        rest := rest[take..];
        assert block[..][..used] == before[..start] + message[|earlier|..];
        Absorbing(earlier, start, state, before, message, block[..], take);
        if used == 64 {
          state := ProcessBlock(state, block[..]);
          used := 0;
        }
      }
      assert message + [] == message;
    }

    /** Pads with single bytes until eight are left in the block, then writes the length. */
    method Finalize() returns (digest: seq<byte>)
      requires Valid()
      modifies this, block
      ensures digest == HashBytes(Digest(old(message)))
      ensures Valid() && message == old(message) + Padding(|old(message)|)
    {
      hide Absorbed, HashBytes, BE;
      ghost var n, k := |message|, 0;
      var bits := total * 8;
      Update([0x80]);
      assert message == old(message) + [0x80] + Zeros(0);
      while used != 56
        invariant Valid() && 0 <= k <= ZeroFill(n) && message == old(message) + [0x80] + Zeros(k)
        decreases ZeroFill(n) - k
      {
        FillEnds(n, k);
        Update([0]);
        assert old(message) + [0x80] + Zeros(k) + [0] == old(message) + [0x80] + Zeros(k + 1);
        k := k + 1;
      }
      FillEnds(n, k);
      Update(BE(bits, 8));
      assert message == old(message) + Padding(n);
      PaddedSize(n);
      Finished(message, used, state, block[..]);
      return HashBytes(state);
    }
  }

  /** The zero-fill loop stops at ZeroFill(n) and not before. */
  lemma FillEnds(n: nat, k: nat)
    requires k <= ZeroFill(n)
    ensures (n + 1 + k) % 64 == 56 <==> k == ZeroFill(n)
  {
  }

  lemma Finished(message: seq<byte>, used: nat, state: Hash, block: seq<byte>)
    requires Absorbed(message, used, state, block) && |message| % 64 == 0
    ensures state == Blocks(INITIAL, message)
  {
    assert message[..|message|] == message;
  }

  function Flatten(pieces: seq<seq<byte>>): seq<byte>
  {
    if pieces == [] then [] else Flatten(pieces[..|pieces| - 1]) + pieces[|pieces| - 1]
  }

  /** Streaming equals one-shot: any split of a message over updates gives the digest of the whole message. */
  method HashPieces(pieces: seq<seq<byte>>) returns (digest: seq<byte>)
    ensures digest == HashBytes(Digest(Flatten(pieces)))
  {
    var sha := new Sha1();
    for i := 0 to |pieces|
      invariant sha.Valid() && sha.message == Flatten(pieces[..i]) && fresh(sha) && fresh(sha.block)
    {
      assert pieces[..i + 1][..i] == pieces[..i];
      sha.Update(pieces[i]);
    }
    assert pieces[..|pieces|] == pieces;
    digest := sha.Finalize();
  }

  /** The state after a message: its whole blocks compressed, and the rest waiting in the block. */
  ghost predicate Absorbed(message: seq<byte>, used: nat, state: Hash, block: seq<byte>)
  {
    && |block| == 64 && used == |message| % 64
    && block[..used] == message[|message| - used..]
    && state == Blocks(INITIAL, message[..|message| - used])
  }

  lemma AbsorbedSize(message: seq<byte>, used: nat, state: Hash, block: seq<byte>)
    requires Absorbed(message, used, state, block)
    ensures |block| == 64 && used < 64 && used == |message| % 64
  {
    hide Blocks;
  }

  lemma SplitRest(message: seq<byte>, rest: seq<byte>, take: nat)
    requires take <= |rest|
    ensures message + rest[..take] + rest[take..] == message + rest
    ensures (message + rest[..take])[|message|..] == rest[..take]
    ensures (message + rest[..take])[..|message|] == message
  {
  }

  lemma Absorbing(message: seq<byte>, used: nat, state: Hash, before: seq<byte>, longer: seq<byte>, after: seq<byte>,
                  take: nat)
    requires Absorbed(message, used, state, before) && |after| == 64
    requires |longer| == |message| + take && longer[..|message|] == message && used + take <= 64
    requires after[..used + take] == before[..used] + longer[|message|..]
    ensures used + take < 64 ==> Absorbed(longer, used + take, state, after)
    ensures used + take == 64 ==> Absorbed(longer, 0, Compress(state, after), after)
  {
    var start := |message| - used;
    hide Compress;
    assert longer[start..] == message[start..] + longer[|message|..];
    assert after[..used + take] == longer[start..];
    assert longer[..start] == message[..start];
    if used + take == 64 {
      assert after[..64] == after;
      BlocksSnoc(INITIAL, message[..start], after);
      assert longer == longer[..start] + longer[start..];
      assert longer[..|longer|] == longer;
    }
  }
}
