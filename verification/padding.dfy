/** What the block drivers share: padded messages as they grow in message memory. */
module Padding {
  import opened Words
  import opened RegAccess
  import opened Fips180

  /** Fewer than four bytes are all in the carry. */
  lemma HoldsNothing(mem: seq<word>, s: seq<byte>)
    requires |s| < 4
    ensures Stored(mem, s, s)
  {
    assert mem[..0] == [] && s[..0] == [];
  }

  /** A held block is what the engine would latch. */
  lemma HoldsBlock(mem: seq<word>, s: seq<byte>, size: BlockSize)
    requires |mem| >= size.BlockWords() && |s| >= size.Chunk() && Holds(mem, s[..size.Chunk()])
    ensures Flatten(mem[..size.BlockWords()]) == s[..size.Chunk()]
  {
    var b := s[..size.Chunk()];
    assert |b| / 4 == size.BlockWords();
    assert b[..4 * (|b| / 4)] == b;
  }

  /** The message, its 0x80 byte and `z` zeros. */
  function Marked(m: seq<byte>, z: nat): (s: seq<byte>)
    ensures |s| == |m| + 1 + z
  {
    m + [0x80] + Zeros(z)
  }

  lemma PaddedIsZeros(s: seq<byte>, count: nat)
    requires |s| % 4 == 0 && count % 4 == 0
    ensures Padded(s, 0, (count + 3) / 4) == s + Zeros(count)
  {
  }

  lemma MarkedGrows(m: seq<byte>, z: nat, k: nat)
    ensures Marked(m, z) + Zeros(k) == Marked(m, z + k)
  {
    AppendZeros(m + [0x80], z, k);
  }

  /** `s` completed to a block with zeros and the 64-bit length of an `n`-byte message. */
  function LastBlock(s: seq<byte>, n: nat, size: BlockSize): (b: seq<byte>)
    requires |s| <= size.Chunk() - 8
    ensures |b| == size.Chunk()
  {
    s + Zeros(size.Chunk() - 8 - |s|) + BigEndian(8 * n, 8)
  }

  /** The zeros before the length field are as many as FIPS 180-4 asks for. */
  lemma ZerosFit(n: nat, z: nat, sent: nat, tail: nat, size: BlockSize)
    requires size.Rem(sent) == 0 && sent + tail == n + 1 + z
    requires tail <= size.Chunk() - size.LengthBytes() && z < size.LengthBytes()
    ensures ZeroCount(n, size) == z + size.Chunk() - size.LengthBytes() - tail
  {
    size.RemAdd(sent, size.Chunk());
    size.RemSmall(size.Chunk());
    var k := z + size.Chunk() - size.LengthBytes() - tail;
    assert n + 1 + k + size.LengthBytes() == sent + size.Chunk();
    ZeroCountIsLeast(n, size, k);
  }

  /** The padding with its length field cut to eight bytes and the rest of it counted among the zeros. */
  lemma PadAsMarked(m: seq<byte>, size: BlockSize)
    requires 8 * |m| < Pow256(8)
    ensures Pad(m, size) == Marked(m, ZeroCount(|m|, size) + size.LengthBytes() - 8) + BigEndian(8 * |m|, 8)
  {
    hide BlockSize.Rem, ZeroCount, Zeros, BigEndian, Pow256;
    var l, k := size.LengthBytes(), ZeroCount(|m|, size);
    var len := BigEndian(8 * |m|, 8);
    BigEndianWiden(8 * |m|, 8, l - 8);
    MarkedGrows(m, k, l - 8);
    Associative(Marked(m, k), Zeros(l - 8), len);
  }

  /** The last block of the padded message, whatever part of it is already in memory. */
  lemma LastBlockPads(m: seq<byte>, z: nat, sent: seq<byte>, tail: seq<byte>, size: BlockSize)
    requires size.Rem(|sent|) == 0 && sent + tail == Marked(m, z)
    requires |tail| <= size.Chunk() - size.LengthBytes() && z < size.LengthBytes()
    requires 8 * |m| < Pow256(8)
    ensures sent + LastBlock(tail, |m|, size) == Pad(m, size)
  {
    hide BlockSize.Rem, ZeroCount, Zeros, BigEndian, Pow256, Pad;
    var a := size.Chunk() - 8 - |tail|;
    assert |sent| + |tail| == |sent + tail| == |m| + 1 + z;
    ZerosFit(|m|, z, |sent|, |tail|, size);
    PadAsMarked(m, size);
    MarkedGrows(m, z, a);
    Regroup(sent, tail, Zeros(a), BigEndian(8 * |m|, 8));
  }

  /** Padding forgets nothing: different messages are padded differently. */
  lemma PadTells(a: seq<byte>, b: seq<byte>, size: BlockSize)
    requires 8 * |a| < Pow256(8) && 8 * |b| < Pow256(8) && Pad(a, size) == Pad(b, size)
    ensures a == b
  {
    hide Pad, BigEndian, Pow256, Value;
    var p := Pad(a, size);
    LengthField(a, size);
    LengthField(b, size);
    BigEndianValue(8 * |a|, 8);
    BigEndianValue(8 * |b|, 8);
    assert a == p[..|a|] && b == p[..|b|];
  }

  lemma LengthField(m: seq<byte>, size: BlockSize)
    requires 8 * |m| < Pow256(8)
    ensures var p := Pad(m, size); |p| >= 8 && p[|p| - 8..] == BigEndian(8 * |m|, 8) && m <= p
  {
    hide Marked, Pad, BigEndian, Pow256;
    PadAsMarked(m, size);
  }

  lemma Regroup(a: seq<byte>, b: seq<byte>, c: seq<byte>, d: seq<byte>)
    ensures a + (b + c + d) == a + b + c + d
    ensures a + (b + c + d) == a + b + (c + d)
  {
  }

  /** With at most this many message bytes the 32-bit cursor does not overflow while padding. */
  const MESSAGE_LIMIT: nat := 0xFFFF_FF00

  lemma LimitFitsLength(n: nat)
    requires n <= MESSAGE_LIMIT
    ensures 8 * n < Pow256(8)
  {
    assert Pow256(4) == 0x1_0000_0000;
    assert Pow256(8) == 0x1_0000_0000 * Pow256(4);
  }
}
