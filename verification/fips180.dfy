/** Message padding and parsing of FIPS 180-4, sections 5.1 and 5.2. */
module Fips180 {
  import opened Words
  import Arith

  /** The two block sizes of the SHA family: 512 bits (SHA-1, SHA-2 up to 256) and 1024 bits. */
  datatype BlockSize = Bits512 | Bits1024 {
    function Chunk(): (c: nat) {
      if Bits512? then 64 else 128
    }

    /** Position within a block. */
    function Rem(n: nat): (r: nat)
      ensures r < Chunk()
    {
      if Bits512? then n % 64 else n % 128
    }

    lemma RemAdd(n: nat, k: nat)
      requires Rem(n) == 0
      ensures Rem(n + k) == Rem(k)
    {
      if Bits512? {
        Arith.RemainderOf(n + k, 64, n / 64 + k / 64, k % 64);
      } else {
        Arith.RemainderOf(n + k, 128, n / 128 + k / 128, k % 128);
      }
    }

    lemma RemSmall(n: nat)
      ensures n < Chunk() ==> Rem(n) == n
      ensures Chunk() <= n < 2 * Chunk() ==> Rem(n) == n - Chunk()
      ensures Rem(n) == Chunk() - 1 ==> Rem(n + 1) == 0 && n >= Chunk() - 1
    {
      if n < Chunk() {
        Arith.RemainderOf(n, Chunk(), 0, n);
      } else if n < 2 * Chunk() {
        Arith.RemainderOf(n, Chunk(), 1, n - Chunk());
      }
      if Rem(n) == Chunk() - 1 {
        Arith.RemainderOf(n + 1, Chunk(), n / Chunk() + 1, 0);
      }
    }

    lemma RemZero()
      ensures Rem(0) == 0 < Chunk()
    {
    }

    /** A string of whole blocks is empty or stays one when it loses a block. */
    lemma RemWhole(n: nat)
      requires Rem(n) == 0
      ensures n < Chunk() ==> n == 0
      ensures n >= Chunk() ==> Rem(n - Chunk()) == 0
    {
    }

    /** 32-bit words per block. */
    function BlockWords(): (n: nat)
      ensures 4 * n == Chunk()
    {
      if Bits512? then 16 else 32
    }

    /** Bytes of the length field at the end of the last block. */
    function LengthBytes(): (n: nat) {
      if Bits512? then 8 else 16
    }
  }

  /** The least number that takes `n` bytes to a block boundary. */
  function ToBoundary(n: nat, size: BlockSize): (k: nat)
    ensures k < size.Chunk()
    ensures size.Rem(n + k) == 0
  {
    var r := size.Rem(n);
    BoundaryAfter(n, size);
    if r == 0 then 0 else size.Chunk() - r
  }

  lemma BoundaryAfter(n: nat, size: BlockSize)
    ensures size.Rem(n) > 0 ==> size.Rem(n + size.Chunk() - size.Rem(n)) == 0
  {
    if size.Bits512? {
      Arith.RemainderOf(n + 64 - n % 64, 64, n / 64 + 1, 0);
    } else {
      Arith.RemainderOf(n + 128 - n % 128, 128, n / 128 + 1, 0);
    }
  }

  /** A step of `k` short of the boundary, or past it by less than a block, does not end on one. */
  lemma OffBoundary(n: nat, k: nat, size: BlockSize)
    ensures 0 < size.Rem(n) + k < size.Chunk() ==> size.Rem(n + k) != 0
    ensures size.Chunk() < size.Rem(n) + k < 2 * size.Chunk() ==> size.Rem(n + k) != 0
  {
    var c, q := size.Chunk(), if size.Bits512? then n / 64 else n / 128;
    var r := size.Rem(n);
    assert n == q * c + r;
    if 0 < r + k < c {
      Arith.RemainderOf(n + k, c, q, r + k);
    } else if c < r + k < 2 * c {
      Arith.RemainderOf(n + k, c, q + 1, r + k - c);
    }
  }

  /** The number of zero bytes between the appended 0x80 byte and the length field. */
  function ZeroCount(n: nat, size: BlockSize): (k: nat)
    ensures k < size.Chunk()
    ensures size.Rem(n + 1 + k + size.LengthBytes()) == 0
  {
    ToBoundary(n + 1 + size.LengthBytes(), size)
  }

  /** No other number of zeros below a block fills the last block. */
  lemma ZeroCountIsLeast(n: nat, size: BlockSize, k: nat)
    requires size.Rem(n + 1 + k + size.LengthBytes()) == 0
    ensures ZeroCount(n, size) <= k
    ensures k < size.Chunk() ==> k == ZeroCount(n, size)
  {
    var before := n + 1 + size.LengthBytes();
    assert before + k == n + 1 + k + size.LengthBytes();
    hide BlockSize.Rem, BlockSize.LengthBytes;
    OffBoundary(before, k, size);
  }

  function Pad(m: seq<byte>, size: BlockSize): (p: seq<byte>)
    ensures m <= p && size.Rem(|p|) == 0
  {
    m + [0x80] + Zeros(ZeroCount(|m|, size)) + BigEndian(8 * |m|, size.LengthBytes())
  }

  /** Section 5.2: the padded message as a sequence of `c`-byte blocks. */
  function Blocks(s: seq<byte>, c: nat): (bs: seq<seq<byte>>)
    requires c > 0
    ensures forall b :: b in bs ==> |b| == c
  {
    if |s| < c then [] else Blocks(s[..|s| - c], c) + [s[|s| - c..]]
  }

  /** Cutting into blocks loses and reorders nothing. */
  lemma {:induction false} BlocksConcat(s: seq<byte>, size: BlockSize)
    requires size.Rem(|s|) == 0
    ensures Concat(Blocks(s, size.Chunk())) == s
  {
    hide Concat, BlockSize.Rem, BlockSize.Chunk;
    var c := size.Chunk();
    size.RemWhole(|s|);
    if |s| >= c {
      BlocksConcat(s[..|s| - c], size);
      ConcatLast(Blocks(s[..|s| - c], c), s[|s| - c..]);
      assert s == s[..|s| - c] + s[|s| - c..];
    } else {
      ConcatStart([]);
    }
  }

  lemma BlocksAppend(s: seq<byte>, b: seq<byte>, c: nat)
    requires c > 0 && |b| == c
    ensures Blocks(s + b, c) == Blocks(s, c) + [b]
  {
    assert (s + b)[..|s|] == s && (s + b)[|s|..] == b;
  }

  /** Section 5.1.1, for SHA-1, SHA-224 and SHA-256: a 1 bit, least zeros, and the length in bits in eight bytes. */
  lemma Pad512(m: seq<byte>)
    requires 8 * |m| < Pow256(8)
    ensures var p := Pad(m, Bits512);
            && m <= p && |p| % 64 == 0 && |m| + 9 <= |p| < |m| + 9 + 64
            && p[|m|] == 0x80 && (forall i :: |m| < i < |p| - 8 ==> p[i] == 0)
            && p[|p| - 8..] == BigEndian(8 * |m|, 8) && Value(p[|p| - 8..]) == 8 * |m|
  {
    hide Zeros, BigEndian, Value, Pow256;
    PadParts(m, Bits512);
    BigEndianValue(8 * |m|, 8);
  }

  /** Section 5.1.2, for SHA-384 and SHA-512: the same with blocks of 128 bytes and the length in sixteen. */
  lemma Pad1024(m: seq<byte>)
    requires 8 * |m| < Pow256(16)
    ensures var p := Pad(m, Bits1024);
            && m <= p && |p| % 128 == 0 && |m| + 17 <= |p| < |m| + 17 + 128
            && p[|m|] == 0x80 && (forall i :: |m| < i < |p| - 16 ==> p[i] == 0)
            && p[|p| - 16..] == BigEndian(8 * |m|, 16) && Value(p[|p| - 16..]) == 8 * |m|
  {
    hide Zeros, BigEndian, Value, Pow256;
    PadParts(m, Bits1024);
    BigEndianValue(8 * |m|, 16);
  }

  lemma PadParts(m: seq<byte>, size: BlockSize)
    ensures var p, k, l := Pad(m, size), ZeroCount(|m|, size), size.LengthBytes();
            && |p| == |m| + 1 + k + l && m <= p && p[|m|] == 0x80
            && (forall i :: |m| < i < |p| - l ==> p[i] == 0) && p[|p| - l..] == BigEndian(8 * |m|, l)
  {
    hide ZeroCount, BigEndian;
  }

  lemma Room(c: nat, i: nat, k: nat)
    requires i < k
    ensures c * i + c <= c * k && c * (k - 1) + c == c * k && 0 <= c * (k - 1)
    ensures i < k - 1 ==> c * i + c <= c * (k - 1)
  {
    Arith.ProductMonotone(i + 1, k, c);
    if i < k - 1 {
      Arith.ProductMonotone(i + 1, k - 1, c);
    }
  }

  lemma SliceOfPrefix(s: seq<byte>, n: nat, i: nat, j: nat)
    requires i <= j <= n <= |s|
    ensures s[..n][i..j] == s[i..j]
  {
  }

  lemma {:induction false} BlocksAt(s: seq<byte>, c: nat, k: nat, i: nat)
    requires c > 0 && |s| == c * k && i < k
    ensures |Blocks(s, c)| == k && 0 <= c * i && c * i + c <= |s| && Blocks(s, c)[i] == s[c * i..c * i + c]
  {
    hide Blocks;
    Room(c, i, k);
    var n := c * (k - 1);
    assert s == s[..n] + s[n..];
    BlocksAppend(s[..n], s[n..], c);
    if k == 1 {
      NoBlock(s[..n], c);
    } else if i < k - 1 {
      BlocksAt(s[..n], c, k - 1, i);
      SliceOfPrefix(s, n, c * i, c * i + c);
    } else {
      BlocksAt(s[..n], c, k - 1, 0);
    }
  }

  /** Block `i` of a string is its `i`-th piece of 64 or 128 bytes. */
  lemma BlocksAre(s: seq<byte>, size: BlockSize)
    requires size.Rem(|s|) == 0
    ensures var c, bs := if size.Bits512? then 64 else 128, Blocks(s, size.Chunk());
            c * |bs| == |s| && forall i :: 0 <= i < |bs| ==> c * i + c <= |s| && bs[i] == s[c * i..c * i + c]
  {
    hide Blocks;
    var c := if size.Bits512? then 64 else 128;
    var k := |s| / c;
    assert |s| == c * k && size.Chunk() == c;
    if k == 0 {
      NoBlock(s, c);
    } else {
      forall i | 0 <= i < k ensures |Blocks(s, c)| == k && c * i + c <= |s| && Blocks(s, c)[i] == s[c * i..c * i + c] {
        BlocksAt(s, c, k, i);
      }
      BlocksAt(s, c, k, 0);
    }
  }

  lemma NoBlock(s: seq<byte>, c: nat)
    requires |s| < c
    ensures Blocks(s, c) == []
  {
  }
}
