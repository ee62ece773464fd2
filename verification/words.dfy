/** Bytes, 32-bit register words and the conversions between them. */
module Words {
  type byte = bv8

  /** A 32-bit register, as the four bytes it occupies in memory order. */
  datatype word = Word(b0: byte, b1: byte, b2: byte, b3: byte)

  /** Addition of bit patterns without carry. */
  function Add(a: byte, b: byte): byte {
    a ^ b
  }

  function Min(a: int, b: int): int {
    if a < b then a else b
  }

  lemma Associative<T>(a: seq<T>, b: seq<T>, c: seq<T>)
    ensures a + (b + c) == (a + b) + c
  {
  }

  /** `u32::from_ne_bytes`: the word whose bytes in memory order are `b`. */
  function WordFromBytes(b: seq<byte>): word
    requires |b| == 4
  {
    Word(b[0], b[1], b[2], b[3])
  }

  /** `u32::to_ne_bytes`. */
  function WordToBytes(w: word): (b: seq<byte>)
    ensures |b| == 4
    ensures WordFromBytes(b) == w
  {
    [w.b0, w.b1, w.b2, w.b3]
  }

  /** The bytes a run of registers shows, lowest address first. */
  function Flatten(ws: seq<word>): (s: seq<byte>)
    ensures |s| == 4 * |ws|
  {
    if ws == [] then [] else Flatten(ws[..|ws| - 1]) + WordToBytes(ws[|ws| - 1])
  }

  /** The registers `mem` hold every complete 4-byte group of `s`. */
  ghost predicate Holds(mem: seq<word>, s: seq<byte>) {
    |s| / 4 <= |mem| && Flatten(mem[..|s| / 4]) == s[..4 * (|s| / 4)]
  }

  lemma {:induction false} FlattenAppend(a: seq<word>, b: seq<word>)
    ensures Flatten(a + b) == Flatten(a) + Flatten(b)
  {
    if b == [] {
      assert a + b == a;
    } else {
      var n := |b| - 1;
      FlattenAppend(a, b[..n]);
      assert (a + b)[..|a| + n] == a + b[..n];
      assert (a + b)[|a| + n] == b[n];
    }
  }

  /** A prefix of what registers hold is held as well. */
  lemma HoldsPrefix(mem: seq<word>, s: seq<byte>, n: nat)
    requires Holds(mem, s) && n <= |s|
    ensures Holds(mem, s[..n])
  {
    var k, m := n / 4, |s| / 4;
    FlattenAppend(mem[..k], mem[k..m]);
    assert mem[..k] + mem[k..m] == mem[..m];
    assert Flatten(mem[..k]) == Flatten(mem[..m])[..4 * k];
    assert s[..n][..4 * k] == s[..4 * m][..4 * k];
  }

  /** Bytes beyond the last complete group do not show in the registers. */
  lemma HoldsExtend(mem: seq<word>, s: seq<byte>, t: seq<byte>)
    requires Holds(mem, s) && s <= t && |t| / 4 == |s| / 4
    ensures Holds(mem, t)
  {
    assert t[..4 * (|s| / 4)] == s[..4 * (|s| / 4)];
  }

  /** Writing word |s|/4 extends a held string of whole words by one word. */
  lemma HoldsAppend(mem: seq<word>, s: seq<byte>, bytes: seq<byte>)
    requires |s| % 4 == 0 && |bytes| == 4 && Holds(mem, s) && |s| / 4 < |mem|
    ensures Holds(mem[|s| / 4 := WordFromBytes(bytes)], s + bytes)
  {
    var w := |s| / 4;
    var after := mem[w := WordFromBytes(bytes)];
    assert after[..w + 1][..w] == mem[..w];
    assert WordToBytes(WordFromBytes(bytes)) == bytes;
    assert s[..4 * w] == s && (s + bytes)[..4 * w + 4] == s + bytes;
  }

  lemma Rejoin(a: seq<byte>, b: seq<byte>, n: nat)
    requires n <= |b|
    ensures a + b[..n] + b[n..] == a + b
  {
  }

  function Repeat(b: byte, n: nat): (s: seq<byte>)
    ensures |s| == n
    ensures forall i :: 0 <= i < n ==> s[i] == b
  {
    seq(n, _ => b)
  }

  function Zeros(n: nat): (s: seq<byte>)
    ensures |s| == n
    ensures forall i :: 0 <= i < n ==> s[i] == 0
  {
    Repeat(0, n)
  }

  lemma AppendZeros(s: seq<byte>, n: nat, more: nat)
    ensures s + Zeros(n) + Zeros(more) == s + Zeros(n + more)
  {
    assert Zeros(n) + Zeros(more) == Zeros(n + more);
    assert s + Zeros(n) + Zeros(more) == s + (Zeros(n) + Zeros(more));
  }

  /** `n as u8`, counted up from zero: the verifier knows little about conversions from numbers to bit vectors. */
  function ByteOf(n: nat): (b: byte)
    requires n < 256
    ensures b as int == n
  {
    if n == 0 then 0 else ByteOf(n - 1) + 1
  }

  /** The low `n` bytes of `v`, most significant first (`to_be_bytes`). */
  function BigEndian(v: nat, n: nat): (s: seq<byte>)
    ensures |s| == n
  {
    if n == 0 then [] else BigEndian(v / 256, n - 1) + [ByteOf(v % 256)]
  }

  /** The number a byte string denotes, most significant byte first. */
  function Value(s: seq<byte>): nat {
    if s == [] then 0 else 256 * Value(s[..|s| - 1]) + s[|s| - 1] as int
  }

  function Pow256(n: nat): (p: nat)
    ensures p > 0
  {
    if n == 0 then 1 else 256 * Pow256(n - 1)
  }

  lemma {:induction false} BigEndianValue(v: nat, n: nat)
    requires v < Pow256(n)
    ensures Value(BigEndian(v, n)) == v
  {
    if n > 0 {
      BigEndianValue(v / 256, n - 1);
      var s := BigEndian(v, n);
      assert s[..n - 1] == BigEndian(v / 256, n - 1);
    }
  }

  /** A number that fits `n` bytes needs only zeros in front of them. */
  lemma {:induction false} BigEndianWiden(v: nat, n: nat, extra: nat)
    requires v < Pow256(n)
    ensures BigEndian(v, n + extra) == Zeros(extra) + BigEndian(v, n)
  {
    if n > 0 {
      BigEndianWiden(v / 256, n - 1, extra);
      assert Zeros(extra) + BigEndian(v, n) == (Zeros(extra) + BigEndian(v / 256, n - 1)) + [ByteOf(v % 256)];
    } else if extra > 0 {
      BigEndianWiden(0, 0, extra - 1);
      assert Zeros(extra) == Zeros(extra - 1) + [0];
    } else {
      assert Zeros(0) == [];
    }
  }

  /** The pieces of a byte string, joined. */
  function Concat(bs: seq<seq<byte>>): seq<byte> {
    if bs == [] then [] else Concat(bs[..|bs| - 1]) + bs[|bs| - 1]
  }

  lemma ConcatLast(pieces: seq<seq<byte>>, last: seq<byte>)
    ensures Concat(pieces + [last]) == Concat(pieces) + last
  {
    assert (pieces + [last])[..|pieces|] == pieces;
  }

  lemma ConcatStart(pieces: seq<seq<byte>>)
    ensures Concat(pieces[..0]) == []
  {
  }

  lemma {:induction false} ConcatPrefix(pieces: seq<seq<byte>>, i: nat)
    requires i <= |pieces|
    ensures |Concat(pieces[..i])| <= |Concat(pieces)|
    decreases |pieces|
  {
    if i == |pieces| {
      assert pieces[..i] == pieces;
    } else {
      assert pieces[..|pieces| - 1][..i] == pieces[..i];
      ConcatPrefix(pieces[..|pieces| - 1], i);
    }
  }

  lemma ConcatStep(pieces: seq<seq<byte>>, i: nat)
    requires i < |pieces|
    ensures Concat(pieces[..i + 1]) == Concat(pieces[..i]) + pieces[i]
    ensures |Concat(pieces[..i])| + |pieces[i]| <= |Concat(pieces)|
  {
    assert pieces[..i + 1][..i] == pieces[..i];
    ConcatPrefix(pieces, i + 1);
  }
}
