/** The carry buffer that turns a byte stream into whole-word register writes. */
module RegAccess {
  import opened Words

  /** How many bytes a string of `n` bytes lacks to be whole words. */
  function Missing(n: nat): (k: nat)
    ensures k < 4
  {
    (4 - n % 4) % 4
  }

  lemma MissingFits(n: nat, bound: nat)
    requires n <= bound && bound % 4 == 0
    ensures n + Missing(n) <= bound
  {
  }

  /** How many bytes of `src` one copy consumes, `room` bytes before the bound. */
  function Consumed(fill: nat, src: nat, room: nat): (n: nat)
    requires fill < 4 && room > 0
  {
    if src < room then src
    else if (fill > 0 && room == 4 - fill) || src - room >= 4 then room
    else src
  }

  /**
   * A copy takes everything, or exactly what the block has room for; past the bound it takes only what is left of the
   * source, and that is less than a word.
   */
  lemma ConsumedMeans(fill: nat, src: nat, room: nat)
    requires fill < 4 && room > 0
    ensures var n := Consumed(fill, src, room);
            && (n == src || n == room <= src)
            && (src <= room ==> n == src)
            && (n > room ==> src < room + 4)
            && (src >= room + 4 ==> n == room)
            && (fill > 0 && room == 4 - fill <= src ==> n == room)
  {
  }

  /** Completing to words needs the least number of bytes. */
  lemma MissingMeans(n: nat)
    ensures (n + Missing(n)) % 4 == 0 && Missing(n) <= 3
  {
  }

  /** How many bytes of an `n`-byte source go straight to registers, `at` bytes into the block. */
  method WholeWords(n: nat, bound: nat, at: nat) returns (len: nat)
    requires at % 4 == 0 && bound % 4 == 0 && at < bound
    ensures len <= n && len % 4 == 0 && at + len <= bound
    ensures (at / 4 + len / 4 == bound / 4) == (at + len == bound)
    ensures if 0 < n - len < 4
            then && Consumed(0, n, bound - at) == n && (at + n) % 4 == n - len
                 && (at + n) / 4 == (at + len) / 4 && (at + n >= bound) == (at + len == bound)
            else Consumed(0, n, bound - at) == len
  {
    len := Min((bound / 4 - at / 4) * 4, n / 4 * 4);
  }

  /** Registers and carry together hold exactly the byte string `s`. */
  ghost predicate Stored(mem: seq<word>, carry: seq<byte>, s: seq<byte>) {
    Holds(mem, s) && carry == s[4 * (|s| / 4)..]
  }

  lemma NothingCarried(mem: seq<word>, s: seq<byte>)
    requires Stored(mem, [], s)
    ensures |s| % 4 == 0
  {
    assert |s[4 * (|s| / 4)..]| == 0;
  }

  /** Where a copy bounded by `bound` bytes leaves registers and carry once `t` was accepted. */
  ghost predicate Copied(mem: seq<word>, carry: seq<byte>, t: seq<byte>, bound: nat) {
    if |t| < bound then Stored(mem, carry, t)
    else Holds(mem, t[..bound]) && carry == t[bound..]
  }

  /** After the whole words of a copy are stored, a tail under four bytes belongs to the carry. */
  lemma TailAccepted(mem: seq<word>, s: seq<byte>, src: seq<byte>, len: nat)
    requires len < |src| < len + 4 && Holds(mem, s + src[..len])
    requires (|s| + |src|) / 4 == (|s| + len) / 4
    ensures s + src[..|src|] == s + src && Holds(mem, s + src)
    ensures (s + src)[..|s| + len] == s + src[..len] && (s + src)[|s| + len..] == src[len..]
  {
    var t := s + src[..len];
    assert s + src[..|src|] == s + src == t + src[len..];
    HoldsExtend(mem, t, s + src);
  }

  lemma TailKept(a: seq<word>, b: seq<word>, i: nat, j: nat)
    requires |a| == |b| && i <= j <= |a| && a[i..] == b[i..]
    ensures a[j..] == b[j..]
  {
    assert a[j..] == a[i..][j - i..] && b[j..] == b[i..][j - i..];
  }

  lemma CopiedWords(mem: seq<word>, t: seq<byte>, bound: nat)
    requires Holds(mem, t) && |t| % 4 == 0 && |t| <= bound
    ensures Copied(mem, [], t, bound)
  {
    hide Holds;
    if |t| == bound {
      assert t[..bound] == t && t[bound..] == [];
    } else {
      assert t[4 * (|t| / 4)..] == [];
    }
  }

  lemma CopiedTail(mem: seq<word>, t: seq<byte>, tail: seq<byte>, bound: nat)
    requires Holds(mem, t) && Holds(mem, t + tail) && |t| % 4 == 0 && |t| <= bound && 0 < |tail| < 4 && bound % 4 == 0
    ensures Copied(mem, tail, t + tail, bound)
  {
    hide Holds;
    if |t| == bound {
      assert (t + tail)[..bound] == t && (t + tail)[bound..] == tail;
    } else {
      assert 4 * (|t + tail| / 4) == |t|;
      assert (t + tail)[|t|..] == tail;
    }
  }

  class AlignmentHelper {
    const buf: array<byte>
    var fill: nat

    ghost predicate Valid()
      reads this
    {
      buf.Length == 4 && fill < 4
    }

    /** The register file is not the carry buffer. */
    ghost predicate Apart(mem: array<word>) {
      mem as object != buf as object
    }

    /** The bytes accepted but not yet written to a register. */
    ghost function Carry(): (c: seq<byte>)
      reads this, buf
    {
      buf[..Min(fill, buf.Length)]
    }

    constructor ()
      ensures Valid() && fill == 0 && fresh(buf)
    {
      buf := new byte[4](_ => 0);
      fill := 0;
    }

    method Reset()
      requires Valid()
      modifies this`fill
      ensures Valid() && fill == 0
    {
      fill := 0;
    }

    /** Overwrites `buf[fill..]` with `val`, as both padding writers do. */
    method PadBuffer(val: byte)
      requires Valid()
      modifies buf
      ensures buf[..] == old(buf[..fill]) + Repeat(val, 4 - fill)
    {
      for i := fill to 4
        invariant buf[..fill] == old(buf[..fill])
        invariant forall k :: fill <= k < i ==> buf[k] == val
      {
        buf[i] := val;
      }
      assert buf[..] == buf[..fill] + buf[fill..];
    }

    /** One aligned register write of the four bytes that continue `s`. */
    method StoreWord(mem: array<word>, w: nat, bytes: seq<byte>, ghost s: seq<byte>)
      requires |bytes| == 4 && |s| == 4 * w && w < mem.Length && Holds(mem[..], s)
      modifies mem
      ensures Holds(mem[..], s + bytes)
      ensures mem[w + 1..] == old(mem[w + 1..])
    {
      mem[w] := WordFromBytes(bytes);
      HoldsAppend(old(mem[..]), s, bytes);
      assert mem[..] == old(mem[..])[w := WordFromBytes(bytes)];
    }

    /** Writes the carry, padded with `val`, as one whole word if there is any. */
    method FlushCarry(mem: array<word>, w: nat, val: byte, ghost s: seq<byte>)
      requires Apart(mem)
      requires Valid() && Stored(mem[..], Carry(), s) && w == |s| / 4 && fill != 0 && w < mem.Length
      modifies this`fill, buf, mem
      ensures Valid() && fill == 0 && Stored(mem[..], Carry(), s + Repeat(val, 4 - |s| % 4))
      ensures mem[w + 1..] == old(mem[w + 1..])
    {
      ghost var whole := s[..4 * w];
      assert s == whole + buf[..fill];
      PadBuffer(val);
      HoldsPrefix(mem[..], s, 4 * w);
      StoreWord(mem, w, buf[..], whole);
      assert s + Repeat(val, 4 - fill) == whole + buf[..];
      fill := 0;
    }

    method FlushTo(mem: array<word>, offset: nat, ghost s: seq<byte>) returns (flushed: nat)
      requires Apart(mem)
      requires Valid() && Stored(mem[..], Carry(), s) && offset == |s| && |s| < 4 * mem.Length
      modifies this`fill, buf, mem
      ensures flushed == Missing(|s|)
      ensures Valid() && fill == 0 && Carry() == [] && Stored(mem[..], Carry(), s + Zeros(flushed))
      ensures flushed == 0 ==> mem[..] == old(mem[..])
      ensures mem[|s| / 4 + 1..] == old(mem[|s| / 4 + 1..])
    {
      if fill != 0 {
        flushed := 4 - fill;
        FlushCarry(mem, offset / 4, 0, s);
      } else {
        flushed := 0;
        assert s + Zeros(0) == s;
      }
    }

    /** Writes whole words of zeros from word `w + from` up to word `w + words`. */
    method ZeroWords(mem: array<word>, w: nat, from: nat, words: nat, ghost s: seq<byte>)
      requires |s| == 4 * (w + from) && Holds(mem[..], s) && w + words <= mem.Length
      modifies mem
      ensures Holds(mem[..], s + Zeros(4 * (if words < from then 0 else words - from)))
      ensures mem[w + words..] == old(mem[w + words..])
    {
      hide Holds, Flatten;
      var cursor := from;
      assert s + Zeros(0) == s;
      while cursor < words
        invariant from <= cursor && (cursor <= words || cursor == from)
        invariant Holds(mem[..], s + Zeros(4 * (cursor - from)))
        invariant mem[w + words..] == old(mem[w + words..])
      {
        StoreWord(mem, w + cursor, Zeros(4), s + Zeros(4 * (cursor - from)));
        AppendZeros(s, 4 * (cursor - from), 4);
        cursor := cursor + 1;
      }
    }

    /** Writes the carry padded with `val`, then words of zeros, `count` bytes rounded up in all. */
    method VolatileWrite(mem: array<word>, val: byte, count: nat, offset: nat, ghost s: seq<byte>)
      requires Apart(mem)
      requires Valid() && Stored(mem[..], Carry(), s) && offset == |s|
      requires |s| / 4 + (count + 3) / 4 <= mem.Length && (fill != 0 ==> |s| / 4 < mem.Length)
      modifies this`fill, buf, mem
      ensures fill == 0
      ensures Valid() && Stored(mem[..], Carry(), Padded(s, val, (count + 3) / 4))
      ensures var end := |s| / 4 + PaddedWords(s, (count + 3) / 4); mem[end..] == old(mem[end..])
    {
      hide Holds, Flatten;
      var words := (count + 3) / 4;
      var w := offset / 4;
      if fill != 0 {
        FlushCarry(mem, w, val, s);
        ghost var flushed := mem[..];
        ZeroWords(mem, w, 1, words, s + Repeat(val, 4 - |s| % 4));
        TailKept(old(mem[..]), flushed, w + 1, if words == 0 then w + 1 else w + words);
        TailKept(flushed, mem[..], w + words, if words == 0 then w + 1 else w + words);
      } else {
        ZeroWords(mem, w, 0, words, s);
      }
      assert Carry() == [];
    }

    /** Moves up to `4 - fill` bytes of `src` into the carry buffer. */
    method FillCarry(mem: array<word>, src: seq<byte>, ghost s: seq<byte>) returns (n: nat)
      requires Apart(mem)
      requires Valid() && Stored(mem[..], Carry(), s) && fill != 0
      modifies this`fill, buf
      ensures n == Min(|src|, 4 - |s| % 4)
      ensures buf.Length == 4 && fill == |s| % 4 + n <= 4 && buf[..fill] == s[4 * (|s| / 4)..] + src[..n]
      ensures n < 4 - |s| % 4 ==> n == |src| && Valid() && Stored(mem[..], Carry(), s + src)
    {
      var maxFill := 4 - fill;
      n := 0;
      while n < maxFill
        invariant n <= |src| && n <= maxFill && fill == |s| % 4 + n
        invariant buf[..fill] == s[4 * (|s| / 4)..] + src[..n]
      {
        if n >= |src| {
          HoldsExtend(mem[..], s, s + src);
          assert (s + src)[4 * (|s| / 4)..] == s[4 * (|s| / 4)..] + src;
          return;
        }
        buf[fill] := src[n];
        assert buf[..fill + 1] == buf[..fill] + [src[n]];
        fill := fill + 1;
        n := n + 1;
      }
    }

    /** Writes `src`, a whole number of words, from word `w` on. */
    method StoreWords(mem: array<word>, w: nat, src: seq<byte>, ghost s: seq<byte>)
      requires |s| == 4 * w && Holds(mem[..], s) && |src| % 4 == 0 && w + |src| / 4 <= mem.Length
      modifies mem
      ensures Holds(mem[..], s + src)
      ensures mem[w + |src| / 4..] == old(mem[w + |src| / 4..])
    {
      assert s + src[..0] == s;
      for i := 0 to |src| / 4
        invariant Holds(mem[..], s + src[..4 * i])
        invariant mem[w + |src| / 4..] == old(mem[w + |src| / 4..])
      {
        StoreWord(mem, w + i, src[4 * i..4 * i + 4], s + src[..4 * i]);
        assert s + src[..4 * i] + src[4 * i..4 * i + 4] == s + src[..4 * (i + 1)];
      }
      assert src[..4 * (|src| / 4)] == src;
    }

    /** The second half of a copy: `s` is a whole number of words and the carry is empty. */
    method CopyAligned(mem: array<word>, src: seq<byte>, bound: nat, w: nat, ghost s: seq<byte>)
      returns (remaining: seq<byte>, bounded: bool, ghost n: nat)
      requires Apart(mem)
      requires Valid() && Stored(mem[..], Carry(), s) && |s| == 4 * w && bound % 4 == 0 && |s| < bound <= 4 * mem.Length
      modifies this`fill, buf, mem
      ensures n == Consumed(0, |src|, bound - |s|) && remaining == src[n..]
      ensures Valid() && bounded == (|s| + n >= bound) && Copied(mem[..], Carry(), s + src[..n], bound)
      ensures mem[bound / 4..] == old(mem[bound / 4..])
    {
      hide Holds, Flatten, Copied;
      var len := WholeWords(|src|, bound, 4 * w);
      StoreWords(mem, w, src[..len], s);
      remaining := src[len..];
      bounded := w + len / 4 == bound / 4;
      if remaining != [] && |remaining| < 4 {
        TailAccepted(mem[..], s, src, len);
        assert s + src[..len] + remaining == s + src && src[..|src|] == src;
        CopiedTail(mem[..], s + src[..len], remaining, bound);
        Stash(remaining);
        remaining, n := [], |src|;
      } else {
        n := len;
        CopiedWords(mem[..], s + src[..len], bound);
      }
    }

    /** Keeps a tail of fewer than four bytes for the next write. */
    method Stash(tail: seq<byte>)
      requires Valid() && |tail| < 4
      modifies this`fill, buf
      ensures Valid() && fill == |tail| && Carry() == tail
    {
      forall i | 0 <= i < |tail| {
        buf[i] := tail[i];
      }
      fill := |tail|;
    }

    /** Feeds `src` into the registers up to the byte bound `bound`. */
    method AlignedVolatileCopy(mem: array<word>, src: seq<byte>, bound: nat, offset: nat, ghost s: seq<byte>)
      returns (remaining: seq<byte>, bounded: bool, ghost n: nat)
      requires Apart(mem)
      requires Valid() && Stored(mem[..], Carry(), s) && offset == |s|
      requires bound % 4 == 0 && |s| < bound <= 4 * mem.Length
      modifies this`fill, buf, mem
      ensures n == Consumed(|s| % 4, |src|, bound - |s|) && remaining == src[n..]
      ensures Valid() && bounded == (|s| + n >= bound) && Copied(mem[..], Carry(), s + src[..n], bound)
      ensures mem[bound / 4..] == old(mem[bound / 4..])
    {
      hide Holds, Flatten;
      var w := offset / 4;
      if fill == 0 {
        remaining, bounded, n := CopyAligned(mem, src, bound, w, s);
      } else {
        remaining, bounded, n := CopyCarried(mem, src, bound, w, s);
      }
    }

    /** The copy when a partial word is carried: complete it first, then go on. */
    method CopyCarried(mem: array<word>, src: seq<byte>, bound: nat, w: nat, ghost s: seq<byte>)
      returns (remaining: seq<byte>, bounded: bool, ghost n: nat)
      requires Apart(mem)
      requires Valid() && Stored(mem[..], Carry(), s) && w == |s| / 4 && fill != 0
      requires bound % 4 == 0 && |s| < bound <= 4 * mem.Length
      modifies this`fill, buf, mem
      ensures n == Consumed(|s| % 4, |src|, bound - |s|) && remaining == src[n..]
      ensures Valid() && bounded == (|s| + n >= bound) && Copied(mem[..], Carry(), s + src[..n], bound)
      ensures mem[bound / 4..] == old(mem[bound / 4..])
    {
      hide Holds, Flatten;
      var taken := FillCarry(mem, src, s);
      if fill < 4 {
        assert src[..taken] == src;
        remaining, bounded, n := [], false, taken;
      } else {
        StoreFullCarry(mem, w, s, src[..taken]);
        remaining, bounded, n := CopyRest(mem, src, bound, w + 1, taken, s);
      }
    }

    /** Goes on after the first `taken` bytes of `src` completed the carried word. */
    method CopyRest(mem: array<word>, src: seq<byte>, bound: nat, w: nat, taken: nat, ghost s: seq<byte>)
      returns (remaining: seq<byte>, bounded: bool, ghost n: nat)
      requires Apart(mem)
      requires taken <= |src| && Valid() && Stored(mem[..], Carry(), s + src[..taken]) && |s| + taken == 4 * w
      requires bound % 4 == 0 && |s| + taken <= bound <= 4 * mem.Length
      modifies this`fill, buf, mem
      ensures n == (if |s| + taken == bound then taken else taken + Consumed(0, |src| - taken, bound - |s| - taken))
      ensures remaining == src[n..] && Valid() && bounded == (|s| + n >= bound)
              && Copied(mem[..], Carry(), s + src[..n], bound)
      ensures mem[bound / 4..] == old(mem[bound / 4..])
    {
      hide Holds, Flatten;
      ghost var t := s + src[..taken];
      if bound / 4 <= w {
        assert t[..bound] == t;
        remaining, bounded, n := src[taken..], true, taken;
      } else {
        remaining, bounded, n := CopyAligned(mem, src[taken..], bound, w, t);
        SplitTwice(s, src, taken, n);
        n := taken + n;
      }
    }

    /** Writes the completed carry buffer, which holds the end of `s + more`. */
    method StoreFullCarry(mem: array<word>, w: nat, ghost s: seq<byte>, ghost more: seq<byte>)
      requires buf.Length == 4 && fill == 4 && Holds(mem[..], s) && w == |s| / 4 < mem.Length
      requires |s + more| == 4 * w + 4 && buf[..fill] == s[4 * w..] + more
      modifies this`fill, mem
      ensures Valid() && fill == 0 && Stored(mem[..], Carry(), s + more)
      ensures mem[w + 1..] == old(mem[w + 1..])
    {
      ghost var whole := s[..4 * w];
      HoldsPrefix(mem[..], s, 4 * w);
      StoreWord(mem, w, buf[..], whole);
      assert s + more == whole + (s[4 * w..] + more);
      fill := 0;
    }
  }

  lemma SplitTwice(s: seq<byte>, src: seq<byte>, n: nat, m: nat)
    requires n + m <= |src|
    ensures src[n..][m..] == src[n + m..]
    ensures s + src[..n] + src[n..][..m] == s + src[..n + m]
  {
    assert src[..n] + src[n..][..m] == src[..n + m];
    assert s + src[..n] + src[n..][..m] == s + (src[..n] + src[n..][..m]);
  }

  /** Words written when `words` words follow `s`, the first of them completing its last word. */
  function PaddedWords(s: seq<byte>, words: nat): (n: nat) {
    if |s| % 4 != 0 && words == 0 then 1 else words
  }

  /** `s`, completed to a word with `val`, then zeros up to `words` words in all. */
  function Padded(s: seq<byte>, val: byte, words: nat): (t: seq<byte>)
    ensures |t| == 4 * (|s| / 4 + PaddedWords(s, words))
  {
    if |s| % 4 == 0 then s + Zeros(4 * words)
    else s + Repeat(val, 4 - |s| % 4) + Zeros(4 * (PaddedWords(s, words) - 1))
  }

  /** The padding is all `val` only if that is zero or no whole word is written after the started one. */
  lemma PadsWithVal(s: seq<byte>, val: byte, words: nat)
    ensures (Padded(s, val, words) == s + Repeat(val, |Padded(s, val, words)| - |s|))
       <==> (val == 0 || PaddedWords(s, words) <= if |s| % 4 == 0 then 0 else 1)
  {
    var t, started := Padded(s, val, words), if |s| % 4 == 0 then 0 else 1;
    if val != 0 && PaddedWords(s, words) > started {
      assert t[|t| - 1] == 0 != (s + Repeat(val, |t| - |s|))[|t| - 1];
    } else {
      assert t == s + Repeat(val, |t| - |s|);
    }
  }

  /** One word of 0xFF asked for behind a whole word: zeros are written. */
  lemma ValIgnored()
    ensures Padded([1, 2, 3, 4], 0xFF, 1) == [1, 2, 3, 4, 0, 0, 0, 0] != [1, 2, 3, 4] + Repeat(0xFF, 4)
  {
    PadsWithVal([1, 2, 3, 4], 0xFF, 1);
    assert Zeros(4) == [0, 0, 0, 0];
  }
}
