/** Fields of the eFuse block: a run of bits that may start anywhere and cross 32-bit words. */
module Efuse {
  import Arith
  import Words

  const WORD := 0x1_0000_0000

  type u32 = n: nat | n < WORD

  type u8 = n: nat | n < 256

  function Pow2(n: nat): (p: nat)
    ensures p > 0
  {
    if n == 0 then 1 else 2 * Pow2(n - 1)
  }

  // The operators of `u32`, on the numbers they act on.

  /** `w >> k`. */
  function Shr(w: nat, k: nat): (r: nat) {
    Arith.Quotient(w, Pow2(k))
  }

  /** `w.wrapping_shl(k)`: the shift distance wraps at 32, and bits pushed out are lost. */
  function WrappingShl(w: nat, k: nat): (r: nat) {
    (w * Pow2(k % 32)) % WORD
  }

  function Or(a: nat, b: nat): (r: nat) {
    if a == 0 && b == 0 then 0 else 2 * Or(a / 2, b / 2) + (if a % 2 == 1 || b % 2 == 1 then 1 else 0)
  }

  function And(a: nat, b: nat): (r: nat) {
    if a == 0 || b == 0 then 0 else 2 * And(a / 2, b / 2) + (if a % 2 == 1 && b % 2 == 1 then 1 else 0)
  }

  lemma {:induction false} Pow2Adds(a: nat, b: nat)
    ensures Pow2(a + b) == Pow2(a) * Pow2(b)
  {
    if a > 0 {
      Pow2Adds(a - 1, b);
      Arith.Associates(2, Pow2(a - 1), Pow2(b));
    }
  }

  lemma Pow2Word()
    ensures Pow2(32) == WORD && Pow2(8) == 256
  {
    assert Pow2(8) == 256;
    Pow2Adds(8, 8);
    Pow2Adds(16, 16);
  }

  lemma OrDouble(a: nat, c: nat)
    ensures Or(a, 2 * c) == 2 * Or(a / 2, c) + a % 2
  {
    assert (2 * c) / 2 == c && (2 * c) % 2 == 0;
  }

  /** Two numbers that share no bit are joined by adding them. */
  lemma {:induction false} OrAdds(a: nat, b: nat, k: nat)
    requires a < Pow2(k)
    ensures Or(a, b * Pow2(k)) == a + b * Pow2(k)
    decreases k
  {
    hide Or;
    if k == 0 {
      OrZero(b);
    } else {
      var c := b * Pow2(k - 1);
      Arith.Associates(b, Pow2(k - 1), 2);
      assert b * Pow2(k) == 2 * c;
      OrDouble(a, c);
      OrAdds(a / 2, b, k - 1);
    }
  }

  lemma {:induction false} OrZero(b: nat)
    ensures Or(0, b) == b
  {
    if b > 0 {
      OrZero(b / 2);
    }
  }

  lemma AndDouble(a: nat, c: nat)
    ensures And(a, 2 * c + 1) == 2 * And(a / 2, c) + a % 2
  {
    assert (2 * c + 1) / 2 == c && (2 * c + 1) % 2 == 1;
  }

  /** Masking with the low `k` bits set is the remainder. */
  lemma {:induction false} AndMask(a: nat, k: nat)
    ensures And(a, Pow2(k) - 1) == a % Pow2(k)
    decreases k
  {
    if k > 0 {
      hide And;
      var c := Pow2(k - 1) - 1;
      AndMask(a / 2, k - 1);
      AndDouble(a, c);
      Arith.SplitRemainder(a, 2, Pow2(k - 1));
    }
  }

  /** The block as one number, word 0 lowest. */
  function BlockValue(block: seq<u32>): nat {
    if block == [] then 0 else block[0] + WORD * BlockValue(block[1..])
  }

  function LeValue(s: seq<u8>): nat {
    if s == [] then 0 else s[0] + 256 * LeValue(s[1..])
  }

  /** The block from word `i` on, as one number. */
  lemma {:induction false} FromWord(block: seq<u32>, i: nat)
    requires i <= |block|
    ensures BlockValue(block) / Pow2(32 * i) == BlockValue(block[i..])
  {
    if i == 0 {
      assert block[0..] == block;
    } else {
      FromWord(block, i - 1);
      var v, rest := BlockValue(block), block[i - 1..];
      Pow2Adds(32 * (i - 1), 32);
      Pow2Word();
      Arith.SplitRemainder(v, Pow2(32 * (i - 1)), WORD);
      assert rest[1..] == block[i..];
      Arith.RemainderOf(BlockValue(rest), WORD, BlockValue(block[i..]), rest[0]);
    }
  }

  /** The bits of the block from bit `32 * i + o` on. */
  lemma FromBit(block: seq<u32>, i: nat, o: nat)
    requires i <= |block|
    ensures BlockValue(block) / Pow2(32 * i + o) == BlockValue(block[i..]) / Pow2(o)
  {
    FromWord(block, i);
    Pow2Adds(32 * i, o);
    Arith.SplitRemainder(BlockValue(block), Pow2(32 * i), Pow2(o));
  }

  /** Shifting a number whose low word is `w` leaves `w` shifted, with the rest above it. */
  lemma ShiftedWord(w: u32, rest: nat, o: nat)
    requires o <= 32
    ensures (w + WORD * rest) / Pow2(o) == w / Pow2(o) + Pow2(32 - o) * rest
    ensures w / Pow2(o) < Pow2(32 - o)
  {
    Pow2Adds(o, 32 - o);
    Pow2Word();
    Arith.QuotientParts(w, Pow2(o), Pow2(32 - o), rest);
  }

  /** What the loop body makes of the word it is at and, if the field goes on, the next one. */
  function Window(w: u32, next: u32, o: nat, len: nat): (r: nat)
    requires o < 32 && 0 < len <= 32
  {
    var joined := if len > 32 - o then Or(Shr(w, o), WrappingShl(next, 32 - o)) else Shr(w, o);
    if len < 32 then And(joined, Shr(WORD - 1, 32 - len)) else joined
  }

  lemma MaskIs(len: nat)
    requires 0 < len < 32
    ensures Shr(WORD - 1, 32 - len) == Pow2(len) - 1
  {
    Pow2Adds(32 - len, len);
    Pow2Word();
    var p, q := Pow2(32 - len), Pow2(len);
    Arith.Commutes(p, q - 1);
    Arith.Distributes(p, q, -1);
    Arith.RemainderOf(WORD - 1, p, q - 1, p - 1);
  }

  /** The masked word is the joined one modulo 2 to the length of the window. */
  lemma Masked(joined: nat, len: nat)
    requires 0 < len <= 32 && joined < WORD
    ensures (if len < 32 then And(joined, Shr(WORD - 1, 32 - len)) else joined) == joined % Pow2(len)
  {
    Pow2Word();
    if len < 32 {
      MaskIs(len);
      AndMask(joined, len);
    }
  }

  /** The window shows the bits of the block from bit `o` of word `w` on. */
  lemma WindowWithin(w: u32, next: u32, rest: nat, o: nat, len: nat)
    requires o < 32 && 0 < len <= 32 - o
    ensures Window(w, next, o, len) == ((w + WORD * rest) / Pow2(o)) % Pow2(len)
  {
    hide Pow2, And, Or;
    ShiftedWord(w, rest, o);
    Arith.QuotientBound(w, Pow2(o));
    Masked(Shr(w, o), len);
    Pow2Adds(len, 32 - o - len);
    Arith.Associates(Pow2(len), Pow2(32 - o - len), rest);
    Arith.RemainderIgnores(w / Pow2(o), Pow2(len), Pow2(32 - o - len) * rest);
  }

  /** The next word, pushed up to where the shifted word ends. */
  lemma PushedUp(next: u32, o: nat)
    requires 0 < o < 32
    ensures WrappingShl(next, 32 - o) == (next % Pow2(o)) * Pow2(32 - o)
  {
    hide Pow2;
    Pow2Adds(32 - o, o);
    Pow2Word();
    Arith.ScaledRemainder(next, Pow2(32 - o), Pow2(o));
  }

  lemma Joined(w: u32, next: u32, o: nat)
    requires 0 < o < 32
    ensures Or(Shr(w, o), WrappingShl(next, 32 - o)) == w / Pow2(o) + (next % Pow2(o)) * Pow2(32 - o) < WORD
  {
    hide Pow2, Or, WrappingShl;
    PushedUp(next, o);
    Pow2Adds(32 - o, o);
    Pow2Word();
    ShiftedWord(w, 0, o);
    OrAdds(w / Pow2(o), next % Pow2(o), 32 - o);
    Arith.FitsBelow(w / Pow2(o), next % Pow2(o), Pow2(32 - o), Pow2(o));
  }

  lemma WindowJoins(w: u32, next: u32, o: nat, len: nat)
    requires o < 32 && 32 - o < len <= 32
    ensures Window(w, next, o, len) == (w / Pow2(o) + (next % Pow2(o)) * Pow2(32 - o)) % Pow2(len)
  {
    hide Pow2, And, Or, WrappingShl;
    Joined(w, next, o);
    Masked(Or(Shr(w, o), WrappingShl(next, 32 - o)), len);
  }

  /** The same when the window runs into the next word. */
  lemma WindowAcross(w: u32, next: u32, rest: nat, o: nat, len: nat)
    requires o < 32 && 32 - o < len <= 32
    ensures Window(w, next, o, len) == ((w + WORD * (next + WORD * rest)) / Pow2(o)) % Pow2(len)
  {
    hide Pow2, Window;
    WindowJoins(w, next, o, len);
    ShiftedWord(w, next + WORD * rest, o);
    AcrossRemainder(w / Pow2(o), next, rest, o, len);
  }

  lemma AcrossRemainder(t: nat, next: u32, rest: nat, o: nat, len: nat)
    requires o < 32 && 32 - o < len <= 32
    ensures (t + Pow2(32 - o) * (next + WORD * rest)) % Pow2(len) == (t + (next % Pow2(o)) * Pow2(32 - o)) % Pow2(len)
  {
    hide Pow2;
    Pow2Adds(32 - o, o);
    Pow2Adds(len, 32 - len);
    Pow2Word();
    Arith.AcrossRemainder(t, next, rest, Pow2(o), Pow2(32 - o), Pow2(len), Pow2(32 - len), WORD);
  }

  function NextWord(block: seq<u32>, i: nat): u32 {
    if i + 1 < |block| then block[i + 1] else 0
  }

  /** Window `i` of the block is `len` bits of the block's number. */
  lemma WindowShows(block: seq<u32>, i: nat, o: nat, len: nat)
    requires i < |block| && o < 32 && 0 < len <= 32 && (len > 32 - o ==> i + 1 < |block|)
    ensures Window(block[i], NextWord(block, i), o, len) == (BlockValue(block) / Pow2(32 * i + o)) % Pow2(len)
  {
    hide Window, Pow2;
    FromBit(block, i, o);
    assert block[i..][1..] == block[i + 1..];
    if len <= 32 - o {
      WindowWithin(block[i], NextWord(block, i), BlockValue(block[i + 1..]), o, len);
    } else {
      assert block[i + 1..][1..] == block[i + 2..];
      WindowAcross(block[i], block[i + 1], BlockValue(block[i + 2..]), o, len);
    }
  }

  /** The low `n` bytes of `v` in memory order. */
  function WordBytes(v: nat, n: nat): (s: seq<u8>)
    ensures |s| == n
  {
    if n == 0 then [] else [v % 256] + WordBytes(v / 256, n - 1)
  }

  lemma {:induction false} WordBytesValue(v: nat, n: nat)
    requires v < Pow2(8 * n)
    ensures LeValue(WordBytes(v, n)) == v
    decreases n
  {
    if n > 0 {
      Pow2Adds(8, 8 * (n - 1));
      Pow2Word();
      Arith.QuotientParts(v, 256, Pow2(8 * (n - 1)), 0);
      WordBytesValue(v / 256, n - 1);
      assert WordBytes(v, n)[1..] == WordBytes(v / 256, n - 1);
    }
  }

  lemma {:induction false} LeValueAppend(a: seq<u8>, b: seq<u8>)
    ensures LeValue(a + b) == LeValue(a) + Pow2(8 * |a|) * LeValue(b)
  {
    if a == [] {
      assert a + b == b;
    } else {
      LeValueAppend(a[1..], b);
      assert (a + b)[1..] == a[1..] + b;
      Pow2Adds(8, 8 * (|a| - 1));
      Pow2Word();
      Arith.Distributes(256, LeValue(a[1..]), Pow2(8 * (|a| - 1)) * LeValue(b));
      Arith.Associates(256, Pow2(8 * (|a| - 1)), LeValue(b));
    }
  }

  lemma {:induction false} LeValueZeros(s: seq<u8>)
    requires forall i :: 0 <= i < |s| ==> s[i] == 0
    ensures LeValue(s) == 0
  {
    if s != [] {
      LeValueZeros(s[1..]);
    }
  }

  lemma {:induction false} Pow2Monotone(a: nat, b: nat)
    requires a <= b
    ensures Pow2(a) <= Pow2(b)
  {
    if a < b {
      Pow2Monotone(a, b - 1);
    }
  }

  /** The word of the last of the first `bits` bits of a field; an empty field still has its first word read. */
  function LastWord(start: nat, bits: nat): nat {
    if bits == 0 then start / 32 else (start + bits - 1) / 32
  }

  lemma LastWordNone(start: nat)
    ensures LastWord(start, 0) == start / 32
  {
  }

  lemma LastWordMonotone(start: nat, a: nat, b: nat)
    requires a <= b
    ensures LastWord(start, a) <= LastWord(start, b)
  {
  }

  lemma LastWordStep(start: nat, k: nat, len: nat)
    requires 0 < len <= 32
    ensures var i, o := start / 32 + k, start % 32;
            && start + 32 * k == 32 * i + o
            && LastWord(start, 32 * k) == (if k > 0 && o == 0 then i - 1 else i)
            && LastWord(start, 32 * k + len) == (if len > 32 - o then i + 1 else i)
  {
  }

  /** Consecutive word numbers. */
  function Consecutive(from: nat, to: nat): (s: seq<nat>)
    requires from <= to + 1
  {
    seq(to + 1 - from, i requires 0 <= i => from + i)
  }

  /** The words read for a field that is not empty are exactly those that hold a bit of it. */
  lemma TouchedExactly(start: nat, bits: nat, i: nat)
    requires bits > 0
    ensures start / 32 <= LastWord(start, bits)
    ensures i in Consecutive(start / 32, LastWord(start, bits)) <==> 32 * i < start + bits && start < 32 * i + 32
  {
    var a, b := start / 32, LastWord(start, bits);
    if a <= i <= b {
      assert Consecutive(a, b)[i - a] == i;
    }
  }

  lemma ConsecutiveOne(a: nat)
    ensures Consecutive(a, a) == [a]
  {
  }

  lemma ConsecutiveJoins(a: nat, b: nat, c: nat)
    requires a <= b + 1 && b <= c
    ensures Consecutive(a, b) + Consecutive(b + 1, c) == Consecutive(a, c)
  {
  }

  /** What the first `bits` bits of the field leave in the output. */
  ghost predicate Filled(block: seq<u32>, start: nat, bits: nat, done: seq<u8>) {
    |done| == ByteCount(bits) && LeValue(done) == (BlockValue(block) / Pow2(start)) % Pow2(bits)
  }

  lemma FilledNothing(block: seq<u32>, start: nat)
    ensures Filled(block, start, 0, [])
  {
    assert Pow2(0) == 1;
  }

  lemma BitsGrow(v: nat, start: nat, bits: nat, len: nat)
    ensures (v / Pow2(start)) % Pow2(bits + len)
         == (v / Pow2(start)) % Pow2(bits) + Pow2(bits) * ((v / Pow2(start + bits)) % Pow2(len))
  {
    hide Pow2;
    Pow2Adds(start, bits);
    Arith.SplitRemainder(v, Pow2(start), Pow2(bits));
    Pow2Adds(bits, len);
    Arith.SplitRemainder(v / Pow2(start), Pow2(bits), Pow2(len));
  }

  /** `div_ceil(8)` */
  function ByteCount(bits: nat): (n: nat) {
    (bits + 7) / 8
  }

  lemma ByteCountAdds(k: nat, len: nat)
    ensures ByteCount(32 * k + len) == 4 * k + ByteCount(len) && ByteCount(32 * k) == 4 * k && len <= 8 * ByteCount(len)
  {
  }

  lemma ByteCountFits(bits: nat, width: nat, size: nat)
    requires bits <= width <= 8 * size
    ensures ByteCount(bits) <= size && ByteCount(0) == 0
  {
  }

  lemma FilledGrows(block: seq<u32>, start: nat, k: nat, len: nat, done: seq<u8>, word: nat)
    requires Filled(block, start, 32 * k, done) && 0 < len <= 32
    requires word == (BlockValue(block) / Pow2(start + 32 * k)) % Pow2(len)
    ensures Filled(block, start, 32 * k + len, done + WordBytes(word, ByteCount(len)))
  {
    hide Pow2, LeValue, WordBytes, BlockValue;
    hide ByteCount;
    var n := ByteCount(len);
    ByteCountAdds(k, len);
    BitsGrow(BlockValue(block), start, 32 * k, len);
    Pow2Monotone(len, 8 * n);
    WordBytesValue(word, n);
    LeValueAppend(done, WordBytes(word, n));
  }

  lemma FilledPads(block: seq<u32>, start: nat, bits: nat, done: seq<u8>, zeros: seq<u8>)
    requires Filled(block, start, bits, done) && forall i :: 0 <= i < |zeros| ==> zeros[i] == 0
    ensures LeValue(done + zeros) == (BlockValue(block) / Pow2(start)) % Pow2(bits)
  {
    hide Pow2, LeValue, BlockValue;
    LeValueAppend(done, zeros);
    LeValueZeros(zeros);
  }

  /** The word being shifted and, when a window crosses into it, the next one; `read` lists the words fetched. */
  method TakeWindow(block: seq<u32>, wordOff: nat, last: nat, lastWord: u32, o: nat, len: nat)
      returns (word: nat, last': nat, lastWord': u32, read: seq<nat>)
    requires o < 32 && 0 < len <= 32 && wordOff < |block| && (len > 32 - o ==> wordOff + 1 < |block|)
    requires last < |block| && lastWord == block[last] && last <= wordOff <= last + 1
    ensures word == Window(block[wordOff], NextWord(block, wordOff), o, len)
    ensures last' == (if len > 32 - o then wordOff + 1 else wordOff) < |block| && lastWord' == block[last']
    ensures read == Consecutive(last + 1, last')
  {
    hide Or, And, Pow2;
    last', lastWord', read := last, lastWord, [];
    if wordOff != last' {
      last' := wordOff;
      lastWord' := block[last'];
      read := read + [last'];
    }
    word := Shr(lastWord', o);
    if len > 32 - o {
      last' := wordOff + 1;
      lastWord' := block[last'];
      read := read + [last'];
      word := Or(word, WrappingShl(lastWord', 32 - o));
    }
    if len < 32 {
      word := And(word, Shr(WORD - 1, 32 - len));
    }
  }

  /** Copies the low bytes of a word to `bytes[at..]`. */
  method CopyWord(word: nat, n: nat, bytes: array<u8>, at: nat)
    requires at + n <= bytes.Length
    modifies bytes
    ensures bytes[..at + n] == old(bytes[..at]) + WordBytes(word, n)
  {
    var source := WordBytes(word, n);
    forall j | 0 <= j < n {
      bytes[at + j] := source[j];
    }
  }

  /** `read_field_le`; `bytes` is the output value, `touched` the words of the block that were read, in order. */
  method ReadFieldLe(block: seq<u32>, bitStart: nat, bitCount: nat, bytes: array<u8>) returns (touched: seq<nat>)
    requires LastWord(bitStart, Words.Min(bitCount, 8 * bytes.Length)) < |block|
    modifies bytes
    ensures LeValue(bytes[..]) == (BlockValue(block) / Pow2(bitStart)) % Pow2(Words.Min(bitCount, 8 * bytes.Length))
    ensures touched == Consecutive(bitStart / 32, LastWord(bitStart, Words.Min(bitCount, 8 * bytes.Length)))
  {
    hide Filled, BlockValue, LeValue, Pow2, Window, WordBytes, Consecutive, LastWord, ByteCount;
    ByteCountFits(0, 0, 0);
    LastWordNone(bitStart);
    LastWordMonotone(bitStart, 0, Words.Min(bitCount, 8 * bytes.Length));
    ConsecutiveOne(bitStart / 32);
    var width := Words.Min(bitCount, 8 * bytes.Length);
    var bitEnd := width + bitStart;
    var lastWordOff := bitStart / 32;
    var lastWord := block[lastWordOff];
    touched := [lastWordOff];
    var o := bitStart % 32;
    var wordOff := lastWordOff;
    var pos := 0;
    var bitOff := bitStart;
    ghost var k := 0;
    FilledNothing(block, bitStart);
    while bitOff < bitEnd
      invariant bitOff == bitStart + 32 * k && wordOff == bitStart / 32 + k
      invariant k > 0 ==> 32 * (k - 1) < width
      invariant pos == ByteCount(Words.Min(32 * k, width)) <= bytes.Length
      invariant Filled(block, bitStart, Words.Min(32 * k, width), bytes[..pos])
      invariant lastWordOff == LastWord(bitStart, Words.Min(32 * k, width)) < |block| && lastWord == block[lastWordOff]
      invariant bitStart / 32 <= lastWordOff && touched == Consecutive(bitStart / 32, lastWordOff)
      decreases bitEnd - bitOff
    {
      var len := Words.Min(bitEnd - bitOff, 32);
      LastWordStep(bitStart, k, len);
      LastWordMonotone(bitStart, 32 * k + len, width);
      var word, last', lastWord', read := TakeWindow(block, wordOff, lastWordOff, lastWord, o, len);
      WindowShows(block, wordOff, o, len);
      ConsecutiveJoins(bitStart / 32, lastWordOff, last');
      ByteCountAdds(k, len);
      ByteCountFits(32 * k + len, width, bytes.Length);
      lastWordOff, lastWord, touched := last', lastWord', touched + read;
      wordOff := wordOff + 1;
      FilledGrows(block, bitStart, k, len, bytes[..pos], word);
      var byteLen := ByteCount(len);
      CopyWord(word, byteLen, bytes, pos);
      pos := pos + byteLen;
      bitOff := bitOff + 32;
      k := k + 1;
    }
    ghost var done := bytes[..pos];
    forall j | pos <= j < bytes.Length {
      bytes[j] := 0;
    }
    assert bytes[..] == done + bytes[pos..];
    FilledPads(block, bitStart, width, done, bytes[pos..]);
  }
}
