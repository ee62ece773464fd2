/** What the state machines of `BlockModes` compute, as sections 6.1 to 6.5 of NIST SP 800-38A define it. */
module Sp80038a {
  import opened Words
  import opened BlockModes
  import Arith

  /** The block of `s` that starts at byte `at`. */
  function BlockAt(s: seq<byte>, at: nat): (b: Block)
    requires at + BLOCK_SIZE <= |s|
  {
    s[at..at + BLOCK_SIZE]
  }

  // Section 6.1: each block of output is the cipher of the same block of input.

  lemma EcbIsElectronicCodebook(f: Cipher, data: seq<byte>, at: nat)
    requires Whole(|data|) && Whole(at) && at + BLOCK_SIZE <= |data|
    ensures BlockAt(TransformBlocks(EcbStep(f), (), data).1, at) == f(BlockAt(data, at))
  {
    TransformBlocksAt(EcbStep(f), (), data, at);
  }

  // Section 6.2: C[j] = E(P[j] + C[j - 1]), with the IV before the first block.

  lemma CbcLast(e: Cipher, iv: Block, data: seq<byte>)
    requires Whole(|data|) && data != []
    ensures var (last, out) := TransformBlocks(CbcEncrypt(e), iv, data); last == BlockAt(out, |data| - BLOCK_SIZE)
  {
    TransformBlocksAt(CbcEncrypt(e), iv, data, |data| - BLOCK_SIZE);
  }

  lemma CbcChains(e: Cipher, iv: Block, data: seq<byte>, at: nat)
    requires Whole(|data|) && Whole(at) && at + BLOCK_SIZE <= |data|
    ensures var out := TransformBlocks(CbcEncrypt(e), iv, data).1;
            BlockAt(out, at) == e(Mix(if at == 0 then iv else BlockAt(out, at - BLOCK_SIZE), BlockAt(data, at)))
  {
    var out := TransformBlocks(CbcEncrypt(e), iv, data).1;
    TransformBlocksAt(CbcEncrypt(e), iv, data, at);
    if at > 0 {
      CbcLast(e, iv, data[..at]);
      assert BlockAt(out[..at], at - BLOCK_SIZE) == BlockAt(out, at - BLOCK_SIZE);
    }
  }

  // Section 6.4: O[1] = E(IV), O[j + 1] = E(O[j]); the output is the data plus the O stream.

  function Iterate(f: Block -> Block, n: nat, b: Block): Block {
    if n == 0 then b else f(Iterate(f, n - 1, b))
  }

  /** How many blocks of key stream `n` bytes have started. */
  function Started(n: nat): nat {
    (n + BLOCK_SIZE - 1) / BLOCK_SIZE
  }

  lemma StartedNext(n: nat)
    ensures n % BLOCK_SIZE == 0 ==> Started(n) == n / BLOCK_SIZE && Started(n + 1) == Started(n) + 1
    ensures n % BLOCK_SIZE != 0 ==> Started(n + 1) == Started(n) == n / BLOCK_SIZE + 1
    ensures Advance(n % BLOCK_SIZE) == (n + 1) % BLOCK_SIZE
  {
  }

  lemma IterateNext(f: Block -> Block, n: nat, b: Block)
    ensures Iterate(f, n + 1, b) == f(Iterate(f, n, b))
  {
  }

  lemma OfbNext(e: Cipher, iv: Block, n: nat, x: byte)
    ensures OfbStep(e)(Feedback(Iterate(e, Started(n), iv), n % BLOCK_SIZE), x).0
         == Feedback(Iterate(e, Started(n + 1), iv), (n + 1) % BLOCK_SIZE)
  {
    hide Started, Iterate, Advance;
    StartedNext(n);
    IterateNext(e, Started(n), iv);
  }

  lemma {:induction false} OfbState(e: Cipher, iv: Block, data: seq<byte>)
    ensures Transform(OfbStep(e), Feedback(iv, 0), data).0
         == Feedback(Iterate(e, Started(|data|), iv), |data| % BLOCK_SIZE)
  {
    if data != [] {
      hide OfbStep, Started, Iterate;
      var n := |data| - 1;
      OfbState(e, iv, data[..n]);
      OfbNext(e, iv, n, data[n]);
    } else {
      assert Started(0) == 0;
    }
  }

  lemma OfbKeyStream(e: Cipher, iv: Block, data: seq<byte>, i: nat)
    requires i < |data|
    ensures Transform(OfbStep(e), Feedback(iv, 0), data).1[i]
         == Add(data[i], Iterate(e, i / BLOCK_SIZE + 1, iv)[i % BLOCK_SIZE])
  {
    hide Iterate, Started, Transform, Advance;
    TransformAt(OfbStep(e), Feedback(iv, 0), data, i);
    OfbState(e, iv, data[..i]);
    StartedNext(i);
    IterateNext(e, Started(i), iv);
    var s := Feedback(Iterate(e, Started(i), iv), i % BLOCK_SIZE);
    assert Refreshed(e, s) == Iterate(e, i / BLOCK_SIZE + 1, iv);
  }

  // Section 6.5: the output is the data plus E(T[1]), E(T[2]), ..., with the counter block incremented each time.

  function NextBlock(b: Block): Block {
    Next(b)
  }

  /** The state after `n` bytes from the start of a block: the nonce was incremented once for every block begun. */
  predicate Counts(e: Cipher, nonce: Block, n: nat, s: Counter) {
    && s.nonce == Iterate(NextBlock, Started(n), nonce) && s.offset == n % BLOCK_SIZE
    && (s.offset != 0 ==> s.buffer == e(Iterate(NextBlock, n / BLOCK_SIZE, nonce)))
  }

  lemma SameBlock(n: nat)
    ensures (n + 1) % BLOCK_SIZE != 0 ==> (n + 1) / BLOCK_SIZE == n / BLOCK_SIZE
  {
  }

  lemma CtrNext(e: Cipher, nonce: Block, n: nat, s: Counter, x: byte)
    requires Counts(e, nonce, n, s)
    ensures Counts(e, nonce, n + 1, CtrStep(e)(s, x).0)
  {
    hide Started, Iterate, Advance, Next;
    StartedNext(n);
    SameBlock(n);
    IterateNext(NextBlock, Started(n), nonce);
  }

  lemma {:induction false} CtrState(e: Cipher, nonce: Block, buffer: Block, data: seq<byte>)
    ensures Counts(e, nonce, |data|, Transform(CtrStep(e), Counter(nonce, buffer, 0), data).0)
  {
    if data != [] {
      hide CtrStep, Counts;
      var n := |data| - 1;
      CtrState(e, nonce, buffer, data[..n]);
      CtrNext(e, nonce, n, Transform(CtrStep(e), Counter(nonce, buffer, 0), data[..n]).0, data[n]);
    } else {
      assert Started(0) == 0;
    }
  }

  lemma CtrKeyStream(e: Cipher, nonce: Block, buffer: Block, data: seq<byte>, i: nat)
    requires i < |data|
    ensures Transform(CtrStep(e), Counter(nonce, buffer, 0), data).1[i]
         == Add(data[i], e(Iterate(NextBlock, i / BLOCK_SIZE, nonce))[i % BLOCK_SIZE])
  {
    TransformAt(CtrStep(e), Counter(nonce, buffer, 0), data, i);
    CtrState(e, nonce, buffer, data[..i]);
    StartedNext(i);
  }

  lemma {:induction false} ValueBound(s: seq<byte>)
    ensures Value(s) < Pow256(|s|)
  {
    if s != [] {
      ValueBound(s[..|s| - 1]);
      assert s[|s| - 1] as int <= 255;
    }
  }

  lemma ValueLast(s: seq<byte>, b: byte)
    ensures Value(s + [b]) == 256 * Value(s) + b as int
  {
    assert (s + [b])[..|s|] == s;
  }

  lemma Pow256Next(n: nat)
    ensures Pow256(n + 1) == 256 * Pow256(n)
  {
  }

  lemma ValueNone()
    ensures Value([]) == 0 && Pow256(0) == 1
  {
  }

  lemma WrappingAdd(b: byte)
    ensures b + 1 != 0 ==> (b + 1) as int == b as int + 1
    ensures b + 1 == 0 ==> b as int == 255
    ensures b as int <= 255 && (0 as byte) as int == 0
  {
  }

  lemma AddLow(v: nat, b: nat, m: nat)
    requires v < m && b < 255
    ensures (256 * v + b + 1) % (256 * m) == 256 * v + b + 1
  {
    Arith.RemainderOf(256 * v + b + 1, 256 * m, 0, 256 * v + b + 1);
  }

  lemma AddCarry(v: nat, m: nat)
    requires v < m
    ensures (256 * v + 255 + 1) % (256 * m) == 256 * ((v + 1) % m)
  {
    if v + 1 == m {
      Arith.RemainderOf(256 * m, 256 * m, 1, 0);
      Arith.RemainderOf(m, m, 1, 0);
    } else {
      Arith.RemainderOf(256 * (v + 1), 256 * m, 0, 256 * (v + 1));
      Arith.RemainderOf(v + 1, m, 0, v + 1);
    }
  }

  /** Appendix B.1: the next counter block is one more, modulo 2 to the number of its bits. */
  lemma {:induction false} NextAddsOne(s: seq<byte>)
    ensures Value(Next(s)) == (Value(s) + 1) % Pow256(|s|)
  {
    hide Value, Pow256;
    ValueNone();
    if s != [] {
      var n := |s| - 1;
      var p := s[..n];
      assert s == p + [s[n]];
      ValueLast(p, s[n]);
      ValueBound(p);
      WrappingAdd(s[n]);
      Pow256Next(n);
      if s[n] + 1 != 0 {
        ValueLast(p, s[n] + 1);
        AddLow(Value(p), s[n] as int, Pow256(n));
      } else {
        NextAddsOne(p);
        ValueLast(Next(p), 0);
        AddCarry(Value(p), Pow256(n));
      }
    }
  }

  lemma StepRemainder(a: nat, m: nat)
    requires m > 0
    ensures (a % m + 1) % m == (a + 1) % m
  {
    var q, r := a / m, a % m;
    assert a == q * m + r;
    if r + 1 == m {
      assert a + 1 == (q + 1) * m;
      Arith.RemainderOf(a + 1, m, q + 1, 0);
      Arith.RemainderOf(r + 1, m, 1, 0);
    } else {
      Arith.RemainderOf(a + 1, m, q, r + 1);
      Arith.RemainderOf(r + 1, m, 0, r + 1);
    }
  }

  /** The counter block after `n` increments, as a number. */
  lemma {:induction false} NonceCounts(nonce: Block, n: nat)
    ensures Value(Iterate(NextBlock, n, nonce)) == (Value(nonce) + n) % Pow256(BLOCK_SIZE)
  {
    hide Value, Pow256, Next;
    var m := Pow256(BLOCK_SIZE);
    if n == 0 {
      ValueBound(nonce);
      Arith.RemainderOf(Value(nonce), m, 0, Value(nonce));
    } else {
      NonceCounts(nonce, n - 1);
      NextAddsOne(Iterate(NextBlock, n - 1, nonce));
      StepRemainder(Value(nonce) + n - 1, m);
    }
  }

  /** The nonce left behind by `|data|` bytes: one more for every block begun, modulo 2 to the 128. */
  lemma CtrCounts(e: Cipher, nonce: Block, buffer: Block, data: seq<byte>)
    ensures Value(Transform(CtrStep(e), Counter(nonce, buffer, 0), data).0.nonce)
         == (Value(nonce) + Started(|data|)) % Pow256(BLOCK_SIZE)
  {
    hide Value, Pow256, Transform, CtrStep, Started, Iterate;
    CtrState(e, nonce, buffer, data);
    NonceCounts(nonce, Started(|data|));
  }

  // Section 6.3, with segments of 8 and of 128 bits.

  lemma Later(a: seq<byte>, b: seq<byte>, c: byte)
    ensures a + (b + [c]) == (a + b) + [c]
  {
  }

  /** The shift register holds the last 16 bytes of IV and ciphertext. */
  lemma {:induction false} Cfb8State(e: Cipher, iv: Block, data: seq<byte>)
    ensures var (s, out) := Transform(Cfb8Encrypt(e), iv, data); s == BlockAt(iv + out, |data|)
  {
    var out := Transform(Cfb8Encrypt(e), iv, data).1;
    if data != [] {
      var n := |data| - 1;
      var before := Transform(Cfb8Encrypt(e), iv, data[..n]).1;
      Cfb8State(e, iv, data[..n]);
      Later(iv, before, out[n]);
      assert Shifted(BlockAt(iv + before, n), out[n]) == BlockAt((iv + before) + [out[n]], n + 1);
    } else {
      assert iv + out == iv;
    }
  }

  /** Each ciphertext byte uses the 16 bytes before it in IV and ciphertext. */
  lemma Cfb8Chains(e: Cipher, iv: Block, data: seq<byte>, i: nat)
    requires i < |data|
    ensures var out := Transform(Cfb8Encrypt(e), iv, data).1; out[i] == Add(e(BlockAt(iv + out, i))[0], data[i])
  {
    var out := Transform(Cfb8Encrypt(e), iv, data).1;
    TransformAt(Cfb8Encrypt(e), iv, data, i);
    Cfb8State(e, iv, data[..i]);
    BlockAtPrefix(iv, out, i, i);
  }

  /** Where the block of byte `i` starts. */
  function BlockStart(i: nat): (n: nat)
    ensures n <= i
  {
    i - i % BLOCK_SIZE
  }

  /** The feedback register after ciphertext `out`: the block so far, the rest of it still key stream. */
  function Register(e: Cipher, iv: Block, out: seq<byte>): (r: Block) {
    var n, m := |out|, |out| % BLOCK_SIZE;
    if m == 0 then BlockAt(iv + out, n) else out[n - m..] + e(BlockAt(iv + out, n - m))[m..]
  }

  lemma LastBlock(iv: Block, out: seq<byte>, c: byte)
    requires |out| >= BLOCK_SIZE - 1
    ensures BlockAt((iv + out) + [c], |out| + 1) == out[|out| - (BLOCK_SIZE - 1)..] + [c]
  {
  }

  lemma BlockAtPrefix(iv: Block, out: seq<byte>, i: nat, at: nat)
    requires at <= i <= |out|
    ensures BlockAt(iv + out[..i], at) == BlockAt(iv + out, at)
  {
    assert iv + out == (iv + out[..i]) + out[i..];
  }

  lemma RegisterAt(e: Cipher, iv: Block, out: seq<byte>, m: nat)
    requires m == |out| % BLOCK_SIZE && m <= |out|
    ensures Register(e, iv, out)
         == if m == 0 then BlockAt(iv + out, |out|) else out[|out| - m..] + e(BlockAt(iv + out, |out| - m))[m..]
  {
  }

  lemma BlockAtLater(iv: Block, out: seq<byte>, c: byte, at: nat)
    requires at <= |out|
    ensures BlockAt(iv + (out + [c]), at) == BlockAt(iv + out, at)
  {
    Later(iv, out, c);
  }

  lemma RegisterStarts(e: Cipher, iv: Block, out: seq<byte>, c: byte)
    requires |out| % BLOCK_SIZE == 0
    ensures Register(e, iv, out + [c]) == e(Register(e, iv, out))[0 := c]
  {
    hide Register, BlockAt;
    var n := |out|;
    OneMore(n);
    RegisterAt(e, iv, out, 0);
    RegisterAt(e, iv, out + [c], 1);
    BlockAtLater(iv, out, c, n);
    assert (out + [c])[n..] == [c];
  }

  lemma OneMore(n: nat)
    ensures n % BLOCK_SIZE < BLOCK_SIZE - 1 ==> (n + 1) % BLOCK_SIZE == n % BLOCK_SIZE + 1
    ensures n % BLOCK_SIZE == BLOCK_SIZE - 1 ==> (n + 1) % BLOCK_SIZE == 0
  {
  }

  lemma PutNext(a: seq<byte>, key: Block, c: byte)
    requires |a| < BLOCK_SIZE
    ensures (a + key[|a|..])[|a| := c] == (a + [c]) + key[|a| + 1..]
  {
  }

  lemma TailGrows(out: seq<byte>, c: byte, at: nat)
    requires at <= |out|
    ensures (out + [c])[at..] == out[at..] + [c]
  {
  }

  lemma RegisterGrows(e: Cipher, iv: Block, out: seq<byte>, c: byte)
    requires 0 < |out| % BLOCK_SIZE < BLOCK_SIZE - 1 && |out| % BLOCK_SIZE <= |out|
    ensures Register(e, iv, out + [c]) == Register(e, iv, out)[|out| % BLOCK_SIZE := c]
  {
    OneMore(|out|);
    RegisterGrowsAt(e, iv, out, c, |out| % BLOCK_SIZE);
  }

  lemma RegisterGrowsAt(e: Cipher, iv: Block, out: seq<byte>, c: byte, m: nat)
    requires m == |out| % BLOCK_SIZE && m + 1 == (|out| + 1) % BLOCK_SIZE && 0 < m <= |out|
    ensures Register(e, iv, out + [c]) == Register(e, iv, out)[m := c]
  {
    hide Register, BlockAt;
    var at := |out| - m;
    RegisterAt(e, iv, out, m);
    RegisterAt(e, iv, out + [c], m + 1);
    BlockAtLater(iv, out, c, at);
    TailGrows(out, c, at);
    PutNext(out[at..], e(BlockAt(iv + out, at)), c);
  }

  lemma RegisterEnds(e: Cipher, iv: Block, out: seq<byte>, c: byte)
    requires |out| % BLOCK_SIZE == BLOCK_SIZE - 1 <= |out|
    ensures Register(e, iv, out + [c]) == Register(e, iv, out)[BLOCK_SIZE - 1 := c]
  {
    hide Register, BlockAt;
    var at := |out| - (BLOCK_SIZE - 1);
    OneMore(|out|);
    RegisterAt(e, iv, out, BLOCK_SIZE - 1);
    RegisterAt(e, iv, out + [c], 0);
    Later(iv, out, c);
    LastBlock(iv, out, c);
    var key := e(BlockAt(iv + out, at));
    PutNext(out[at..], key, c);
    assert key[BLOCK_SIZE..] == [] && (out[at..] + [c]) + [] == out[at..] + [c];
  }

  lemma RemainderSmall(n: nat)
    ensures n % BLOCK_SIZE <= n
  {
  }

  lemma RegisterKey(e: Cipher, iv: Block, out: seq<byte>)
    ensures var m := |out| % BLOCK_SIZE;
            Refreshed(e, Feedback(Register(e, iv, out), m))[m] == e(BlockAt(iv + out, BlockStart(|out|)))[m]
  {
  }

  lemma RegisterNext(e: Cipher, iv: Block, out: seq<byte>, c: byte)
    ensures var m := |out| % BLOCK_SIZE;
            Register(e, iv, out + [c]) == Refreshed(e, Feedback(Register(e, iv, out), m))[m := c]
  {
    hide Register;
    RemainderSmall(|out|);
    if |out| % BLOCK_SIZE == 0 {
      RegisterStarts(e, iv, out, c);
    } else if |out| % BLOCK_SIZE < BLOCK_SIZE - 1 {
      RegisterGrows(e, iv, out, c);
    } else {
      RegisterEnds(e, iv, out, c);
    }
  }

  lemma {:induction false} Cfb128State(e: Cipher, iv: Block, data: seq<byte>)
    ensures var (s, out) := Transform(Cfb128Encrypt(e), Feedback(iv, 0), data);
            s == Feedback(Register(e, iv, out), |data| % BLOCK_SIZE)
  {
    hide Register, Refreshed;
    if data != [] {
      var n := |data| - 1;
      var before := Transform(Cfb128Encrypt(e), Feedback(iv, 0), data[..n]).1;
      var c := Transform(Cfb128Encrypt(e), Feedback(iv, 0), data).1[n];
      Cfb128State(e, iv, data[..n]);
      StartedNext(n);
      RegisterNext(e, iv, before, c);
      assert |before| == n && Transform(Cfb128Encrypt(e), Feedback(iv, 0), data).1 == before + [c];
    } else {
      RegisterEmpty(e, iv);
    }
  }

  lemma RegisterEmpty(e: Cipher, iv: Block)
    ensures Register(e, iv, []) == iv
  {
    assert iv + [] == iv;
  }

  /** Each ciphertext byte uses the block of IV and ciphertext that ends where its own block starts. */
  lemma Cfb128Chains(e: Cipher, iv: Block, data: seq<byte>, i: nat)
    requires i < |data|
    ensures var out := Transform(Cfb128Encrypt(e), Feedback(iv, 0), data).1;
            out[i] == Add(e(BlockAt(iv + out, BlockStart(i)))[i % BLOCK_SIZE], data[i])
  {
    hide Register, Refreshed, BlockStart, BlockAt;
    var out := Transform(Cfb128Encrypt(e), Feedback(iv, 0), data).1;
    TransformAt(Cfb128Encrypt(e), Feedback(iv, 0), data, i);
    Cfb128State(e, iv, data[..i]);
    RegisterKey(e, iv, out[..i]);
    BlockAtPrefix(iv, out, i, BlockStart(i));
  }
}
