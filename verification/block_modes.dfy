/** The modes of operation of NIST SP 800-38A, sections 6.1 to 6.5, as state machines over bytes or blocks. */
module BlockModes {
  import opened Words

  const BLOCK_SIZE := 16

  /** Whether `n` bytes are whole blocks. */
  predicate Whole(n: nat) {
    n % BLOCK_SIZE == 0
  }

  lemma WholeSum(a: nat, b: nat)
    requires Whole(a)
    ensures Whole(a + b) <==> Whole(b)
    ensures Whole(0) && Whole(BLOCK_SIZE)
    ensures b <= a ==> (Whole(a - b) <==> Whole(b))
  {
  }

  lemma WholeRoom(n: nat)
    requires Whole(n)
    ensures n == 0 || n >= BLOCK_SIZE
  {
  }

  type Block = b: seq<byte> | |b| == BLOCK_SIZE witness seq(BLOCK_SIZE, _ => 0)

  /** What the hardware computes from one block under a fixed key and direction. */
  type Cipher = Block -> Block

  ghost predicate Inverse(e: Cipher, d: Cipher) {
    forall b: Block :: d(e(b)) == b
  }

  lemma AddTwice(a: byte, b: byte)
    ensures Add(Add(a, b), b) == a && Add(b, Add(b, a)) == a && Add(a, b) == Add(b, a)
  {
  }

  function Mix(a: Block, b: Block): (c: Block)
    ensures forall i :: 0 <= i < BLOCK_SIZE ==> c[i] == Add(a[i], b[i])
  {
    seq(BLOCK_SIZE, i requires 0 <= i < BLOCK_SIZE => Add(a[i], b[i]))
  }

  lemma MixCommutes(a: Block, b: Block)
    ensures Mix(a, b) == Mix(b, a)
  {
    forall i | 0 <= i < BLOCK_SIZE ensures Mix(a, b)[i] == Mix(b, a)[i] {
      AddTwice(a[i], b[i]);
    }
  }

  lemma MixTwice(a: Block, b: Block)
    ensures Mix(Mix(a, b), b) == a
  {
    forall i | 0 <= i < BLOCK_SIZE ensures Mix(Mix(a, b), b)[i] == a[i] {
      AddTwice(a[i], b[i]);
    }
  }

  // Runs of a machine that turns one unit of data into another and changes state.

  /** The state after `data` and the output, for a machine that works byte by byte. */
  function Transform<S>(step: (S, byte) -> (S, byte), s: S, data: seq<byte>): (r: (S, seq<byte>))
    ensures |r.1| == |data|
  {
    if data == [] then (s, [])
    else
      var before := Transform(step, s, data[..|data| - 1]);
      var one := step(before.0, data[|data| - 1]);
      (one.0, before.1 + [one.1])
  }

  /** The same for a machine that works block by block. */
  function TransformBlocks<S>(step: (S, Block) -> (S, Block), s: S, data: seq<byte>): (r: (S, seq<byte>))
    requires Whole(|data|)
    ensures |r.1| == |data|
  {
    if data == [] then (s, [])
    else
      var before := TransformBlocks(step, s, data[..|data| - BLOCK_SIZE]);
      var one := step(before.0, data[|data| - BLOCK_SIZE..]);
      (one.0, before.1 + one.1)
  }

  /** Data may be fed in any two pieces. */
  lemma {:induction false} TransformSplit<S>(step: (S, byte) -> (S, byte), s: S, a: seq<byte>, b: seq<byte>)
    ensures var first := Transform(step, s, a); var rest := Transform(step, first.0, b);
            Transform(step, s, a + b) == (rest.0, first.1 + rest.1)
  {
    if b == [] {
      assert a + b == a && Transform(step, s, a).1 + [] == Transform(step, s, a).1;
    } else {
      var n := |b| - 1;
      TransformSplit(step, s, a, b[..n]);
      assert (a + b)[..|a| + n] == a + b[..n];
      var first := Transform(step, s, a);
      var middle := Transform(step, first.0, b[..n]);
      Associative(first.1, middle.1, [step(middle.0, b[n]).1]);
    }
  }

  lemma TransformBlocksNone<S>(step: (S, Block) -> (S, Block), s: S)
    ensures TransformBlocks(step, s, []) == (s, [])
  {
  }

  lemma TransformBlocksLast<S>(step: (S, Block) -> (S, Block), s: S, data: seq<byte>, last: Block)
    requires Whole(|data|)
    ensures Whole(|data + last|)
    ensures var before := TransformBlocks(step, s, data); var one := step(before.0, last);
            TransformBlocks(step, s, data + last) == (one.0, before.1 + one.1)
  {
    hide Whole;
    WholeSum(|data|, BLOCK_SIZE);
    assert (data + last)[..|data + last| - BLOCK_SIZE] == data;
    assert (data + last)[|data + last| - BLOCK_SIZE..] == last;
  }

  lemma {:induction false} TransformBlocksSplit<S>(step: (S, Block) -> (S, Block), s: S, a: seq<byte>, b: seq<byte>)
    requires Whole(|a|) && Whole(|b|)
    ensures Whole(|a + b|)
    ensures var first := TransformBlocks(step, s, a); var rest := TransformBlocks(step, first.0, b);
            TransformBlocks(step, s, a + b) == (rest.0, first.1 + rest.1)
  {
    hide TransformBlocks, Whole;
    var first := TransformBlocks(step, s, a);
    WholeSum(|a|, |b|);
    WholeSum(|b|, BLOCK_SIZE);
    WholeRoom(|b|);
    TransformBlocksNone(step, first.0);
    if b == [] {
      assert a + b == a && first.1 + [] == first.1;
    } else {
      var n := |b| - BLOCK_SIZE;
      var middle := TransformBlocks(step, first.0, b[..n]);
      TransformBlocksSplit(step, s, a, b[..n]);
      TransformBlocksLast(step, s, a + b[..n], b[n..]);
      TransformBlocksLast(step, first.0, b[..n], b[n..]);
      Associative(first.1, middle.1, step(middle.0, b[n..]).1);
      assert b[..n] + b[n..] == b;
      Associative(a, b[..n], b[n..]);
    }
  }

  /** Byte `i` of the output is made in the state that the bytes before it lead to. */
  lemma {:induction false} TransformAt<S>(step: (S, byte) -> (S, byte), s: S, data: seq<byte>, i: nat)
    requires i < |data|
    ensures Transform(step, s, data).1[i] == step(Transform(step, s, data[..i]).0, data[i]).1
    ensures Transform(step, s, data).1[..i] == Transform(step, s, data[..i]).1
  {
    var n := |data| - 1;
    if i < n {
      TransformAt(step, s, data[..n], i);
      assert data[..n][..i] == data[..i];
    }
  }

  /** Flushing the first `n` bytes and then processing the rest is one call on all of them. */
  lemma FlushThenRest<S>(step: (S, byte) -> (S, byte), s: S, data: seq<byte>, n: nat)
    requires n <= |data|
    ensures var first := Transform(step, s, data[..n]); var rest := Transform(step, first.0, data[n..]);
            Transform(step, s, data) == (rest.0, first.1 + rest.1)
  {
    hide Transform;
    TransformSplit(step, s, data[..n], data[n..]);
    assert data[..n] + data[n..] == data;
  }

  lemma MiddleOf(a: seq<byte>, b: seq<byte>, c: seq<byte>)
    ensures ((a + b) + c)[|a|..|a| + |b|] == b && ((a + b) + c)[..|a|] == a
  {
  }

  lemma ThreeParts(s: seq<byte>, at: nat, n: nat)
    requires at + n <= |s|
    ensures (s[..at] + s[at..at + n]) + s[at + n..] == s
  {
  }

  lemma TransformBlocksMiddle<S>(step: (S, Block) -> (S, Block), s: S, data: seq<byte>, a: seq<byte>, one: Block,
                                 b: seq<byte>)
    requires Whole(|data|) && Whole(|a|) && data == (a + one) + b
    ensures TransformBlocks(step, s, data).1[|a|..|a| + BLOCK_SIZE] == step(TransformBlocks(step, s, a).0, one).1
    ensures TransformBlocks(step, s, data).1[..|a|] == TransformBlocks(step, s, a).1
  {
    hide TransformBlocks, Whole;
    WholeSum(|a|, BLOCK_SIZE);
    WholeSum(|a| + BLOCK_SIZE, |b|);
    TransformBlocksLast(step, s, a, one);
    TransformBlocksSplit(step, s, a + one, b);
    var first := TransformBlocks(step, s, a);
    var next := step(first.0, one);
    MiddleOf(first.1, next.1, TransformBlocks(step, next.0, b).1);
  }

  /** The block of output at `at` is made in the state that the blocks before it lead to. */
  lemma TransformBlocksAt<S>(step: (S, Block) -> (S, Block), s: S, data: seq<byte>, at: nat)
    requires Whole(|data|) && Whole(at) && at + BLOCK_SIZE <= |data|
    ensures TransformBlocks(step, s, data).1[at..at + BLOCK_SIZE]
         == step(TransformBlocks(step, s, data[..at]).0, data[at..at + BLOCK_SIZE]).1
    ensures TransformBlocks(step, s, data).1[..at] == TransformBlocks(step, s, data[..at]).1
  {
    hide TransformBlocks, Whole;
    ThreeParts(data, at, BLOCK_SIZE);
    TransformBlocksMiddle(step, s, data, data[..at], data[at..at + BLOCK_SIZE], data[at + BLOCK_SIZE..]);
  }

  /** Machines that undo each other step by step undo each other on all data. */
  lemma {:induction false} TransformInverts<S(!new)>(
      enc: (S, byte) -> (S, byte), dec: (S, byte) -> (S, byte), s: S, data: seq<byte>)
    requires forall t, x :: dec(t, enc(t, x).1) == (enc(t, x).0, x)
    ensures Transform(dec, s, Transform(enc, s, data).1) == (Transform(enc, s, data).0, data)
  {
    if data != [] {
      var n := |data| - 1;
      TransformInverts(enc, dec, s, data[..n]);
      var out := Transform(enc, s, data).1;
      assert out[..n] == Transform(enc, s, data[..n]).1;
      assert data == data[..n] + [data[n]];
    }
  }

  lemma {:induction false} TransformBlocksInverts<S(!new)>(
      enc: (S, Block) -> (S, Block), dec: (S, Block) -> (S, Block), s: S, data: seq<byte>)
    requires Whole(|data|)
    requires forall t, x :: dec(t, enc(t, x).1) == (enc(t, x).0, x)
    ensures TransformBlocks(dec, s, TransformBlocks(enc, s, data).1) == (TransformBlocks(enc, s, data).0, data)
  {
    if data != [] {
      var n := |data| - BLOCK_SIZE;
      TransformBlocksInverts(enc, dec, s, data[..n]);
      var out := TransformBlocks(enc, s, data).1;
      assert out[..n] == TransformBlocks(enc, s, data[..n]).1;
      assert out[n..] == enc(TransformBlocks(enc, s, data[..n]).0, data[n..]).1;
      assert data == data[..n] + data[n..];
    }
  }

  // The machines.

  function EcbStep(f: Cipher): (() , Block) -> ((), Block) {
    (_, x) => ((), f(x))
  }

  function CbcEncrypt(e: Cipher): (Block, Block) -> (Block, Block) {
    (iv, p) => (e(Mix(iv, p)), e(Mix(iv, p)))
  }

  function CbcDecrypt(d: Cipher): (Block, Block) -> (Block, Block) {
    (iv, c) => (c, Mix(d(c), iv))
  }

  /** The position in the current block of key stream. */
  type Offset = n: nat | n < BLOCK_SIZE

  datatype Feedback = Feedback(iv: Block, offset: Offset)

  datatype Counter = Counter(nonce: Block, buffer: Block, offset: Offset)

  function Advance(offset: Offset): Offset {
    (offset + 1) % BLOCK_SIZE
  }

  /** The feedback register once it is known to hold the bytes for this position. */
  function Refreshed(e: Cipher, s: Feedback): Block {
    if s.offset == 0 then e(s.iv) else s.iv
  }

  function OfbStep(e: Cipher): (Feedback, byte) -> (Feedback, byte) {
    (s, x) => (Feedback(Refreshed(e, s), Advance(s.offset)), Add(x, Refreshed(e, s)[s.offset]))
  }

  /** The counter block that follows `s`, read most significant byte first. */
  function Next(s: seq<byte>): (r: seq<byte>)
    ensures |r| == |s|
  {
    if s == [] then []
    else
      var n := |s| - 1;
      if s[n] + 1 != 0 then s[..n] + [s[n] + 1] else Next(s[..n]) + [0]
  }

  function Drawn(e: Cipher, s: Counter): Counter {
    if s.offset == 0 then Counter(Next(s.nonce), e(s.nonce), 0) else s
  }

  function CtrStep(e: Cipher): (Counter, byte) -> (Counter, byte) {
    (s, x) => (Drawn(e, s).(offset := Advance(s.offset)), Add(x, Drawn(e, s).buffer[s.offset]))
  }

  function Shifted(iv: Block, c: byte): Block {
    iv[1..] + [c]
  }

  function Cfb8Encrypt(e: Cipher): (Block, byte) -> (Block, byte) {
    (iv, x) => (Shifted(iv, Add(e(iv)[0], x)), Add(e(iv)[0], x))
  }

  function Cfb8Decrypt(e: Cipher): (Block, byte) -> (Block, byte) {
    (iv, c) => (Shifted(iv, c), Add(e(iv)[0], c))
  }

  function Cfb128Encrypt(e: Cipher): (Feedback, byte) -> (Feedback, byte) {
    (s, x) =>
      var c := Add(Refreshed(e, s)[s.offset], x);
      (Feedback(Refreshed(e, s)[s.offset := c], Advance(s.offset)), c)
  }

  function Cfb128Decrypt(e: Cipher): (Feedback, byte) -> (Feedback, byte) {
    (s, c) => (Feedback(Refreshed(e, s)[s.offset := c], Advance(s.offset)), Add(Refreshed(e, s)[s.offset], c))
  }
}
