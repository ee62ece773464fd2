/** Software implementations of the modes of operation, over buffers that may be one and the same array. */
module CipherModes {
  import opened Words
  import opened BlockModes

  function Spliced(s: seq<byte>, at: nat, b: seq<byte>): (r: seq<byte>)
    requires at + |b| <= |s|
    ensures |r| == |s|
  {
    s[..at] + b + s[at + |b|..]
  }

  /** One block through the hardware: all of the input is read before any of the output is written. */
  method ProcessBlock(f: Cipher, input: array<byte>, inAt: nat, output: array<byte>, outAt: nat)
    requires inAt + BLOCK_SIZE <= input.Length && outAt + BLOCK_SIZE <= output.Length
    modifies output
    ensures output[..] == Spliced(old(output[..]), outAt, f(old(input[inAt..inAt + BLOCK_SIZE])))
  {
    var block: Block := f(input[inAt..inAt + BLOCK_SIZE]);
    CopyIn(output, outAt, block);
  }

  method CopyIn(output: array<byte>, at: nat, b: seq<byte>)
    requires at + |b| <= output.Length
    modifies output
    ensures output[..] == Spliced(old(output[..]), at, b)
  {
    forall k | 0 <= k < |b| {
      output[at + k] := b[k];
    }
  }

  method XorInto(out: array<byte>, outAt: nat, a: array<byte>, at: nat, len: nat)
    requires out != a && outAt + len <= out.Length && at + len <= a.Length
    modifies out
    ensures forall k :: 0 <= k < out.Length ==>
              out[k] == if outAt <= k < outAt + len then Add(old(out[k]), a[at + (k - outAt)]) else old(out[k])
  {
    for n := 0 to len
      invariant forall k :: 0 <= k < out.Length ==>
                  out[k] == if outAt <= k < outAt + n then Add(old(out[k]), a[at + (k - outAt)]) else old(out[k])
    {
      out[outAt + n] := Add(out[outAt + n], a[at + n]);
    }
  }

  method Copy(out: array<byte>, outAt: nat, from: array<byte>, at: nat, len: nat)
    requires outAt + len <= out.Length && at + len <= from.Length
    modifies out
    ensures out[..] == Spliced(old(out[..]), outAt, old(from[at..at + len]))
  {
    CopyIn(out, outAt, from[at..at + len]);
  }

  /** A whole register through the hardware, into another or into itself. */
  method ProcessWhole(f: Cipher, input: array<byte>, output: array<byte>)
    requires input.Length == output.Length == BLOCK_SIZE
    modifies output
    ensures output[..] == f(old(input[..]))
  {
    assert input[0..BLOCK_SIZE] == input[..];
    ProcessBlock(f, input, 0, output, 0);
  }

  /**
   * What the first `k` bytes of a run over the buffers at `at` have done: `data` and `out` are the input and output
   * memory before it, `input` and `output` the same memory now.
   */
  ghost predicate Progress<S>(step: (S, byte) -> (S, byte), from: S, data: seq<byte>, out: seq<byte>, at: nat, k: nat,
                              now: S, input: seq<byte>, output: seq<byte>)
  {
    && at + k <= |data| == |input| && at + k <= |out| == |output|
    && (now, output[at..at + k]) == Transform(step, from, data[at..at + k])
    && input[at + k..] == data[at + k..]
    && output[..at] == out[..at] && output[at + k..] == out[at + k..]
  }

  lemma ProgressStarts<S>(step: (S, byte) -> (S, byte), from: S, data: seq<byte>, out: seq<byte>, at: nat)
    requires at <= |data| && at <= |out|
    ensures Progress(step, from, data, out, at, 0, from, data, out)
  {
    assert data[at..at] == [] && out[at..at] == [];
  }

  /** One more byte; the input changes only where the output was written, and only if the two are the same. */
  lemma ProgressGrows<S>(step: (S, byte) -> (S, byte), from: S, data: seq<byte>, out: seq<byte>, at: nat, k: nat,
                         now: S, input: seq<byte>, output: seq<byte>, input': seq<byte>)
    requires at + k < |data| && at + k < |out| && Progress(step, from, data, out, at, k, now, input, output)
    requires var one := step(now, input[at + k]); input' == input || input' == input[at + k := one.1]
    ensures var one := step(now, input[at + k]);
            Progress(step, from, data, out, at, k + 1, one.0, input', output[at + k := one.1])
  {
    var i := at + k;
    var one := step(now, input[i]);
    assert input[i] == input[i..][0] == data[i..][0] == data[i];
    assert data[at..i + 1][..k] == data[at..i] && data[at..i + 1][k] == data[i];
    assert output[i := one.1][at..i + 1] == output[at..i] + [one.1];
    assert input'[i + 1..] == input[i..][1..] && data[i + 1..] == data[i..][1..];
    assert output[i := one.1][i + 1..] == output[i..][1..] && out[i + 1..] == out[i..][1..];
    assert output[i := one.1][..at] == output[..at];
  }

  lemma ProgressEnds<S>(step: (S, byte) -> (S, byte), from: S, data: seq<byte>, out: seq<byte>, at: nat, k: nat, now: S,
                        input: seq<byte>, output: seq<byte>)
    requires Progress(step, from, data, out, at, k, now, input, output)
    ensures at + k <= |data| && at + k <= |output| == |out|
    ensures (now, output[at..at + k]) == Transform(step, from, data[at..at + k])
    ensures output[..at] == out[..at] && output[at + k..] == out[at + k..]
  {
  }

  /** The bytes that a request of `len` can take out of the state: at most up to the next block boundary. */
  function Flushable(offset: Offset, len: nat): (n: nat)
    ensures n <= len && offset + n <= BLOCK_SIZE
    ensures n > 0 ==> offset > 0
    ensures n < len ==> Wrapped(offset + n) == 0
    ensures n == 0 || n == len <==> offset == 0 || offset + len <= BLOCK_SIZE
  {
    Min((BLOCK_SIZE - offset) % BLOCK_SIZE, len)
  }

  function Wrapped(pos: nat): (offset: Offset)
    ensures pos < BLOCK_SIZE ==> offset == pos
  {
    pos % BLOCK_SIZE
  }

  // Within a block no machine uses the cipher.

  lemma OfbWithin(f: Cipher, s: Feedback, x: byte)
    requires s.offset != 0
    ensures OfbStep(f)(s, x) == (s.(offset := Advance(s.offset)), Add(x, s.iv[s.offset]))
  {
  }

  lemma CtrWithin(f: Cipher, s: Counter, x: byte)
    requires s.offset != 0
    ensures CtrStep(f)(s, x) == (s.(offset := Advance(s.offset)), Add(x, s.buffer[s.offset]))
  {
  }

  lemma EncryptWithin(f: Cipher, s: Feedback, x: byte)
    requires s.offset != 0
    ensures var c := Add(s.iv[s.offset], x);
            Cfb128Encrypt(f)(s, x) == (Feedback(s.iv[s.offset := c], Advance(s.offset)), c)
  {
  }

  lemma DecryptWithin(f: Cipher, s: Feedback, c: byte)
    requires s.offset != 0
    ensures Cfb128Decrypt(f)(s, c)
         == (Feedback(s.iv[s.offset := c], Advance(s.offset)), Add(s.iv[s.offset], c))
  {
  }

  /** The bytes from `k` on are incremented and the carry is about to reach byte `k - 1`. */
  ghost predicate Carried(before: seq<byte>, now: seq<byte>, k: nat) {
    && k <= |before| == |now| && now[..k] == before[..k]
    && Next(before) == Next(before[..k]) + now[k..]
  }

  lemma CarriedStarts(before: seq<byte>)
    ensures Carried(before, before, |before|)
  {
    assert before[..|before|] == before && Next(before) + before[|before|..] == Next(before);
  }

  lemma CarriedGrows(before: seq<byte>, now: seq<byte>, k: nat)
    requires k < |before| && Carried(before, now, k + 1)
    ensures var b := now[k] + 1;
            if b == 0 then Carried(before, now[k := b], k) else now[k := b] == Next(before)
  {
    hide Next;
    var b, head := now[k] + 1, before[..k + 1];
    OneByte(now, k, b);
    OneByte(before, k, b);
    NextLast(head);
    Associative(Next(before[..k]), [0], now[k + 1..]);
  }

  lemma OneByte(s: seq<byte>, k: nat, b: byte)
    requires k < |s|
    ensures s[..k + 1][k] == s[k] && s[..k + 1][..k] == s[..k]
    ensures s[k := b][..k] == s[..k] && s[k := b][k..] == [b] + s[k + 1..] && s[k := b] == s[..k] + [b] + s[k + 1..]
  {
  }

  lemma CarriedEnds(before: seq<byte>, now: seq<byte>)
    requires Carried(before, now, 0)
    ensures now == Next(before)
  {
    assert before[..0] == [] && [] + now[0..] == now;
  }

  lemma NextLast(s: seq<byte>)
    requires s != []
    ensures var n := |s| - 1;
            Next(s) == if s[n] + 1 != 0 then s[..n] + [s[n] + 1] else Next(s[..n]) + [0]
  {
  }

  /** What the blocks before `at` have done. */
  ghost predicate ProgressBlocks<S>(step: (S, Block) -> (S, Block), from: S, data: seq<byte>, at: nat, now: S,
                                    input: seq<byte>, output: seq<byte>)
  {
    && Whole(|data|) && Whole(at) && at <= |data| == |input| == |output|
    && (now, output[..at]) == TransformBlocks(step, from, data[..at])
    && input[at..] == data[at..]
  }

  lemma ProgressBlocksStart<S>(step: (S, Block) -> (S, Block), from: S, data: seq<byte>, output: seq<byte>)
    requires |data| == |output| && Whole(|data|)
    ensures ProgressBlocks(step, from, data, 0, from, data, output)
  {
    assert data[..0] == [] && output[..0] == [];
  }

  lemma SplicedParts(s: seq<byte>, at: nat, b: seq<byte>)
    requires at + |b| <= |s|
    ensures Spliced(s, at, b)[..at + |b|] == s[..at] + b && Spliced(s, at, b)[at + |b|..] == s[at + |b|..]
    ensures Spliced(s, at, b)[at..at + |b|] == b
  {
  }

  lemma TailTail(s: seq<byte>, at: nat, n: nat)
    requires at + n <= |s|
    ensures s[at + n..] == s[at..][n..] && s[at..at + n] == s[at..][..n]
  {
  }

  lemma ProgressBlocksGrow<S>(step: (S, Block) -> (S, Block), from: S, data: seq<byte>, at: nat, now: S,
                              input: seq<byte>, output: seq<byte>, input': seq<byte>)
    requires at + BLOCK_SIZE <= |data| && ProgressBlocks(step, from, data, at, now, input, output)
    requires var one := step(now, input[at..at + BLOCK_SIZE]); input' == input || input' == Spliced(input, at, one.1)
    ensures var one := step(now, input[at..at + BLOCK_SIZE]);
            ProgressBlocks(step, from, data, at + BLOCK_SIZE, one.0, input', Spliced(output, at, one.1))
  {
    hide TransformBlocks, Spliced;
    var one := step(now, input[at..at + BLOCK_SIZE]);
    SplicedParts(output, at, one.1);
    SplicedParts(input, at, one.1);
    TailTail(input, at, BLOCK_SIZE);
    TailTail(data, at, BLOCK_SIZE);
    TransformBlocksLast(step, from, data[..at], data[at..at + BLOCK_SIZE]);
    assert data[..at + BLOCK_SIZE] == data[..at] + data[at..at + BLOCK_SIZE];
  }

  lemma ProgressBlocksEnd<S>(step: (S, Block) -> (S, Block), from: S, data: seq<byte>, at: nat, now: S,
                             input: seq<byte>, output: seq<byte>)
    requires at == |data| && ProgressBlocks(step, from, data, at, now, input, output)
    ensures (now, output) == TransformBlocks(step, from, data)
  {
    assert data[..at] == data && output[..at] == output;
  }

  lemma Room(n: nat, at: nat)
    requires Whole(n) && Whole(at) && at < n
    ensures at + BLOCK_SIZE <= n
  {
  }

  lemma EcbStepIs(f: Cipher, b: Block)
    ensures EcbStep(f)((), b) == ((), f(b))
  {
  }

  lemma SplicedTwice(s: seq<byte>, at: nat, b: seq<byte>, c: seq<byte>)
    requires at + |b| <= |s| && |b| == |c|
    ensures Spliced(Spliced(s, at, b), at, c) == Spliced(s, at, c)
  {
  }

  lemma SplicedWhole(s: seq<byte>, b: seq<byte>)
    requires |s| == |b|
    ensures Spliced(s, 0, b) == b
  {
  }

  /** `xor_into` over one block of a buffer. */
  method MixBlock(out: array<byte>, at: nat, a: array<byte>)
    requires out != a && at + BLOCK_SIZE <= out.Length && a.Length == BLOCK_SIZE
    modifies out
    ensures out[..] == Spliced(old(out[..]), at, Mix(old(out[at..at + BLOCK_SIZE]), a[..]))
  {
    XorInto(out, at, a, 0, BLOCK_SIZE);
  }

  /** Electronic codebook mode. */
  class Ecb {
    constructor () {
    }

    method EncryptDecrypt(f: Cipher, input: array<byte>, output: array<byte>)
      requires input.Length == output.Length && Whole(input.Length)
      modifies output
      ensures ((), output[..]) == TransformBlocks(EcbStep(f), (), old(input[..]))
      ensures input != output ==> input[..] == old(input[..])
    {
      hide ProgressBlocks, EcbStep, Spliced;
      ghost var step, from, data := EcbStep(f), (), input[..];
      ProgressBlocksStart(step, from, data, output[..]);
      var at := 0;
      while at < input.Length
        invariant at <= input.Length && Whole(at)
        invariant ProgressBlocks(step, from, data, at, (), input[..], output[..])
        invariant input != output ==> input[..] == data
      {
        Room(input.Length, at);
        ghost var now, i, o := (), input[..], output[..];
        EcbStepIs(f, i[at..at + BLOCK_SIZE]);
        ProcessBlock(f, input, at, output, at);
        ProgressBlocksGrow(step, from, data, at, now, i, o, input[..]);
        at := at + BLOCK_SIZE;
      }
      ProgressBlocksEnd(step, from, data, at, (), input[..], output[..]);
    }
  }

  /** Cipher block chaining mode. */
  class Cbc {
    const iv: array<byte>

    ghost predicate Valid() {
      iv.Length == BLOCK_SIZE
    }

    ghost function State(): (s: Block)
      requires Valid()
      reads iv
    {
      iv[..]
    }

    constructor (iv: array<byte>)
      requires iv.Length == BLOCK_SIZE
      ensures Valid() && this.iv == iv
    {
      this.iv := iv;
    }

    method NextEncrypted(f: Cipher, input: array<byte>, output: array<byte>, at: nat)
      requires Valid() && iv != input && iv != output && input.Length == output.Length
               && at + BLOCK_SIZE <= output.Length
      modifies iv, output
      ensures State() == CbcEncrypt(f)(old(State()), old(input[at..at + BLOCK_SIZE])).0
      ensures output[..] == Spliced(old(output[..]), at, CbcEncrypt(f)(old(State()), old(input[at..at + BLOCK_SIZE])).1)
    {
      XorInto(iv, 0, input, at, BLOCK_SIZE);
      assert iv[..] == Mix(old(iv[..]), old(input[at..at + BLOCK_SIZE]));
      assert iv[0..BLOCK_SIZE] == iv[..];
      ProcessBlock(f, iv, 0, output, at);
      Copy(iv, 0, output, at, BLOCK_SIZE);
    }

    method Encrypt(f: Cipher, input: array<byte>, output: array<byte>)
      requires Valid() && iv != input && iv != output && input.Length == output.Length && Whole(input.Length)
      modifies iv, output
      ensures (State(), output[..]) == TransformBlocks(CbcEncrypt(f), old(State()), old(input[..]))
      ensures input != output ==> input[..] == old(input[..])
    {
      hide ProgressBlocks, CbcEncrypt, Spliced;
      ghost var step, from, data := CbcEncrypt(f), State(), input[..];
      ProgressBlocksStart(step, from, data, output[..]);
      var at := 0;
      while at < input.Length
        invariant at <= input.Length && Whole(at)
        invariant ProgressBlocks(step, from, data, at, State(), input[..], output[..])
        invariant input != output ==> input[..] == data
      {
        Room(input.Length, at);
        ghost var now, i, o := State(), input[..], output[..];
        NextEncrypted(f, input, output, at);
        ProgressBlocksGrow(step, from, data, at, now, i, o, input[..]);
        at := at + BLOCK_SIZE;
      }
      ProgressBlocksEnd(step, from, data, at, State(), input[..], output[..]);
    }

    method NextDecryptedInPlace(f: Cipher, data: array<byte>, temp: array<byte>, at: nat)
      requires Valid() && iv != data && temp.Length == BLOCK_SIZE && temp !in {iv, data}
               && at + BLOCK_SIZE <= data.Length
      modifies iv, data, temp
      ensures State() == CbcDecrypt(f)(old(State()), old(data[at..at + BLOCK_SIZE])).0
      ensures data[..] == Spliced(old(data[..]), at, CbcDecrypt(f)(old(State()), old(data[at..at + BLOCK_SIZE])).1)
    {
      hide Spliced, Mix;
      ghost var was: seq<byte>, c: Block := data[..], data[at..at + BLOCK_SIZE];
      SplicedParts(was, at, f(c));
      SplicedTwice(was, at, f(c), Mix(f(c), iv[..]));
      SplicedWhole(temp[..], c);
      SplicedWhole(iv[..], c);
      Copy(temp, 0, data, at, BLOCK_SIZE);
      ProcessBlock(f, data, at, data, at);
      MixBlock(data, at, iv);
      assert temp[0..BLOCK_SIZE] == temp[..];
      Copy(iv, 0, temp, 0, BLOCK_SIZE);
    }

    method NextDecryptedApart(f: Cipher, input: array<byte>, output: array<byte>, at: nat)
      requires Valid() && iv != input && iv != output && input != output && input.Length == output.Length
               && at + BLOCK_SIZE <= output.Length
      modifies iv, output
      ensures State() == CbcDecrypt(f)(old(State()), old(input[at..at + BLOCK_SIZE])).0
      ensures output[..] == Spliced(old(output[..]), at, CbcDecrypt(f)(old(State()), old(input[at..at + BLOCK_SIZE])).1)
    {
      hide Spliced, Mix;
      ghost var was: seq<byte>, c: Block := output[..], input[at..at + BLOCK_SIZE];
      SplicedParts(was, at, f(c));
      SplicedTwice(was, at, f(c), Mix(f(c), iv[..]));
      SplicedWhole(iv[..], c);
      ProcessBlock(f, input, at, output, at);
      MixBlock(output, at, iv);
      Copy(iv, 0, input, at, BLOCK_SIZE);
    }

    method DecryptInPlace(f: Cipher, buffer: array<byte>)
      requires Valid() && iv != buffer && Whole(buffer.Length)
      modifies iv, buffer
      ensures (State(), buffer[..]) == TransformBlocks(CbcDecrypt(f), old(State()), old(buffer[..]))
    {
      hide ProgressBlocks, CbcDecrypt, Spliced;
      ghost var step, from, data := CbcDecrypt(f), State(), buffer[..];
      ProgressBlocksStart(step, from, data, buffer[..]);
      var temp := new byte[BLOCK_SIZE];
      var at := 0;
      while at < buffer.Length
        invariant at <= buffer.Length && Whole(at)
        invariant ProgressBlocks(step, from, data, at, State(), buffer[..], buffer[..])
      {
        Room(buffer.Length, at);
        ghost var now, b := State(), buffer[..];
        NextDecryptedInPlace(f, buffer, temp, at);
        ProgressBlocksGrow(step, from, data, at, now, b, b, buffer[..]);
        at := at + BLOCK_SIZE;
      }
      ProgressBlocksEnd(step, from, data, at, State(), buffer[..], buffer[..]);
    }

    method DecryptApart(f: Cipher, input: array<byte>, output: array<byte>)
      requires Valid() && iv != input && iv != output && input != output && input.Length == output.Length
               && Whole(input.Length)
      modifies iv, output
      ensures (State(), output[..]) == TransformBlocks(CbcDecrypt(f), old(State()), old(input[..]))
      ensures input[..] == old(input[..])
    {
      hide ProgressBlocks, CbcDecrypt, Spliced;
      ghost var step, from, data := CbcDecrypt(f), State(), input[..];
      ProgressBlocksStart(step, from, data, output[..]);
      var at := 0;
      while at < input.Length
        invariant at <= input.Length && Whole(at)
        invariant ProgressBlocks(step, from, data, at, State(), input[..], output[..])
        invariant input[..] == data
      {
        Room(input.Length, at);
        ghost var now, i, o := State(), input[..], output[..];
        NextDecryptedApart(f, input, output, at);
        ProgressBlocksGrow(step, from, data, at, now, i, o, input[..]);
        at := at + BLOCK_SIZE;
      }
      ProgressBlocksEnd(step, from, data, at, State(), input[..], output[..]);
    }

    /** In place, each ciphertext block is saved before it is overwritten; the result is the same. */
    method Decrypt(f: Cipher, input: array<byte>, output: array<byte>)
      requires Valid() && iv != input && iv != output && input.Length == output.Length && Whole(input.Length)
      modifies iv, output
      ensures (State(), output[..]) == TransformBlocks(CbcDecrypt(f), old(State()), old(input[..]))
      ensures input != output ==> input[..] == old(input[..])
    {
      if input == output {
        DecryptInPlace(f, output);
      } else {
        DecryptApart(f, input, output);
      }
    }
  }

  /** Output feedback mode. */
  class Ofb {
    const iv: array<byte>
    var offset: nat

    ghost predicate Valid()
      reads this
    {
      iv.Length == BLOCK_SIZE && offset < BLOCK_SIZE
    }

    ghost function State(): (s: Feedback)
      requires Valid()
      reads this, iv
    {
      Feedback(iv[..], offset)
    }

    constructor (iv: array<byte>)
      requires iv.Length == BLOCK_SIZE
      ensures Valid() && this.iv == iv && State() == Feedback(iv[..], 0)
    {
      this.iv, offset := iv, 0;
    }

    method Next(f: Cipher, input: array<byte>, output: array<byte>, k: nat)
      requires Valid() && k < input.Length && k < output.Length && iv != input && iv != output
      modifies this`offset, iv, output
      ensures Valid() && State() == OfbStep(f)(old(State()), old(input[k])).0
      ensures output[..] == old(output[..])[k := OfbStep(f)(old(State()), old(input[k])).1]
    {
      if offset == 0 {
        ProcessWhole(f, iv, iv);
      }
      output[k] := Add(input[k], iv[offset]);
      offset := (offset + 1) % BLOCK_SIZE;
    }

    method EncryptDecrypt(f: Cipher, input: array<byte>, output: array<byte>, at: nat, len: nat)
      requires Valid() && at + len <= input.Length && at + len <= output.Length
      requires iv != input && iv != output
      modifies this`offset, iv, output
      ensures Valid()
      ensures (State(), output[at..at + len]) == Transform(OfbStep(f), old(State()), old(input[at..at + len]))
      ensures output[..at] == old(output[..at]) && output[at + len..] == old(output[at + len..])
      ensures input != output ==> input[..] == old(input[..])
    {
      hide Progress, OfbStep;
      ghost var step, from, data, out := OfbStep(f), State(), input[..], output[..];
      ProgressStarts(step, from, data, out, at);
      for k := 0 to len
        invariant Valid() && Progress(step, from, data, out, at, k, State(), input[..], output[..])
        invariant input != output ==> input[..] == data
      {
        ghost var now, i, o := State(), input[..], output[..];
        Next(f, input, output, at + k);
        ProgressGrows(step, from, data, out, at, k, now, i, o, input[..]);
      }
      ProgressEnds(step, from, data, out, at, len, State(), input[..], output[..]);
      assert data[at..at + len] == old(input[at..at + len]);
    }

    /** One byte at position `pos` within the block. */
    method Pass(ghost f: Cipher, input: array<byte>, output: array<byte>, pos: nat, k: nat)
      requires Valid() && 0 < pos < BLOCK_SIZE && k < input.Length && k < output.Length
      requires iv != input && iv != output
      modifies output
      ensures offset == old(offset)
      ensures State().(offset := Wrapped(pos + 1)) == OfbStep(f)(old(State()).(offset := pos), old(input[k])).0
      ensures output[..] == old(output[..])[k := OfbStep(f)(old(State()).(offset := pos), old(input[k])).1]
    {
      OfbWithin(f, State().(offset := pos), input[k]);
      output[k] := Add(input[k], iv[pos]);
    }

    /** The bytes that need no new block, at most up to the next block boundary; the cipher is not used. */
    method Flush(ghost f: Cipher, input: array<byte>, output: array<byte>, at: nat, len: nat)
      returns (flushed: nat)
      requires Valid() && at + len <= input.Length && at + len <= output.Length
      requires iv != input && iv != output
      modifies this`offset, output
      ensures Valid() && flushed == Flushable(old(offset), len)
      ensures (State(), output[at..at + flushed]) == Transform(OfbStep(f), old(State()), old(input[at..at + flushed]))
      ensures output[..at] == old(output[..at]) && output[at + flushed..] == old(output[at + flushed..])
      ensures input != output ==> input[..] == old(input[..])
      ensures flushed < len ==> offset == 0
    {
      hide Progress, Flushable, Wrapped, OfbStep;
      var pos := offset;
      var n := Flushable(pos, len);
      ghost var from, data, out := State(), input[..], output[..];
      ProgressStarts(OfbStep(f), from, data, out, at);
      for k := 0 to n
        invariant Valid() && pos == offset + k && offset == from.offset
        invariant input != output ==> input[..] == data
        invariant Progress(OfbStep(f), from, data, out, at, k, State().(offset := Wrapped(pos)), input[..],
                  output[..])
      {
        ghost var now, i, o := State().(offset := pos), input[..], output[..];
        Pass(f, input, output, pos, at + k);
        pos := pos + 1;
        ProgressGrows(OfbStep(f), from, data, out, at, k, now, i, o, input[..]);
      }
      ProgressEnds(OfbStep(f), from, data, out, at, n, State().(offset := Wrapped(pos)), input[..], output[..]);
      assert data[at..at + n] == old(input[at..at + n]);
      flushed := pos - offset;
      offset := Wrapped(pos);
    }
  }

  /** Counter mode. */
  class Ctr {
    const nonce: array<byte>
    const buffer: array<byte>
    var offset: nat

    ghost predicate Valid()
      reads this
    {
      nonce.Length == buffer.Length == BLOCK_SIZE && nonce != buffer && offset < BLOCK_SIZE
    }

    ghost function State(): (s: Counter)
      requires Valid()
      reads this, nonce, buffer
    {
      Counter(nonce[..], buffer[..], offset)
    }

    constructor (nonce: array<byte>)
      requires nonce.Length == BLOCK_SIZE
      ensures Valid() && this.nonce == nonce && fresh(buffer) && State() == Counter(nonce[..], Zeros(BLOCK_SIZE), 0)
    {
      this.nonce, buffer, offset := nonce, new byte[BLOCK_SIZE](_ => 0), 0;
      new;
      assert buffer[..] == Zeros(BLOCK_SIZE);
    }

    method Increment()
      requires Valid()
      modifies nonce
      ensures nonce[..] == Next(old(nonce[..]))
    {
      hide Next, Carried;
      ghost var before := nonce[..];
      var k := BLOCK_SIZE;
      CarriedStarts(before);
      while k > 0
        invariant 0 <= k <= BLOCK_SIZE && Carried(before, nonce[..], k)
      {
        k := k - 1;
        CarriedGrows(before, nonce[..], k);
        nonce[k] := nonce[k] + 1;
        if nonce[k] != 0 {
          return;
        }
      }
      CarriedEnds(before, nonce[..]);
    }

    method NextByte(f: Cipher, input: array<byte>, output: array<byte>, k: nat)
      requires Valid() && k < input.Length && k < output.Length
      requires nonce !in {input, output} && buffer !in {input, output}
      modifies this`offset, nonce, buffer, output
      ensures Valid() && State() == CtrStep(f)(old(State()), old(input[k])).0
      ensures output[..] == old(output[..])[k := CtrStep(f)(old(State()), old(input[k])).1]
    {
      hide Next;
      ghost var s := State();
      if offset == 0 {
        ProcessWhole(f, nonce, buffer);
        Increment();
      }
      assert State() == Drawn(f, s);
      output[k] := Add(input[k], buffer[offset]);
      offset := (offset + 1) % BLOCK_SIZE;
    }

    method EncryptDecrypt(f: Cipher, input: array<byte>, output: array<byte>, at: nat, len: nat)
      requires Valid() && at + len <= input.Length && at + len <= output.Length
      requires nonce !in {input, output} && buffer !in {input, output}
      modifies this`offset, nonce, buffer, output
      ensures Valid()
      ensures (State(), output[at..at + len]) == Transform(CtrStep(f), old(State()), old(input[at..at + len]))
      ensures output[..at] == old(output[..at]) && output[at + len..] == old(output[at + len..])
      ensures input != output ==> input[..] == old(input[..])
    {
      hide Progress, CtrStep;
      ghost var step, from, data, out := CtrStep(f), State(), input[..], output[..];
      ProgressStarts(step, from, data, out, at);
      for k := 0 to len
        invariant Valid() && Progress(step, from, data, out, at, k, State(), input[..], output[..])
        invariant input != output ==> input[..] == data
      {
        ghost var now, i, o := State(), input[..], output[..];
        NextByte(f, input, output, at + k);
        ProgressGrows(step, from, data, out, at, k, now, i, o, input[..]);
      }
      ProgressEnds(step, from, data, out, at, len, State(), input[..], output[..]);
      assert data[at..at + len] == old(input[at..at + len]);
    }

    /** One byte at position `pos` within the block. */
    method Pass(ghost f: Cipher, input: array<byte>, output: array<byte>, pos: nat, k: nat)
      requires Valid() && 0 < pos < BLOCK_SIZE && k < input.Length && k < output.Length
      requires nonce !in {input, output} && buffer !in {input, output}
      modifies output
      ensures offset == old(offset)
      ensures State().(offset := Wrapped(pos + 1)) == CtrStep(f)(old(State()).(offset := pos), old(input[k])).0
      ensures output[..] == old(output[..])[k := CtrStep(f)(old(State()).(offset := pos), old(input[k])).1]
    {
      CtrWithin(f, State().(offset := pos), input[k]);
      output[k] := Add(input[k], buffer[pos]);
    }

    /** The bytes that need no new block, at most up to the next block boundary; the cipher is not used. */
    method Flush(ghost f: Cipher, input: array<byte>, output: array<byte>, at: nat, len: nat)
      returns (flushed: nat)
      requires Valid() && at + len <= input.Length && at + len <= output.Length
      requires nonce !in {input, output} && buffer !in {input, output}
      modifies this`offset, output
      ensures Valid() && flushed == Flushable(old(offset), len)
      ensures (State(), output[at..at + flushed]) == Transform(CtrStep(f), old(State()), old(input[at..at + flushed]))
      ensures output[..at] == old(output[..at]) && output[at + flushed..] == old(output[at + flushed..])
      ensures input != output ==> input[..] == old(input[..])
      ensures flushed < len ==> offset == 0
    {
      hide Progress, Flushable, Wrapped, CtrStep;
      var pos := offset;
      var n := Flushable(pos, len);
      ghost var from, data, out := State(), input[..], output[..];
      ProgressStarts(CtrStep(f), from, data, out, at);
      for k := 0 to n
        invariant Valid() && pos == offset + k && offset == from.offset
        invariant input != output ==> input[..] == data
        invariant Progress(CtrStep(f), from, data, out, at, k, State().(offset := Wrapped(pos)), input[..],
                  output[..])
      {
        ghost var now, i, o := State().(offset := pos), input[..], output[..];
        Pass(f, input, output, pos, at + k);
        pos := pos + 1;
        ProgressGrows(CtrStep(f), from, data, out, at, k, now, i, o, input[..]);
      }
      ProgressEnds(CtrStep(f), from, data, out, at, n, State().(offset := Wrapped(pos)), input[..], output[..]);
      assert data[at..at + n] == old(input[at..at + n]);
      flushed := pos - offset;
      offset := Wrapped(pos);
    }
  }

  /** Cipher feedback with 8-bit shift mode. */
  class Cfb8 {
    const iv: array<byte>

    ghost predicate Valid() {
      iv.Length == BLOCK_SIZE
    }

    ghost function State(): (s: Block)
      requires Valid()
      reads iv
    {
      iv[..]
    }

    constructor (iv: array<byte>)
      requires iv.Length == BLOCK_SIZE
      ensures Valid() && this.iv == iv
    {
      this.iv := iv;
    }

    method Shift(c: byte)
      requires Valid()
      modifies iv
      ensures State() == Shifted(old(State()), c)
    {
      Copy(iv, 0, iv, 1, BLOCK_SIZE - 1);
      iv[BLOCK_SIZE - 1] := c;
    }

    method NextEncrypted(f: Cipher, input: array<byte>, output: array<byte>, k: nat, ov: array<byte>)
      requires Valid() && k < input.Length && k < output.Length && iv != input && iv != output
               && ov.Length == BLOCK_SIZE && ov !in {iv, input, output}
      modifies iv, ov, output
      ensures Valid() && State() == Cfb8Encrypt(f)(old(State()), old(input[k])).0
      ensures output[..] == old(output[..])[k := Cfb8Encrypt(f)(old(State()), old(input[k])).1]
    {
      ProcessWhole(f, iv, ov);
      var out := Add(ov[0], input[k]);
      output[k] := out;
      Shift(out);
    }

    method Encrypt(f: Cipher, input: array<byte>, output: array<byte>, at: nat, len: nat)
      requires Valid() && at + len <= input.Length && at + len <= output.Length
      requires iv != input && iv != output
      modifies iv, output
      ensures Valid()
      ensures (State(), output[at..at + len]) == Transform(Cfb8Encrypt(f), old(State()), old(input[at..at + len]))
      ensures output[..at] == old(output[..at]) && output[at + len..] == old(output[at + len..])
      ensures input != output ==> input[..] == old(input[..])
    {
      hide Progress, Cfb8Encrypt;
      ghost var step, from, data, out := Cfb8Encrypt(f), State(), input[..], output[..];
      ProgressStarts(step, from, data, out, at);
      var ov := new byte[BLOCK_SIZE];
      for k := 0 to len
        invariant Valid() && Progress(step, from, data, out, at, k, State(), input[..], output[..])
        invariant input != output ==> input[..] == data
      {
        ghost var now, i, o := State(), input[..], output[..];
        NextEncrypted(f, input, output, at + k, ov);
        ProgressGrows(step, from, data, out, at, k, now, i, o, input[..]);
      }
      ProgressEnds(step, from, data, out, at, len, State(), input[..], output[..]);
      assert data[at..at + len] == old(input[at..at + len]);
    }

    method NextDecrypted(f: Cipher, input: array<byte>, output: array<byte>, k: nat, ov: array<byte>)
      requires Valid() && k < input.Length && k < output.Length && iv != input && iv != output
               && ov.Length == BLOCK_SIZE && ov !in {iv, input, output}
      modifies iv, ov, output
      ensures Valid() && State() == Cfb8Decrypt(f)(old(State()), old(input[k])).0
      ensures output[..] == old(output[..])[k := Cfb8Decrypt(f)(old(State()), old(input[k])).1]
    {
      ProcessWhole(f, iv, ov);
      var c := input[k];
      output[k] := Add(ov[0], c);
      Shift(c);
    }

    method Decrypt(f: Cipher, input: array<byte>, output: array<byte>, at: nat, len: nat)
      requires Valid() && at + len <= input.Length && at + len <= output.Length
      requires iv != input && iv != output
      modifies iv, output
      ensures Valid()
      ensures (State(), output[at..at + len]) == Transform(Cfb8Decrypt(f), old(State()), old(input[at..at + len]))
      ensures output[..at] == old(output[..at]) && output[at + len..] == old(output[at + len..])
      ensures input != output ==> input[..] == old(input[..])
    {
      hide Progress, Cfb8Decrypt;
      ghost var step, from, data, out := Cfb8Decrypt(f), State(), input[..], output[..];
      ProgressStarts(step, from, data, out, at);
      var ov := new byte[BLOCK_SIZE];
      for k := 0 to len
        invariant Valid() && Progress(step, from, data, out, at, k, State(), input[..], output[..])
        invariant input != output ==> input[..] == data
      {
        ghost var now, i, o := State(), input[..], output[..];
        NextDecrypted(f, input, output, at + k, ov);
        ProgressGrows(step, from, data, out, at, k, now, i, o, input[..]);
      }
      ProgressEnds(step, from, data, out, at, len, State(), input[..], output[..]);
      assert data[at..at + len] == old(input[at..at + len]);
    }
  }

  /** Cipher feedback with 128-bit shift mode. */
  class Cfb128 {
    const iv: array<byte>
    var offset: nat

    ghost predicate Valid()
      reads this
    {
      iv.Length == BLOCK_SIZE && offset < BLOCK_SIZE
    }

    ghost function State(): (s: Feedback)
      requires Valid()
      reads this, iv
    {
      Feedback(iv[..], offset)
    }

    constructor (iv: array<byte>)
      requires iv.Length == BLOCK_SIZE
      ensures Valid() && this.iv == iv && State() == Feedback(iv[..], 0)
    {
      this.iv, offset := iv, 0;
    }

    method NextEncrypted(f: Cipher, input: array<byte>, output: array<byte>, k: nat)
      requires Valid() && k < input.Length && k < output.Length && iv != input && iv != output
      modifies this`offset, iv, output
      ensures Valid() && State() == Cfb128Encrypt(f)(old(State()), old(input[k])).0
      ensures output[..] == old(output[..])[k := Cfb128Encrypt(f)(old(State()), old(input[k])).1]
    {
      if offset == 0 {
        ProcessWhole(f, iv, iv);
      }
      iv[offset] := Add(iv[offset], input[k]);
      output[k] := iv[offset];
      offset := (offset + 1) % BLOCK_SIZE;
    }

    method Encrypt(f: Cipher, input: array<byte>, output: array<byte>, at: nat, len: nat)
      requires Valid() && at + len <= input.Length && at + len <= output.Length
      requires iv != input && iv != output
      modifies this`offset, iv, output
      ensures Valid()
      ensures (State(), output[at..at + len]) == Transform(Cfb128Encrypt(f), old(State()), old(input[at..at + len]))
      ensures output[..at] == old(output[..at]) && output[at + len..] == old(output[at + len..])
      ensures input != output ==> input[..] == old(input[..])
    {
      hide Progress, Cfb128Encrypt;
      ghost var step, from, data, out := Cfb128Encrypt(f), State(), input[..], output[..];
      ProgressStarts(step, from, data, out, at);
      for k := 0 to len
        invariant Valid() && Progress(step, from, data, out, at, k, State(), input[..], output[..])
        invariant input != output ==> input[..] == data
      {
        ghost var now, i, o := State(), input[..], output[..];
        NextEncrypted(f, input, output, at + k);
        ProgressGrows(step, from, data, out, at, k, now, i, o, input[..]);
      }
      ProgressEnds(step, from, data, out, at, len, State(), input[..], output[..]);
      assert data[at..at + len] == old(input[at..at + len]);
    }

    method NextDecrypted(f: Cipher, input: array<byte>, output: array<byte>, k: nat)
      requires Valid() && k < input.Length && k < output.Length && iv != input && iv != output
      modifies this`offset, iv, output
      ensures Valid() && State() == Cfb128Decrypt(f)(old(State()), old(input[k])).0
      ensures output[..] == old(output[..])[k := Cfb128Decrypt(f)(old(State()), old(input[k])).1]
    {
      if offset == 0 {
        ProcessWhole(f, iv, iv);
      }
      var c := input[k];
      output[k] := Add(iv[offset], c);
      iv[offset] := c;
      offset := (offset + 1) % BLOCK_SIZE;
    }

    method Decrypt(f: Cipher, input: array<byte>, output: array<byte>, at: nat, len: nat)
      requires Valid() && at + len <= input.Length && at + len <= output.Length
      requires iv != input && iv != output
      modifies this`offset, iv, output
      ensures Valid()
      ensures (State(), output[at..at + len]) == Transform(Cfb128Decrypt(f), old(State()), old(input[at..at + len]))
      ensures output[..at] == old(output[..at]) && output[at + len..] == old(output[at + len..])
      ensures input != output ==> input[..] == old(input[..])
    {
      hide Progress, Cfb128Decrypt;
      ghost var step, from, data, out := Cfb128Decrypt(f), State(), input[..], output[..];
      ProgressStarts(step, from, data, out, at);
      for k := 0 to len
        invariant Valid() && Progress(step, from, data, out, at, k, State(), input[..], output[..])
        invariant input != output ==> input[..] == data
      {
        ghost var now, i, o := State(), input[..], output[..];
        NextDecrypted(f, input, output, at + k);
        ProgressGrows(step, from, data, out, at, k, now, i, o, input[..]);
      }
      ProgressEnds(step, from, data, out, at, len, State(), input[..], output[..]);
      assert data[at..at + len] == old(input[at..at + len]);
    }

    /** One byte at position `pos` within the block. */
    method PassEncrypted(ghost f: Cipher, input: array<byte>, output: array<byte>, pos: nat, k: nat)
      requires Valid() && 0 < pos < BLOCK_SIZE && k < input.Length && k < output.Length
      requires iv != input && iv != output
      modifies iv, output
      ensures offset == old(offset)
      ensures State().(offset := Wrapped(pos + 1)) == Cfb128Encrypt(f)(old(State()).(offset := pos), old(input[k])).0
      ensures output[..] == old(output[..])[k := Cfb128Encrypt(f)(old(State()).(offset := pos), old(input[k])).1]
    {
      EncryptWithin(f, State().(offset := pos), input[k]);
      iv[pos] := Add(iv[pos], input[k]);
      output[k] := iv[pos];
    }

    /** The bytes that need no new block, at most up to the next block boundary; the cipher is not used. */
    method FlushEncrypt(ghost f: Cipher, input: array<byte>, output: array<byte>, at: nat, len: nat)
      returns (flushed: nat)
      requires Valid() && at + len <= input.Length && at + len <= output.Length
      requires iv != input && iv != output
      modifies this`offset, iv, output
      ensures Valid() && flushed == Flushable(old(offset), len)
      ensures (State(), output[at..at + flushed])
           == Transform(Cfb128Encrypt(f), old(State()), old(input[at..at + flushed]))
      ensures output[..at] == old(output[..at]) && output[at + flushed..] == old(output[at + flushed..])
      ensures input != output ==> input[..] == old(input[..])
      ensures flushed < len ==> offset == 0
    {
      hide Progress, Flushable, Wrapped, Cfb128Encrypt;
      var pos := offset;
      var n := Flushable(pos, len);
      ghost var from, data, out := State(), input[..], output[..];
      ProgressStarts(Cfb128Encrypt(f), from, data, out, at);
      for k := 0 to n
        invariant Valid() && pos == offset + k && offset == from.offset
        invariant input != output ==> input[..] == data
        invariant Progress(Cfb128Encrypt(f), from, data, out, at, k, State().(offset := Wrapped(pos)), input[..],
                  output[..])
      {
        ghost var now, i, o := State().(offset := pos), input[..], output[..];
        PassEncrypted(f, input, output, pos, at + k);
        pos := pos + 1;
        ProgressGrows(Cfb128Encrypt(f), from, data, out, at, k, now, i, o, input[..]);
      }
      ProgressEnds(Cfb128Encrypt(f), from, data, out, at, n, State().(offset := Wrapped(pos)), input[..],
                   output[..]);
      assert data[at..at + n] == old(input[at..at + n]);
      flushed := pos - offset;
      offset := Wrapped(pos);
    }

    /** One byte at position `pos` within the block. */
    method PassDecrypted(ghost f: Cipher, input: array<byte>, output: array<byte>, pos: nat, k: nat)
      requires Valid() && 0 < pos < BLOCK_SIZE && k < input.Length && k < output.Length
      requires iv != input && iv != output
      modifies iv, output
      ensures offset == old(offset)
      ensures State().(offset := Wrapped(pos + 1)) == Cfb128Decrypt(f)(old(State()).(offset := pos), old(input[k])).0
      ensures output[..] == old(output[..])[k := Cfb128Decrypt(f)(old(State()).(offset := pos), old(input[k])).1]
    {
      DecryptWithin(f, State().(offset := pos), input[k]);
      var c := input[k];
      output[k] := Add(iv[pos], c);
      iv[pos] := c;
    }

    /** The bytes that need no new block, at most up to the next block boundary; the cipher is not used. */
    method FlushDecrypt(ghost f: Cipher, input: array<byte>, output: array<byte>, at: nat, len: nat)
      returns (flushed: nat)
      requires Valid() && at + len <= input.Length && at + len <= output.Length
      requires iv != input && iv != output
      modifies this`offset, iv, output
      ensures Valid() && flushed == Flushable(old(offset), len)
      ensures (State(), output[at..at + flushed])
           == Transform(Cfb128Decrypt(f), old(State()), old(input[at..at + flushed]))
      ensures output[..at] == old(output[..at]) && output[at + flushed..] == old(output[at + flushed..])
      ensures input != output ==> input[..] == old(input[..])
      ensures flushed < len ==> offset == 0
    {
      hide Progress, Flushable, Wrapped, Cfb128Decrypt;
      var pos := offset;
      var n := Flushable(pos, len);
      ghost var from, data, out := State(), input[..], output[..];
      ProgressStarts(Cfb128Decrypt(f), from, data, out, at);
      for k := 0 to n
        invariant Valid() && pos == offset + k && offset == from.offset
        invariant input != output ==> input[..] == data
        invariant Progress(Cfb128Decrypt(f), from, data, out, at, k, State().(offset := Wrapped(pos)), input[..],
                  output[..])
      {
        ghost var now, i, o := State().(offset := pos), input[..], output[..];
        PassDecrypted(f, input, output, pos, at + k);
        pos := pos + 1;
        ProgressGrows(Cfb128Decrypt(f), from, data, out, at, k, now, i, o, input[..]);
      }
      ProgressEnds(Cfb128Decrypt(f), from, data, out, at, n, State().(offset := Wrapped(pos)), input[..],
                   output[..]);
      assert data[at..at + n] == old(input[at..at + n]);
      flushed := pos - offset;
      offset := Wrapped(pos);
    }
  }
}
