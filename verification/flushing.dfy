/**
 * Bytes left in the cipher state. A request may use them up before the cipher is called again, and what follows must
 * then be exactly the rest of its buffers. The DMA driver moves the pointers to the buffers on but keeps their length.
 */
module Flushing {
  import opened Words
  import opened BlockModes
  import opened CipherModes

  /** How far the DMA driver goes past the end of the buffers. */
  function Excess(offset: Offset, len: nat): (x: nat)
    ensures x == 0 <==> offset == 0 || offset + len <= BLOCK_SIZE
  {
    if Flushable(offset, len) == len then 0 else Flushable(offset, len)
  }

  lemma ExcessIs(offset: Offset, len: nat)
    ensures var n := Flushable(offset, len); Excess(offset, len) == if n == len then 0 else n
  {
  }

  /** A flush of `n` bytes and a call on the `m` behind them are one call on all of them. */
  lemma FlushJoins<S>(step: (S, byte) -> (S, byte), from: S, data: seq<byte>, n: nat, m: nat, middle: S,
                      flushed: seq<byte>, now: S, rest: seq<byte>)
    requires |flushed| == n && n + m == |data| && (middle, flushed) == Transform(step, from, data[..n])
    requires (now, rest) == Transform(step, middle, data[n..])
    ensures (now, flushed + rest) == Transform(step, from, data)
  {
    hide Transform;
    FlushThenRest(step, from, data, n);
  }

  /** The same over memory: `middle` and `between` after the flush at `at`, `now` and `after` at the end. */
  lemma WindowsJoin<S>(step: (S, byte) -> (S, byte), from: S, data: seq<byte>, at: nat, n: nat, m: nat, middle: S,
                       input: seq<byte>, between: seq<byte>, now: S, after: seq<byte>)
    requires at + n + m <= |data| == |input| && at + n + m <= |between| == |after|
    requires (middle, between[at..at + n]) == Transform(step, from, data[at..at + n])
    requires input[at + n..] == data[at + n..] && after[..at + n] == between[..at + n]
    requires (now, after[at + n..at + n + m]) == Transform(step, middle, input[at + n..at + n + m])
    ensures (now, after[at..at + n + m]) == Transform(step, from, data[at..at + n + m])
  {
    hide Transform;
    var all := data[at..at + n + m];
    assert all[..n] == data[at..at + n];
    assert all[n..] == data[at + n..][..m] == input[at + n..][..m] == input[at + n..at + n + m];
    assert after[at..at + n] == after[..at + n][at..] == between[..at + n][at..] == between[at..at + n];
    assert after[at..at + n + m] == between[at..at + n] + after[at + n..at + n + m];
    FlushJoins(step, from, all, n, m, middle, between[at..at + n], now, after[at + n..at + n + m]);
  }

  /** What neither of two writes in a row touches stays. */
  lemma Outside(out: seq<byte>, between: seq<byte>, after: seq<byte>, at: nat, n: nat, m: nat)
    requires at + n + m <= |out| == |between| == |after|
    requires between[..at] == out[..at] && between[at + n..] == out[at + n..]
    requires after[..at + n] == between[..at + n] && after[at + n + m..] == between[at + n + m..]
    ensures after[..at] == out[..at] && after[at + n + m..] == out[at + n + m..]
  {
    assert after[..at + n][..at] == between[..at + n][..at];
    assert between[at + n..][m..] == out[at + n..][m..];
  }

  /** A machine whose position in the block is `offset` counts its bytes modulo the block size. */
  lemma {:induction false} OffsetCounts<S(!new)>(step: (S, byte) -> (S, byte), offset: S -> Offset, s: S,
                                                 data: seq<byte>)
    requires forall t: S, x: byte :: offset(step(t, x).0) == Advance(offset(t))
    ensures offset(Transform(step, s, data).0) == Wrapped(offset(s) + |data|)
  {
    hide Wrapped, Advance;
    if data != [] {
      var n := |data| - 1;
      OffsetCounts(step, offset, s, data[..n]);
      AdvanceWraps(offset(s) + n);
    }
  }

  lemma AdvanceWraps(n: nat)
    ensures Advance(Wrapped(n)) == Wrapped(n + 1)
  {
  }

  lemma Revolution(n: nat, k: nat)
    ensures Wrapped(n) == Wrapped(n + k) <==> Whole(k)
  {
  }

  /** Going past the end of `len` bytes never leaves the state that those bytes lead to. */
  lemma ExcessShows<S(!new)>(step: (S, byte) -> (S, byte), offset: S -> Offset, s: S, memory: seq<byte>, len: nat)
    requires forall t: S, x: byte :: offset(step(t, x).0) == Advance(offset(t))
    requires |memory| == len + Excess(offset(s), len)
    ensures Transform(step, s, memory).0 == Transform(step, s, memory[..len]).0
       <==> offset(s) == 0 || offset(s) + len <= BLOCK_SIZE
    ensures Transform(step, s, memory).1[..len] == Transform(step, s, memory[..len]).1
  {
    hide Transform, Wrapped;
    OffsetCounts(step, offset, s, memory);
    OffsetCounts(step, offset, s, memory[..len]);
    Revolution(offset(s) + len, Excess(offset(s), len));
    if |memory| == len {
      assert memory[..len] == memory;
      assert Transform(step, s, memory).1[..len] == Transform(step, s, memory).1;
    } else {
      TransformAt(step, s, memory, len);
    }
  }

  /** What that means for a request at `at`, whose outcome is `now` and `output`. */
  lemma PostedShows<S(!new)>(step: (S, byte) -> (S, byte), offset: S -> Offset, from: S, data: seq<byte>, at: nat,
                             len: nat, x: nat, now: S, output: seq<byte>)
    requires forall t: S, y: byte :: offset(step(t, y).0) == Advance(offset(t))
    requires x == Excess(offset(from), len) && at + len + x <= |data| && at + len + x <= |output|
    requires (now, output[at..at + len + x]) == Transform(step, from, data[at..at + len + x])
    ensures output[at..at + len] == Transform(step, from, data[at..at + len]).1
    ensures now == Transform(step, from, data[at..at + len]).0
       <==> offset(from) == 0 || offset(from) + len <= BLOCK_SIZE
  {
    hide Transform, Excess;
    var memory := data[at..at + len + x];
    assert memory[..len] == data[at..at + len] && output[at..at + len + x][..len] == output[at..at + len];
    ExcessShows(step, offset, from, memory, len);
  }

  function FeedbackOffset(): Feedback -> Offset {
    (s: Feedback) => s.offset
  }

  function CounterOffset(): Counter -> Offset {
    (s: Counter) => s.offset
  }

  /** With whole blocks, the only requests that OFB admits, there is never anything to flush. */
  lemma OfbStaysWhole(e: Cipher, s: Feedback, data: seq<byte>, len: nat)
    requires s.offset == 0 && Whole(|data|)
    ensures Excess(Transform(OfbStep(e), s, data).0.offset, len) == 0
  {
    OfbStepOffset(e);
    OffsetCounts(OfbStep(e), FeedbackOffset(), s, data);
  }

  /** A request of 13 bytes and then one of 10: three bytes too many, and the next request starts in the wrong place. */
  lemma ThirteenThenTen(e: Cipher, nonce: Block, first: seq<byte>, memory: seq<byte>)
    requires |first| == 13 && |memory| == 13
    ensures var s := Transform(CtrStep(e), Counter(nonce, Zeros(BLOCK_SIZE), 0), first).0;
            && Excess(s.offset, 10) == 3
            && Transform(CtrStep(e), s, memory).0.offset == 10
            && Transform(CtrStep(e), s, memory[..10]).0.offset == 7
  {
    hide Transform, CtrStep, Wrapped;
    CtrStepOffset(e);
    Positions();
    var start := Counter(nonce, Zeros(BLOCK_SIZE), 0);
    var s := Transform(CtrStep(e), start, first).0;
    OffsetCounts(CtrStep(e), CounterOffset(), start, first);
    OffsetCounts(CtrStep(e), CounterOffset(), s, memory);
    OffsetCounts(CtrStep(e), CounterOffset(), s, memory[..10]);
  }

  lemma Positions()
    ensures Wrapped(13) == 13 && Wrapped(23) == 7 && Wrapped(26) == 10
  {
  }

  lemma OfbStepOffset(f: Cipher)
    ensures forall t: Feedback, y: byte :: FeedbackOffset()(OfbStep(f)(t, y).0) == Advance(FeedbackOffset()(t))
  {
  }

  lemma CtrStepOffset(f: Cipher)
    ensures forall t: Counter, y: byte :: CounterOffset()(CtrStep(f)(t, y).0) == Advance(CounterOffset()(t))
  {
  }

  lemma Cfb128EncryptOffset(f: Cipher)
    ensures forall t: Feedback, y: byte :: FeedbackOffset()(Cfb128Encrypt(f)(t, y).0) == Advance(FeedbackOffset()(t))
  {
  }

  lemma Cfb128DecryptOffset(f: Cipher)
    ensures forall t: Feedback, y: byte :: FeedbackOffset()(Cfb128Decrypt(f)(t, y).0) == Advance(FeedbackOffset()(t))
  {
  }

  /** Flushing, then exactly the rest. */
  method OfbFlushed(ofb: Ofb, f: Cipher, input: array<byte>, output: array<byte>, at: nat, len: nat)
    requires ofb.Valid() && at + len <= input.Length && at + len <= output.Length
    requires ofb.iv != input && ofb.iv != output
    modifies ofb`offset, ofb.iv, output
    ensures ofb.Valid()
    ensures (ofb.State(), output[at..at + len]) == Transform(OfbStep(f), old(ofb.State()), old(input[at..at + len]))
    ensures output[..at] == old(output[..at]) && output[at + len..] == old(output[at + len..])
  {
    hide Transform, OfbStep;
    ghost var from, data, out := ofb.State(), input[..], output[..];
    var n := ofb.Flush(f, input, output, at, len);
    if n < len {
      ghost var middle, now, between := ofb.State(), input[..], output[..];
      ofb.EncryptDecrypt(f, input, output, at + n, len - n);
      assert input != output ==> now == data;
      Outside(out, between, output[..], at, n, len - n);
      WindowsJoin(OfbStep(f), from, data, at, n, len - n, middle, now, between, ofb.State(), output[..]);
    }
    assert data[at..at + len] == old(input[at..at + len]);
  }

  /** `post` with less than a block for the DMA: the second call keeps the length of the first. */
  method OfbPosted(ofb: Ofb, f: Cipher, input: array<byte>, output: array<byte>, at: nat, len: nat)
    returns (ghost x: nat)
    requires ofb.Valid() && at + len + Excess(ofb.offset, len) <= input.Length
    requires at + len + Excess(ofb.offset, len) <= output.Length
    requires ofb.iv != input && ofb.iv != output
    modifies ofb`offset, ofb.iv, output
    ensures ofb.Valid() && x == Excess(old(ofb.offset), len)
    ensures (ofb.State(), output[at..at + len + x])
         == Transform(OfbStep(f), old(ofb.State()), old(input[at..at + len + x]))
    ensures output[..at] == old(output[..at]) && output[at + len + x..] == old(output[at + len + x..])
    ensures output[at..at + len] == Transform(OfbStep(f), old(ofb.State()), old(input[at..at + len])).1
    ensures ofb.State() == Transform(OfbStep(f), old(ofb.State()), old(input[at..at + len])).0
       <==> old(ofb.offset) == 0 || old(ofb.offset) + len <= BLOCK_SIZE
  {
    hide Transform, Excess, Flushable, OfbStep;
    x := Excess(ofb.offset, len);
    ExcessIs(ofb.offset, len);
    ghost var from, data, out := ofb.State(), input[..], output[..];
    var n := ofb.Flush(f, input, output, at, len);
    if n < len {
      ghost var middle, now, between := ofb.State(), input[..], output[..];
      ofb.EncryptDecrypt(f, input, output, at + n, len);
      assert input != output ==> now == data;
      Outside(out, between, output[..], at, n, len);
      WindowsJoin(OfbStep(f), from, data, at, n, len, middle, now, between, ofb.State(), output[..]);
    }
    assert data[at..at + len + x] == old(input[at..at + len + x]) && data[at..at + len] == old(input[at..at + len]);
    OfbStepOffset(f);
    PostedShows(OfbStep(f), FeedbackOffset(), from, data, at, len, x, ofb.State(), output[..]);
  }

  /** Flushing, then exactly the rest. */
  method CtrFlushed(ctr: Ctr, f: Cipher, input: array<byte>, output: array<byte>, at: nat, len: nat)
    requires ctr.Valid() && at + len <= input.Length && at + len <= output.Length
    requires ctr.nonce !in {input, output} && ctr.buffer !in {input, output}
    modifies ctr`offset, ctr.nonce, ctr.buffer, output
    ensures ctr.Valid()
    ensures (ctr.State(), output[at..at + len]) == Transform(CtrStep(f), old(ctr.State()), old(input[at..at + len]))
    ensures output[..at] == old(output[..at]) && output[at + len..] == old(output[at + len..])
  {
    hide Transform, CtrStep;
    ghost var from, data, out := ctr.State(), input[..], output[..];
    var n := ctr.Flush(f, input, output, at, len);
    if n < len {
      ghost var middle, now, between := ctr.State(), input[..], output[..];
      ctr.EncryptDecrypt(f, input, output, at + n, len - n);
      assert input != output ==> now == data;
      Outside(out, between, output[..], at, n, len - n);
      WindowsJoin(CtrStep(f), from, data, at, n, len - n, middle, now, between, ctr.State(), output[..]);
    }
    assert data[at..at + len] == old(input[at..at + len]);
  }

  /** `post` with less than a block for the DMA: the second call keeps the length of the first. */
  method CtrPosted(ctr: Ctr, f: Cipher, input: array<byte>, output: array<byte>, at: nat, len: nat)
    returns (ghost x: nat)
    requires ctr.Valid() && at + len + Excess(ctr.offset, len) <= input.Length
    requires at + len + Excess(ctr.offset, len) <= output.Length
    requires ctr.nonce !in {input, output} && ctr.buffer !in {input, output}
    modifies ctr`offset, ctr.nonce, ctr.buffer, output
    ensures ctr.Valid() && x == Excess(old(ctr.offset), len)
    ensures (ctr.State(), output[at..at + len + x])
         == Transform(CtrStep(f), old(ctr.State()), old(input[at..at + len + x]))
    ensures output[..at] == old(output[..at]) && output[at + len + x..] == old(output[at + len + x..])
    ensures output[at..at + len] == Transform(CtrStep(f), old(ctr.State()), old(input[at..at + len])).1
    ensures ctr.State() == Transform(CtrStep(f), old(ctr.State()), old(input[at..at + len])).0
       <==> old(ctr.offset) == 0 || old(ctr.offset) + len <= BLOCK_SIZE
  {
    hide Transform, Excess, Flushable, CtrStep;
    x := Excess(ctr.offset, len);
    ExcessIs(ctr.offset, len);
    ghost var from, data, out := ctr.State(), input[..], output[..];
    var n := ctr.Flush(f, input, output, at, len);
    if n < len {
      ghost var middle, now, between := ctr.State(), input[..], output[..];
      ctr.EncryptDecrypt(f, input, output, at + n, len);
      assert input != output ==> now == data;
      Outside(out, between, output[..], at, n, len);
      WindowsJoin(CtrStep(f), from, data, at, n, len, middle, now, between, ctr.State(), output[..]);
    }
    assert data[at..at + len + x] == old(input[at..at + len + x]) && data[at..at + len] == old(input[at..at + len]);
    CtrStepOffset(f);
    PostedShows(CtrStep(f), CounterOffset(), from, data, at, len, x, ctr.State(), output[..]);
  }

  /** Flushing, then exactly the rest. */
  method Cfb128FlushedEncrypt(cfb: Cfb128, f: Cipher, input: array<byte>, output: array<byte>, at: nat, len: nat)
    requires cfb.Valid() && at + len <= input.Length && at + len <= output.Length
    requires cfb.iv != input && cfb.iv != output
    modifies cfb`offset, cfb.iv, output
    ensures cfb.Valid()
    ensures (cfb.State(), output[at..at + len])
         == Transform(Cfb128Encrypt(f), old(cfb.State()), old(input[at..at + len]))
    ensures output[..at] == old(output[..at]) && output[at + len..] == old(output[at + len..])
  {
    hide Transform, Cfb128Encrypt;
    ghost var from, data, out := cfb.State(), input[..], output[..];
    var n := cfb.FlushEncrypt(f, input, output, at, len);
    if n < len {
      ghost var middle, now, between := cfb.State(), input[..], output[..];
      cfb.Encrypt(f, input, output, at + n, len - n);
      assert input != output ==> now == data;
      Outside(out, between, output[..], at, n, len - n);
      WindowsJoin(Cfb128Encrypt(f), from, data, at, n, len - n, middle, now, between, cfb.State(), output[..]);
    }
    assert data[at..at + len] == old(input[at..at + len]);
  }

  /** `post` with less than a block for the DMA: the second call keeps the length of the first. */
  method Cfb128PostedEncrypt(cfb: Cfb128, f: Cipher, input: array<byte>, output: array<byte>, at: nat, len: nat)
    returns (ghost x: nat)
    requires cfb.Valid() && at + len + Excess(cfb.offset, len) <= input.Length
    requires at + len + Excess(cfb.offset, len) <= output.Length
    requires cfb.iv != input && cfb.iv != output
    modifies cfb`offset, cfb.iv, output
    ensures cfb.Valid() && x == Excess(old(cfb.offset), len)
    ensures (cfb.State(), output[at..at + len + x])
         == Transform(Cfb128Encrypt(f), old(cfb.State()), old(input[at..at + len + x]))
    ensures output[..at] == old(output[..at]) && output[at + len + x..] == old(output[at + len + x..])
    ensures output[at..at + len] == Transform(Cfb128Encrypt(f), old(cfb.State()), old(input[at..at + len])).1
    ensures cfb.State() == Transform(Cfb128Encrypt(f), old(cfb.State()), old(input[at..at + len])).0
       <==> old(cfb.offset) == 0 || old(cfb.offset) + len <= BLOCK_SIZE
  {
    hide Transform, Excess, Flushable, Cfb128Encrypt;
    x := Excess(cfb.offset, len);
    ExcessIs(cfb.offset, len);
    ghost var from, data, out := cfb.State(), input[..], output[..];
    var n := cfb.FlushEncrypt(f, input, output, at, len);
    if n < len {
      ghost var middle, now, between := cfb.State(), input[..], output[..];
      cfb.Encrypt(f, input, output, at + n, len);
      assert input != output ==> now == data;
      Outside(out, between, output[..], at, n, len);
      WindowsJoin(Cfb128Encrypt(f), from, data, at, n, len, middle, now, between, cfb.State(), output[..]);
    }
    assert data[at..at + len + x] == old(input[at..at + len + x]) && data[at..at + len] == old(input[at..at + len]);
    Cfb128EncryptOffset(f);
    PostedShows(Cfb128Encrypt(f), FeedbackOffset(), from, data, at, len, x, cfb.State(), output[..]);
  }

  /** Flushing, then exactly the rest. */
  method Cfb128FlushedDecrypt(cfb: Cfb128, f: Cipher, input: array<byte>, output: array<byte>, at: nat, len: nat)
    requires cfb.Valid() && at + len <= input.Length && at + len <= output.Length
    requires cfb.iv != input && cfb.iv != output
    modifies cfb`offset, cfb.iv, output
    ensures cfb.Valid()
    ensures (cfb.State(), output[at..at + len])
         == Transform(Cfb128Decrypt(f), old(cfb.State()), old(input[at..at + len]))
    ensures output[..at] == old(output[..at]) && output[at + len..] == old(output[at + len..])
  {
    hide Transform, Cfb128Decrypt;
    ghost var from, data, out := cfb.State(), input[..], output[..];
    var n := cfb.FlushDecrypt(f, input, output, at, len);
    if n < len {
      ghost var middle, now, between := cfb.State(), input[..], output[..];
      cfb.Decrypt(f, input, output, at + n, len - n);
      assert input != output ==> now == data;
      Outside(out, between, output[..], at, n, len - n);
      WindowsJoin(Cfb128Decrypt(f), from, data, at, n, len - n, middle, now, between, cfb.State(), output[..]);
    }
    assert data[at..at + len] == old(input[at..at + len]);
  }

  /** `post` with less than a block for the DMA: the second call keeps the length of the first. */
  method Cfb128PostedDecrypt(cfb: Cfb128, f: Cipher, input: array<byte>, output: array<byte>, at: nat, len: nat)
    returns (ghost x: nat)
    requires cfb.Valid() && at + len + Excess(cfb.offset, len) <= input.Length
    requires at + len + Excess(cfb.offset, len) <= output.Length
    requires cfb.iv != input && cfb.iv != output
    modifies cfb`offset, cfb.iv, output
    ensures cfb.Valid() && x == Excess(old(cfb.offset), len)
    ensures (cfb.State(), output[at..at + len + x])
         == Transform(Cfb128Decrypt(f), old(cfb.State()), old(input[at..at + len + x]))
    ensures output[..at] == old(output[..at]) && output[at + len + x..] == old(output[at + len + x..])
    ensures output[at..at + len] == Transform(Cfb128Decrypt(f), old(cfb.State()), old(input[at..at + len])).1
    ensures cfb.State() == Transform(Cfb128Decrypt(f), old(cfb.State()), old(input[at..at + len])).0
       <==> old(cfb.offset) == 0 || old(cfb.offset) + len <= BLOCK_SIZE
  {
    hide Transform, Excess, Flushable, Cfb128Decrypt;
    x := Excess(cfb.offset, len);
    ExcessIs(cfb.offset, len);
    ghost var from, data, out := cfb.State(), input[..], output[..];
    var n := cfb.FlushDecrypt(f, input, output, at, len);
    if n < len {
      ghost var middle, now, between := cfb.State(), input[..], output[..];
      cfb.Decrypt(f, input, output, at + n, len);
      assert input != output ==> now == data;
      Outside(out, between, output[..], at, n, len);
      WindowsJoin(Cfb128Decrypt(f), from, data, at, n, len, middle, now, between, cfb.State(), output[..]);
    }
    assert data[at..at + len + x] == old(input[at..at + len + x]) && data[at..at + len] == old(input[at..at + len]);
    Cfb128DecryptOffset(f);
    PostedShows(Cfb128Decrypt(f), FeedbackOffset(), from, data, at, len, x, cfb.State(), output[..]);
  }
}
