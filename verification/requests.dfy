/** What a request computes, in the terms of NIST SP 800-38A: every mode and direction, with `e` and `d` by name. */
module Requests {
  import opened Words
  import opened BlockModes
  import opened CipherState
  import opened Sp80038a

  /** The output of a request: `e` and `d` are the block cipher and its inverse under the key of the context. */
  function Request(s: State, op: Operation, e: Cipher, d: Cipher, data: seq<byte>): (out: seq<byte>)
    requires s.Mode().Validates(|data|)
    ensures |out| == |data|
  {
    Crypt(s, op, s.Mode().Select(op, e, d), data).1
  }

  /** Which lengths are admitted. */
  lemma Admitted(mode: Mode, n: nat)
    ensures mode.Validates(n) <==> n % 16 == 0 || mode == Ctr || mode == Cfb8 || mode == Cfb128
  {
  }

  // Section 6.1

  lemma EcbRequest(e: Cipher, d: Cipher, data: seq<byte>, at: nat)
    requires Whole(|data|) && Whole(at) && at + BLOCK_SIZE <= |data|
    ensures BlockAt(Request(EcbState, Encrypt, e, d, data), at) == e(BlockAt(data, at))
    ensures BlockAt(Request(EcbState, Decrypt, e, d, data), at) == d(BlockAt(data, at))
  {
    EcbIsElectronicCodebook(e, data, at);
    EcbIsElectronicCodebook(d, data, at);
  }

  // Section 6.2

  lemma CbcEncryptRequest(iv: Block, e: Cipher, d: Cipher, data: seq<byte>, at: nat)
    requires Whole(|data|) && Whole(at) && at + BLOCK_SIZE <= |data|
    ensures var out := Request(CbcState(iv), Encrypt, e, d, data);
            BlockAt(out, at) == e(Mix(if at == 0 then iv else BlockAt(out, at - BLOCK_SIZE), BlockAt(data, at)))
  {
    CbcChains(e, iv, data, at);
  }

  lemma CbcDecryptRequest(iv: Block, e: Cipher, d: Cipher, data: seq<byte>, at: nat)
    requires Whole(|data|) && Whole(at) && at + BLOCK_SIZE <= |data|
    ensures BlockAt(Request(CbcState(iv), Decrypt, e, d, data), at)
         == Mix(d(BlockAt(data, at)), if at == 0 then iv else BlockAt(data, at - BLOCK_SIZE))
  {
    hide TransformBlocks;
    TransformBlocksAt(CbcDecrypt(d), iv, data, at);
    CbcDecryptLast(d, iv, data[..at]);
    assert at > 0 ==> BlockAt(data[..at], at - BLOCK_SIZE) == BlockAt(data, at - BLOCK_SIZE);
  }

  /** The state after ciphertext is its last block. */
  lemma CbcDecryptLast(d: Cipher, iv: Block, data: seq<byte>)
    requires Whole(|data|)
    ensures data == [] || |data| >= BLOCK_SIZE
    ensures TransformBlocks(CbcDecrypt(d), iv, data).0 == if data == [] then iv else BlockAt(data, |data| - BLOCK_SIZE)
  {
  }

  // Section 6.4

  lemma OfbRequest(iv: Block, op: Operation, e: Cipher, d: Cipher, data: seq<byte>, i: nat)
    requires Whole(|data|) && i < |data|
    ensures Request(OfbState(Feedback(iv, 0)), op, e, d, data)[i]
         == Add(data[i], Iterate(e, i / BLOCK_SIZE + 1, iv)[i % BLOCK_SIZE])
  {
    OfbKeyStream(e, iv, data, i);
  }

  // Section 6.5

  lemma CtrRequest(nonce: Block, buffer: Block, op: Operation, e: Cipher, d: Cipher, data: seq<byte>, i: nat)
    requires i < |data|
    ensures Request(CtrState(Counter(nonce, buffer, 0)), op, e, d, data)[i]
         == Add(data[i], e(Iterate(NextBlock, i / BLOCK_SIZE, nonce))[i % BLOCK_SIZE])
  {
    CtrKeyStream(e, nonce, buffer, data, i);
  }

  // Section 6.3

  lemma Cfb8EncryptRequest(iv: Block, e: Cipher, d: Cipher, data: seq<byte>, i: nat)
    requires i < |data|
    ensures var out := Request(Cfb8State(iv), Encrypt, e, d, data);
            out[i] == Add(e(BlockAt(iv + out, i))[0], data[i])
  {
    Cfb8Chains(e, iv, data, i);
  }

  lemma Cfb8DecryptRequest(iv: Block, e: Cipher, d: Cipher, data: seq<byte>, i: nat)
    requires i < |data|
    ensures Request(Cfb8State(iv), Decrypt, e, d, data)[i] == Add(e(BlockAt(iv + data, i))[0], data[i])
  {
    hide Transform;
    var out := Transform(Cfb8Decrypt(e), iv, data).1;
    forall t, c ensures Cfb8Encrypt(e)(t, Cfb8Decrypt(e)(t, c).1) == (Cfb8Decrypt(e)(t, c).0, c) {
      AddTwice(c, e(t)[0]);
    }
    TransformInverts(Cfb8Decrypt(e), Cfb8Encrypt(e), iv, data);
    Cfb8Chains(e, iv, out, i);
    AddTwice(out[i], e(BlockAt(iv + data, i))[0]);
  }

  lemma Cfb128EncryptRequest(iv: Block, e: Cipher, d: Cipher, data: seq<byte>, i: nat)
    requires i < |data|
    ensures var out := Request(Cfb128State(Feedback(iv, 0)), Encrypt, e, d, data);
            out[i] == Add(e(BlockAt(iv + out, BlockStart(i)))[i % BLOCK_SIZE], data[i])
  {
    Cfb128Chains(e, iv, data, i);
  }

  lemma Cfb128DecryptRequest(iv: Block, e: Cipher, d: Cipher, data: seq<byte>, i: nat)
    requires i < |data|
    ensures Request(Cfb128State(Feedback(iv, 0)), Decrypt, e, d, data)[i]
         == Add(e(BlockAt(iv + data, BlockStart(i)))[i % BLOCK_SIZE], data[i])
  {
    hide Transform;
    var s := Feedback(iv, 0);
    var out := Transform(Cfb128Decrypt(e), s, data).1;
    forall t, c ensures Cfb128Encrypt(e)(t, Cfb128Decrypt(e)(t, c).1) == (Cfb128Decrypt(e)(t, c).0, c) {
      AddTwice(c, Refreshed(e, t)[t.offset]);
    }
    TransformInverts(Cfb128Decrypt(e), Cfb128Encrypt(e), s, data);
    Cfb128Chains(e, iv, out, i);
    AddTwice(out[i], e(BlockAt(iv + data, BlockStart(i)))[i % BLOCK_SIZE]);
  }

  // Any number of requests in a row.

  /** State and output after the requests `pieces`. */
  function InTurn(s: State, op: Operation, f: Cipher, pieces: seq<seq<byte>>): (r: (State, seq<byte>))
    requires forall p <- pieces :: s.Mode().Validates(|p|)
    ensures r.0.Mode() == s.Mode()
  {
    if pieces == [] then (s, [])
    else
      var before := InTurn(s, op, f, pieces[..|pieces| - 1]);
      var one := Crypt(before.0, op, f, pieces[|pieces| - 1]);
      (one.0, before.1 + one.1)
  }

  /** They compute what one request for all of their data does, so the equations above hold across requests. */
  lemma {:induction false} RequestsJoin(s: State, op: Operation, f: Cipher, pieces: seq<seq<byte>>)
    requires forall p <- pieces :: s.Mode().Validates(|p|)
    ensures s.Mode().Validates(|Concat(pieces)|) && InTurn(s, op, f, pieces) == Crypt(s, op, f, Concat(pieces))
  {
    if pieces != [] {
      var n := |pieces| - 1;
      RequestsJoin(s, op, f, pieces[..n]);
      CallsJoin(s, op, f, Concat(pieces[..n]), pieces[n]);
    }
  }
}
