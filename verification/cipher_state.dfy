/** The AES driver's choice of mode and direction: what a work item computes and how decryption undoes encryption. */
module CipherState {
  import opened Words
  import opened BlockModes

  datatype Operation = Encrypt | Decrypt

  datatype Mode = Ecb | Cbc | Ofb | Ctr | Cfb8 | Cfb128 {
    /** `software_operating_mode`: the stream modes decrypt with the forward cipher too. */
    predicate HardwareEncrypts(op: Operation) {
      match this
      case Ecb => op == Encrypt
      case Cbc => op == Encrypt
      case Ofb => true
      case Ctr => true
      case Cfb8 => true
      case Cfb128 => true
    }

    /** Whether the mode is refused data that is not whole blocks. */
    predicate RequiresBlocks() {
      Ecb? || Ofb? || Cbc?
    }

    predicate Validates(length: nat) {
      RequiresBlocks() ==> Whole(length)
    }

    function Select(op: Operation, e: Cipher, d: Cipher): Cipher {
      if HardwareEncrypts(op) then e else d
    }
  }

  /** The state a context carries between calls. */
  datatype State =
    | EcbState
    | CbcState(iv: Block)
    | OfbState(ofb: Feedback)
    | CtrState(ctr: Counter)
    | Cfb8State(shift: Block)
    | Cfb128State(cfb: Feedback)
  {
    function Mode(): Mode {
      match this
      case EcbState => Ecb
      case CbcState(_) => Cbc
      case OfbState(_) => Ofb
      case CtrState(_) => Ctr
      case Cfb8State(_) => Cfb8
      case Cfb128State(_) => Cfb128
    }
  }

  /** What a work item leaves in the state and writes to the output; `f` is what the hardware was set to compute. */
  function Crypt(s: State, op: Operation, f: Cipher, data: seq<byte>): (r: (State, seq<byte>))
    requires s.Mode().Validates(|data|)
    ensures |r.1| == |data|
  {
    match s
    case EcbState => (EcbState, TransformBlocks(EcbStep(f), (), data).1)
    case CbcState(iv) =>
      var (t, out) := TransformBlocks(if op == Encrypt then CbcEncrypt(f) else CbcDecrypt(f), iv,
          data); (CbcState(t), out)
    case OfbState(ofb) => var (t, out) := Transform(OfbStep(f), ofb, data); (OfbState(t), out)
    case CtrState(ctr) => var (t, out) := Transform(CtrStep(f), ctr, data); (CtrState(t), out)
    case Cfb8State(iv) =>
      var (t, out) := Transform(if op == Encrypt then Cfb8Encrypt(f) else Cfb8Decrypt(f), iv, data); (Cfb8State(t), out)
    case Cfb128State(cfb) =>
      var (t, out) := Transform(if op == Encrypt then Cfb128Encrypt(f) else Cfb128Decrypt(f), cfb, data);
      (Cfb128State(t), out)
  }

  /** Decryption gives back the data and leaves the same state as encryption did, in all six modes. */
  lemma DecryptInvertsEncrypt(s: State, e: Cipher, d: Cipher, data: seq<byte>)
    requires Inverse(e, d) && s.Mode().Validates(|data|)
    ensures var (t, out) := Crypt(s, Encrypt, s.Mode().Select(Encrypt, e, d), data);
            Crypt(s, Decrypt, s.Mode().Select(Decrypt, e, d), out) == (t, data)
  {
    match s
    case EcbState =>
      TransformBlocksInverts(EcbStep(e), EcbStep(d), (), data);
    case CbcState(iv) =>
      forall t, x ensures CbcDecrypt(d)(t, CbcEncrypt(e)(t, x).1) == (CbcEncrypt(e)(t, x).0, x) {
        MixCommutes(t, x);
        MixTwice(x, t);
      }
      TransformBlocksInverts(CbcEncrypt(e), CbcDecrypt(d), iv, data);
    case OfbState(ofb) =>
      forall t, x ensures OfbStep(e)(t, OfbStep(e)(t, x).1) == (OfbStep(e)(t, x).0, x) {
        AddTwice(x, Refreshed(e, t)[t.offset]);
      }
      TransformInverts(OfbStep(e), OfbStep(e), ofb, data);
    case CtrState(ctr) =>
      forall t, x ensures CtrStep(e)(t, CtrStep(e)(t, x).1) == (CtrStep(e)(t, x).0, x) {
        AddTwice(x, Drawn(e, t).buffer[t.offset]);
      }
      TransformInverts(CtrStep(e), CtrStep(e), ctr, data);
    case Cfb8State(iv) =>
      forall t, x ensures Cfb8Decrypt(e)(t, Cfb8Encrypt(e)(t, x).1) == (Cfb8Encrypt(e)(t, x).0, x) {
        AddTwice(x, e(t)[0]);
      }
      TransformInverts(Cfb8Encrypt(e), Cfb8Decrypt(e), iv, data);
    case Cfb128State(cfb) =>
      forall t, x ensures Cfb128Decrypt(e)(t, Cfb128Encrypt(e)(t, x).1) == (Cfb128Encrypt(e)(t, x).0, x) {
        AddTwice(x, Refreshed(e, t)[t.offset]);
      }
      TransformInverts(Cfb128Encrypt(e), Cfb128Decrypt(e), cfb, data);
  }

  /** Two calls in a row do what one call on the joined data does, whenever both are admitted. */
  lemma CallsJoin(s: State, op: Operation, f: Cipher, a: seq<byte>, b: seq<byte>)
    requires s.Mode().Validates(|a|) && s.Mode().Validates(|b|)
    ensures s.Mode().Validates(|a + b|) && Crypt(s, op, f, a).0.Mode().Validates(|b|)
    ensures var (t, first) := Crypt(s, op, f, a); var (u, rest) := Crypt(t, op, f, b);
            Crypt(s, op, f, a + b) == (u, first + rest)
  {
    hide Transform, TransformBlocks, EcbStep, CbcEncrypt, CbcDecrypt, OfbStep, CtrStep;
    hide Cfb8Encrypt, Cfb8Decrypt, Cfb128Encrypt, Cfb128Decrypt;
    match s
    case EcbState =>
      assert TransformBlocks(EcbStep(f), (), a).0 == ();
      TransformBlocksSplit(EcbStep(f), (), a, b);
    case CbcState(iv) => TransformBlocksSplit(if op == Encrypt then CbcEncrypt(f) else CbcDecrypt(f), iv, a, b);
    case OfbState(ofb) => TransformSplit(OfbStep(f), ofb, a, b);
    case CtrState(ctr) => TransformSplit(CtrStep(f), ctr, a, b);
    case Cfb8State(iv) => TransformSplit(if op == Encrypt then Cfb8Encrypt(f) else Cfb8Decrypt(f), iv, a, b);
    case Cfb128State(cfb) => TransformSplit(if op == Encrypt then Cfb128Encrypt(f) else Cfb128Decrypt(f), cfb, a, b);
  }
}
