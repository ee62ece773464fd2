/** The AES front end: checking a request, choosing the direction of the hardware and running the mode. */
module Aes {
  import opened Words
  import opened BlockModes
  import opened CipherState
  import Modes = CipherModes

  datatype Error = BuffersNotEqual | IncorrectBufferLength

  datatype Result = Ok | Err(error: Error)

  /** A mode of operation together with its state. */
  datatype Algorithm =
    | EcbMode(ecb: Modes.Ecb)
    | CbcMode(cbc: Modes.Cbc)
    | OfbMode(ofb: Modes.Ofb)
    | CtrMode(ctr: Modes.Ctr)
    | Cfb8Mode(cfb8: Modes.Cfb8)
    | Cfb128Mode(cfb128: Modes.Cfb128)
  {
    ghost function Objects(): set<object> {
      match this
      case EcbMode(_) => {}
      case CbcMode(cbc) => {cbc}
      case OfbMode(ofb) => {ofb}
      case CtrMode(ctr) => {ctr}
      case Cfb8Mode(cfb8) => {cfb8}
      case Cfb128Mode(cfb128) => {cfb128}
    }

    ghost function Registers(): set<array<byte>> {
      match this
      case EcbMode(_) => {}
      case CbcMode(cbc) => {cbc.iv}
      case OfbMode(ofb) => {ofb.iv}
      case CtrMode(ctr) => {ctr.nonce, ctr.buffer}
      case Cfb8Mode(cfb8) => {cfb8.iv}
      case Cfb128Mode(cfb128) => {cfb128.iv}
    }

    ghost predicate Valid()
      reads Objects()
    {
      match this
      case EcbMode(_) => true
      case CbcMode(cbc) => cbc.Valid()
      case OfbMode(ofb) => ofb.Valid()
      case CtrMode(ctr) => ctr.Valid()
      case Cfb8Mode(cfb8) => cfb8.Valid()
      case Cfb128Mode(cfb128) => cfb128.Valid()
    }

    ghost function Value(): (s: State)
      requires Valid()
      reads Objects(), Registers()
      ensures s.Mode() == Mode()
    {
      match this
      case EcbMode(_) => EcbState
      case CbcMode(cbc) => CbcState(cbc.State())
      case OfbMode(ofb) => OfbState(ofb.State())
      case CtrMode(ctr) => CtrState(ctr.State())
      case Cfb8Mode(cfb8) => Cfb8State(cfb8.State())
      case Cfb128Mode(cfb128) => Cfb128State(cfb128.State())
    }

    function Mode(): Mode {
      match this
      case EcbMode(_) => Ecb
      case CbcMode(_) => Cbc
      case OfbMode(_) => Ofb
      case CtrMode(_) => Ctr
      case Cfb8Mode(_) => Cfb8
      case Cfb128Mode(_) => Cfb128
    }
  }

  /** One context: a mode, a direction and a key, of which only the two block functions it defines matter. */
  class AesContext {
    const algo: Algorithm
    const operation: Operation
    const encryptBlock: Cipher
    const decryptBlock: Cipher

    constructor (algo: Algorithm, operation: Operation, encryptBlock: Cipher, decryptBlock: Cipher)
      ensures this.algo == algo && this.operation == operation
      ensures this.encryptBlock == encryptBlock && this.decryptBlock == decryptBlock
    {
      this.algo, this.operation, this.encryptBlock, this.decryptBlock := algo, operation, encryptBlock, decryptBlock;
    }

    /** `process_work_item`: `input` and `output` may be the same buffer. */
    method ProcessWorkItem(input: array<byte>, output: array<byte>)
      requires algo.Valid() && input !in algo.Registers() && output !in algo.Registers()
      requires input.Length == output.Length && algo.Mode().Validates(input.Length)
      modifies algo.Objects(), algo.Registers(), output
      ensures algo.Valid() && algo.Mode().Validates(|old(input[..])|)
      ensures (algo.Value(), output[..])
           == Crypt(old(algo.Value()), operation, algo.Mode().Select(operation, encryptBlock, decryptBlock),
                    old(input[..]))
      ensures input != output ==> input[..] == old(input[..])
    {
      hide Transform, TransformBlocks, EcbStep, CbcEncrypt, CbcDecrypt, OfbStep, CtrStep;
      hide Cfb8Encrypt, Cfb8Decrypt, Cfb128Encrypt, Cfb128Decrypt;
      var f := algo.Mode().Select(operation, encryptBlock, decryptBlock);
      assert input[0..input.Length] == input[..];
      match algo {
        case EcbMode(ecb) => ecb.EncryptDecrypt(f, input, output);
        case CbcMode(cbc) =>
          if operation == Encrypt {
            cbc.Encrypt(f, input, output);
          } else {
            cbc.Decrypt(f, input, output);
          }
        case OfbMode(ofb) => ofb.EncryptDecrypt(f, input, output, 0, input.Length);
        case CtrMode(ctr) => ctr.EncryptDecrypt(f, input, output, 0, input.Length);
        case Cfb8Mode(cfb8) =>
          if operation == Encrypt {
            cfb8.Encrypt(f, input, output, 0, input.Length);
          } else {
            cfb8.Decrypt(f, input, output, 0, input.Length);
          }
        case Cfb128Mode(cfb128) =>
          if operation == Encrypt {
            cfb128.Encrypt(f, input, output, 0, input.Length);
          } else {
            cfb128.Decrypt(f, input, output, 0, input.Length);
          }
      }
      assert output[0..input.Length] == output[..];
    }

    /** `process`, and `process_in_place` when the two buffers are one, with the work item run to completion. */
    method Process(input: array<byte>, output: array<byte>) returns (r: Result)
      requires algo.Valid() && input !in algo.Registers() && output !in algo.Registers()
      modifies algo.Objects(), algo.Registers(), output
      ensures algo.Valid()
      ensures !algo.Mode().Validates(input.Length) || !algo.Mode().Validates(output.Length)
         <==> r == Err(IncorrectBufferLength)
      ensures r == Err(BuffersNotEqual) ==> input.Length != output.Length
      ensures r.Err? ==> algo.Value() == old(algo.Value()) && output[..] == old(output[..])
      ensures r == Ok ==>
                input.Length == output.Length
                && (algo.Value(), output[..])
                == Crypt(old(algo.Value()), operation, algo.Mode().Select(operation, encryptBlock, decryptBlock),
                         old(input[..]))
    {
      if !algo.Mode().Validates(input.Length) || !algo.Mode().Validates(output.Length) {
        return Err(IncorrectBufferLength);
      }
      if input.Length != output.Length {
        return Err(BuffersNotEqual);
      }
      ProcessWorkItem(input, output);
      r := Ok;
    }
  }
}
