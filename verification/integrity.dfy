/** What damage to a frame does: exactly which frames are delivered, and which error every other one gives. */
module Integrity {
  import opened Words
  import opened Wrappers
  import opened Cobs
  import opened Codec
  import opened Crc

  /** What a frame must hold: a payload and its CRC, stuffed. */
  ghost predicate Carries(f: seq<byte>, payload: seq<byte>) {
    payload != [] && Cobs.Decode(f) == Some(payload + [Crc8(payload)])
  }

  /** The payload of a frame with the right CRC. */
  function Body(f: seq<byte>): (payload: Option<seq<byte>>) {
    match Cobs.Decode(f)
    case None => None
    case Some(d) => if |d| >= 2 && Crc8(d[..|d| - 1]) == d[|d| - 1] then Some(d[..|d| - 1]) else None
  }

  lemma CarriesBody(f: seq<byte>, payload: seq<byte>)
    ensures Carries(f, payload) <==> Body(f) == Some(payload)
  {
    hide Cobs.Decode, Crc8;
    if Body(f) == Some(payload) {
      var d := Cobs.Decode(f).value;
      assert d == d[..|d| - 1] + [d[|d| - 1]];
    }
    if Carries(f, payload) {
      assert (payload + [Crc8(payload)])[..|payload|] == payload;
    }
  }

  /** A message is delivered if and only if the frame holds a payload with the right CRC that stands for it. */
  lemma DeliveredExactly<M(!new)>(format: Format<M>, f: seq<byte>, m: M)
    ensures DecodeFrame(format, f) == Codec.Ok(m)
       <==> exists payload: seq<byte> :: Carries(f, payload) && format.de(payload) == Some(m)
  {
    hide Cobs.Decode, Crc8, Carries;
    forall payload: seq<byte> ensures Carries(f, payload) <==> Body(f) == Some(payload) {
      CarriesBody(f, payload);
    }
  }

  /** Long enough, but the last byte is not the CRC of those before it. */
  predicate WrongCrc(d: seq<byte>) {
    |d| >= 2 && Crc8(d[..|d| - 1]) != d[|d| - 1]
  }

  /** When each error is returned; the others are never returned. */
  lemma RefusedExactly<M(!new)>(format: Format<M>, f: seq<byte>)
    ensures var r, d := DecodeFrame(format, f), Cobs.Decode(f);
            && (r == Codec.Err(BadCobs) <==> d.None?)
            && (r == Codec.Err(FrameTooShort) <==> d.Some? && |d.value| < 2)
            && (r == Codec.Err(BadCrc) <==> d.Some? && WrongCrc(d.value))
            && (r == Codec.Err(Deserialize) <==>
                  exists payload: seq<byte> :: Carries(f, payload) && format.de(payload).None?)
            && r != Codec.Err(Serialize) && r != Codec.Err(BufferFull)
  {
    hide Cobs.Decode, Crc8, Carries;
    forall payload: seq<byte> ensures Carries(f, payload) <==> Body(f) == Some(payload) {
      CarriesBody(f, payload);
    }
  }

  /** The body of a frame after `error` happened to payload and CRC. */
  function Damaged(payload: seq<byte>, error: seq<byte>): (f: seq<byte>)
    requires |error| == |payload| + 1
  {
    Cobs.Encode(Xor(payload + [Crc8(payload)], error))
  }

  /** A damaged frame is refused for its CRC exactly if the CRC register of the error is not zero. */
  lemma DamageRefused<M(!new)>(format: Format<M>, payload: seq<byte>, error: seq<byte>)
    requires payload != [] && |error| == |payload| + 1
    ensures DecodeFrame(format, Damaged(payload, error)) == Codec.Err(BadCrc) <==> Crc8(error) != 0
  {
    hide Cobs.Decode, Cobs.Encode, Crc8, Xor;
    var d := Xor(payload + [Crc8(payload)], error);
    RoundTrip(d);
    UnseenIffZero(payload, error);
    RefusedExactly(format, Damaged(payload, error));
  }

  /** One poll of a buffer that starts with a damaged frame: the error is reported and what follows is kept. */
  lemma DamagePolled<M(!new)>(format: Format<M>, payload: seq<byte>, error: seq<byte>, rest: seq<byte>)
    requires payload != [] && |error| == |payload| + 1
    ensures var (result, left) := NextFrame(format, Damaged(payload, error) + [0] + rest);
            left == rest && (result == Codec.Err(BadCrc) <==> Crc8(error) != 0)
  {
    hide DecodeFrame, Cobs.Encode, Crc8, Xor, ZeroFree, FindZero;
    var f := Damaged(payload, error);
    EncodeZeroFree(Xor(payload + [Crc8(payload)], error));
    assert (f + [0] + rest)[..|f|] == f;
    FindZeroAt(f + [0] + rest, |f|);
    DamageRefused(format, payload, error);
  }

  /** Every burst of at most eight bits is reported as a wrong CRC, by `decode` and by a poll. */
  lemma BurstRefused<M(!new)>(format: Format<M>, payload: seq<byte>, i: nat, w: byte, s: bv4, rest: seq<byte>)
    requires i + 1 <= |payload| && s <= 8 && w != 0
    ensures var f := Damaged(payload, Burst(|payload| + 1, i, w, s));
            && DecodeFrame(format, f) == Codec.Err(BadCrc)
            && NextFrame(format, f + [0] + rest) == (Codec.Err(BadCrc), rest)
  {
    hide DecodeFrame, NextFrame, Damaged, Cobs.Encode, Crc8, Xor, Burst;
    var error := Burst(|payload| + 1, i, w, s);
    DamageRefused(format, payload, error);
    DamagePolled(format, payload, error, rest);
    UnseenIffZero(payload, error);
    BurstRejected(payload, i, w, s);
  }

  /** So is every change of an odd number of bits. */
  lemma OddRefused<M(!new)>(format: Format<M>, payload: seq<byte>, error: seq<byte>, rest: seq<byte>)
    requires payload != [] && |error| == |payload| + 1 && Weight(error) % 2 == 1
    ensures var f := Damaged(payload, error);
            && DecodeFrame(format, f) == Codec.Err(BadCrc)
            && NextFrame(format, f + [0] + rest) == (Codec.Err(BadCrc), rest)
  {
    hide DecodeFrame, NextFrame, Damaged, Cobs.Encode, Crc8, Xor, Weight;
    DamageRefused(format, payload, error);
    DamagePolled(format, payload, error, rest);
    UnseenIffZero(payload, error);
    OddRejected(payload, error);
  }

  /** One bit flipped in the payload [1], whose CRC is 7. */
  lemma FlippedBit<M(!new)>(format: Format<M>)
    ensures DecodeFrame(format, [3, 3, 7]) == Codec.Err(BadCrc)
  {
    var f: seq<byte> := [3, 3, 7];
    assert (3 as byte) as int == 3 && f[1..3] == [3, 7] && f[3..] == [];
    assert [3, 7] + Separator(3, []) + [] == [3, 7];
    assert Cobs.Decode(f) == Some([3, 7]) by {
      DecodeNothing();
    }
    CrcOfThree();
    assert [3, 7][..1] == [3];
    RefusedExactly(format, f);
  }

  lemma CrcOfThree()
    ensures Crc8([3]) == 9
  {
    assert Register(0, [3]) == Step(Add(0, 3));
  }
}
