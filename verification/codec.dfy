/** Wire framing: serialisation, CRC-8 trailer, COBS, zero terminator, and the streaming decoder. */
module Codec {
  import opened Words
  import opened Wrappers
  import opened Cobs
  import Crc

  datatype Error = Serialize | Deserialize | BadCobs | BadCrc | FrameTooShort | BufferFull

  datatype Result<T> = Ok(value: T) | Err(error: Error)

  /** The serialiser, left abstract. */
  datatype Format<!M(!new)> = Format(ser: M -> Option<seq<byte>>, de: seq<byte> -> Option<M>) {
    /** What it serialises it can read back, and a message is never empty on the wire. */
    ghost predicate Lawful() {
      forall m: M :: ser(m).Some? ==> ser(m).value != [] && de(ser(m).value) == Some(m)
    }
  }

  /** `encode`: payload and CRC, stuffed, and the terminator. */
  function EncodeMessage<M(!new)>(format: Format<M>, msg: M): (wire: Result<seq<byte>>) {
    match format.ser(msg)
    case None => Err(Serialize)
    case Some(payload) => Ok(Cobs.Encode(payload + [Crc.Crc8(payload)]) + [0])
  }

  /** Everything after COBS: length, CRC, deserialisation. */
  function Open<M(!new)>(format: Format<M>, decoded: seq<byte>): (msg: Result<M>) {
    if |decoded| < 2 then Err(FrameTooShort)
    else if !Crc.Accepts(decoded) then Err(BadCrc)
    else
      match format.de(decoded[..|decoded| - 1])
      case None => Err(Deserialize)
      case Some(m) => Ok(m)
  }

  /** `decode`: one frame without its terminator. */
  function DecodeFrame<M(!new)>(format: Format<M>, frame: seq<byte>): (msg: Result<M>) {
    match Cobs.Decode(frame)
    case None => Err(BadCobs)
    case Some(decoded) => Open(format, decoded)
  }

  /** The terminator is the only zero byte on the wire. */
  lemma EncodeTerminates<M(!new)>(format: Format<M>, msg: M)
    requires EncodeMessage(format, msg).Ok?
    ensures var wire := EncodeMessage(format, msg).value;
            |wire| > 1 && wire[|wire| - 1] == 0 && ZeroFree(wire[..|wire| - 1])
  {
    var payload := format.ser(msg).value;
    var stuffed := Cobs.Encode(payload + [Crc.Crc8(payload)]);
    EncodeZeroFree(payload + [Crc.Crc8(payload)]);
    assert (stuffed + [0])[..|stuffed|] == stuffed;
  }

  /** `decode` inverts `encode` for every message that can be serialised. */
  lemma DecodeEncode<M(!new)>(format: Format<M>, msg: M)
    requires format.Lawful() && EncodeMessage(format, msg).Ok?
    ensures var wire := EncodeMessage(format, msg).value; DecodeFrame(format, wire[..|wire| - 1]) == Ok(msg)
  {
    hide Cobs.Decode, Cobs.Encode, Crc.Crc8;
    var payload := format.ser(msg).value;
    var body := payload + [Crc.Crc8(payload)];
    var stuffed := Cobs.Encode(body);
    assert (stuffed + [0])[..|stuffed|] == stuffed;
    RoundTrip(body);
    assert body[..|payload|] == payload;
  }

  /** Position of the first zero byte, or the length. */
  function FindZero(s: seq<byte>): (z: nat)
    ensures z <= |s| && ZeroFree(s[..z])
    ensures z < |s| ==> s[z] == 0
  {
    if s == [] || s[0] == 0 then 0
    else
      var z := 1 + FindZero(s[1..]);
      assert forall i :: 0 < i < z ==> s[i] == s[1..][..z - 1][i - 1];
      z
  }

  lemma FindZeroAt(s: seq<byte>, z: nat)
    requires z < |s| && s[z] == 0 && ZeroFree(s[..z])
    ensures FindZero(s) == z
  {
    var y := FindZero(s);
    assert forall i :: 0 <= i < z ==> s[..z][i] == s[i];
    assert forall i :: 0 <= i < y ==> s[..y][i] == s[i];
  }

  lemma NoZero(s: seq<byte>)
    ensures FindZero(s) == |s| <==> ZeroFree(s)
  {
    assert s[..|s|] == s;
    if FindZero(s) < |s| {
      assert s[FindZero(s)] == 0;
    }
  }

  type Poll<M> = Result<Option<M>>

  function Delivered<M(!new)>(r: Result<M>): (p: Poll<M>) {
    match r
    case Ok(m) => Ok(Some(m))
    case Err(e) => Err(e)
  }

  /** What one frame, empty or not, yields when it is taken from the buffer. */
  function FrameResult<M(!new)>(format: Format<M>, frame: seq<byte>): (p: Poll<M>) {
    if frame == [] then Ok(None) else Delivered(DecodeFrame(format, frame))
  }

  /** `next_frame` as a function of the buffer: the result and what stays buffered. */
  function NextFrame<M(!new)>(format: Format<M>, buf: seq<byte>): (r: (Poll<M>, seq<byte>)) {
    var z := FindZero(buf);
    if z == |buf| then (Ok(None), buf) else (FrameResult(format, buf[..z]), buf[z + 1..])
  }

  class Decoder<M(!new)> {
    const format: Format<M>
    const maxFrameLen: nat
    var buf: array<byte>
    var len: nat

    ghost predicate Valid()
      reads this
    {
      buf.Length == maxFrameLen && len <= maxFrameLen
    }

    /** The buffered bytes; never more than `maxFrameLen`. */
    ghost function Contents(): (s: seq<byte>)
      requires Valid()
      reads this, buf
      ensures |s| <= maxFrameLen
    {
      buf[..len]
    }

    constructor (format: Format<M>, maxFrameLen: nat)
      ensures Valid() && Contents() == [] && fresh(buf)
      ensures this.format == format && this.maxFrameLen == maxFrameLen
    {
      this.format := format;
      this.maxFrameLen := maxFrameLen;
      buf := new byte[maxFrameLen](_ => 0);
      len := 0;
    }

    method Reset()
      requires Valid()
      modifies this`len
      ensures Valid() && Contents() == []
    {
      len := 0;
    }

    method Push(bytes: seq<byte>) returns (r: Result<()>)
      requires Valid()
      modifies this`len, buf
      ensures Valid()
      ensures if |old(Contents())| + |bytes| > maxFrameLen then r == Err(BufferFull) && Contents() == []
              else r == Ok(()) && Contents() == old(Contents()) + bytes
    {
      if len + |bytes| > maxFrameLen {
        len := 0;
        return Err(BufferFull);
      }
      for i := 0 to |bytes|
        invariant len == old(len) && buf[..len + i] == old(Contents()) + bytes[..i]
      {
        buf[len + i] := bytes[i];
        assert buf[..len + i + 1] == buf[..len + i] + [bytes[i]];
      }
      assert bytes[..|bytes|] == bytes;
      len := len + |bytes|;
      r := Ok(());
    }

    /** `position(|&b| b == 0)` */
    method Position() returns (z: nat)
      requires Valid()
      ensures z == FindZero(Contents())
    {
      z := 0;
      while z < len && buf[z] != 0
        invariant z <= len && ZeroFree(Contents()[..z])
      {
        z := z + 1;
      }
      if z < len {
        FindZeroAt(Contents(), z);
      } else {
        assert Contents()[..z] == Contents();
        NoZero(Contents());
      }
    }

    /** `drain(..count)` */
    method Drain(count: nat)
      requires Valid() && count <= len
      modifies this`len, buf
      ensures Valid() && Contents() == old(Contents()[count..])
    {
      for i := 0 to len - count
        invariant len == old(len)
        invariant buf[..i] == old(buf[count..count + i]) && buf[i + count..] == old(buf[i + count..])
      {
        buf[i] := buf[i + count];
        assert buf[..i + 1] == buf[..i] + [buf[i]];
      }
      assert old(buf[..len][count..]) == old(buf[count..len]);
      len := len - count;
    }

    /** `decode_in_place` on the frame at the front of the buffer. */
    method DecodeFront(end: nat) returns (r: Result<M>)
      requires Valid() && end <= len
      modifies buf
      ensures r == DecodeFrame(format, old(buf[..end])) && buf[end..] == old(buf[end..])
    {
      hide Cobs.Decode, Crc.Accepts;
      var length := DecodeInPlace(buf, end);
      match length
      case None => r := Err(BadCobs);
      case Some(n) =>
        if n < 2 {
          r := Err(FrameTooShort);
        } else {
          assert buf[..n][..n - 1] == buf[..n - 1];
          AcceptsMeans(buf[..n]);
          var crc := Crc.ComputeCrc8(buf[..n - 1]);
          if crc != buf[n - 1] {
            r := Err(BadCrc);
          } else {
            var m := format.de(buf[..n - 1]);
            r := if m.None? then Err(Deserialize) else Ok(m.value);
          }
        }
    }

    lemma AcceptsMeans(d: seq<byte>)
      requires d != []
      ensures Crc.Accepts(d) <==> Crc.Crc8(d[..|d| - 1]) == d[|d| - 1]
    {
    }

    method Next() returns (r: Poll<M>)
      requires Valid()
      modifies this`len, buf
      ensures Valid() && (r, Contents()) == NextFrame(format, old(Contents()))
    {
      hide DecodeFrame, FindZero;
      var end := Position();
      if end == len {
        return Ok(None);
      }
      if end == 0 {
        Drain(1);
        return Ok(None);
      }
      ghost var was, tail := Contents(), buf[end..];
      assert was[..end] == buf[..end];
      assert forall k :: end <= k < len ==> was[k] == tail[k - end];
      var decoded := DecodeFront(end);
      assert forall k :: end <= k < len ==> buf[k] == tail[k - end];
      assert Contents()[end + 1..] == was[end + 1..];
      Drain(end + 1);
      r := Delivered(decoded);
    }
  }
}
