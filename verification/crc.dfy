/** CRC-8 with polynomial 0x07: the packet error code of section 5.4 of the SMBus 2.0 specification. */
module Crc {
  import opened Words

  /** One shift of the register. */
  function Shift(crc: byte): byte {
    if crc & 0x80 != 0 then (crc << 1) ^ 0x07 else crc << 1
  }

  function Shifts(crc: byte, n: nat): byte {
    if n == 0 then crc else Shift(Shifts(crc, n - 1))
  }

  /** Eight shifts: what one byte of data does to the register once it has been added. */
  function Step(crc: byte): byte {
    Shift(Shift(Shift(Shift(Shift(Shift(Shift(Shift(crc))))))))
  }

  /** The register after `data`, starting from `init`. */
  function Register(init: byte, data: seq<byte>): byte {
    if data == [] then init else Step(Add(Register(init, data[..|data| - 1]), data[|data| - 1]))
  }

  function Crc8(data: seq<byte>): byte {
    Register(0, data)
  }

  lemma ShiftsStep(crc: byte)
    ensures Shifts(crc, 8) == Step(crc)
  {
    hide Shift;
    assert Shifts(crc, 1) == Shift(Shifts(crc, 0));
    assert Shifts(crc, 3) == Shift(Shift(Shifts(crc, 1)));
    assert Shifts(crc, 5) == Shift(Shift(Shifts(crc, 3)));
    assert Shifts(crc, 7) == Shift(Shift(Shifts(crc, 5)));
  }

  lemma OneMore(s: seq<byte>, b: byte, before: byte, after: byte)
    requires Crc8(s) == before && Step(Add(before, b)) == after
    ensures Crc8(s + [b]) == after
  {
    hide Step, Add;
    assert (s + [b])[..|s|] == s;
  }

  /** The check value of this CRC, that of the digits 1 to 9 in ASCII. */
  lemma CheckValue()
    ensures Crc8([0x31, 0x32, 0x33, 0x34, 0x35, 0x36, 0x37, 0x38, 0x39]) == 0xF4
  {
    hide Crc8;
    FirstDigits();
    var s: seq<byte> := [0x31, 0x32, 0x33, 0x34, 0x35];
    OneMore(s, 0x36, 0xCB, 0xFD);
    OneMore(s + [0x36], 0x37, 0xFD, 0x78);
    OneMore(s + [0x36] + [0x37], 0x38, 0x78, 0xC7);
    OneMore(s + [0x36] + [0x37] + [0x38], 0x39, 0xC7, 0xF4);
    assert s + [0x36] + [0x37] + [0x38] + [0x39] == [0x31, 0x32, 0x33, 0x34, 0x35, 0x36, 0x37, 0x38, 0x39];
  }

  lemma FirstDigits()
    ensures Crc8([0x31, 0x32, 0x33, 0x34, 0x35]) == 0xCB
  {
    hide Crc8;
    NoDigits();
    var s: seq<byte> := [];
    OneMore(s, 0x31, 0x00, 0x97);
    OneMore(s + [0x31], 0x32, 0x97, 0x72);
    OneMore(s + [0x31] + [0x32], 0x33, 0x72, 0xC0);
    OneMore(s + [0x31] + [0x32] + [0x33], 0x34, 0xC0, 0xC2);
    OneMore(s + [0x31] + [0x32] + [0x33] + [0x34], 0x35, 0xC2, 0xCB);
    assert s + [0x31] + [0x32] + [0x33] + [0x34] + [0x35] == [0x31, 0x32, 0x33, 0x34, 0x35];
  }

  lemma NoDigits()
    ensures Crc8([]) == 0
  {
  }

  method ComputeCrc8(data: seq<byte>) returns (crc: byte)
    ensures crc == Crc8(data)
  {
    crc := 0;
    assert data[..0] == [];
    for i := 0 to |data|
      invariant crc == Crc8(data[..i])
    {
      assert data[..i + 1][..i] == data[..i];
      ghost var added := crc ^ data[i];
      crc := crc ^ data[i];
      for k := 0 to 8
        invariant crc == Shifts(added, k)
      {
        if crc & 0x80 != 0 {
          crc := (crc << 1) ^ 0x07;
        } else {
          crc := crc << 1;
        }
      }
      ShiftsStep(added);
    }
    assert data[..|data|] == data;
  }

  lemma TopBit(a: byte, b: byte)
    ensures (a ^ b) & 0x80 == (a & 0x80) ^ (b & 0x80)
    ensures a & 0x80 == 0 || a & 0x80 == 0x80
    ensures b & 0x80 == 0 || b & 0x80 == 0x80
  {
  }

  lemma ShiftedXor(a: byte, b: byte)
    ensures (a ^ b) << 1 == (a << 1) ^ (b << 1)
  {
  }

  lemma Cancel(x: byte, y: byte)
    ensures (x ^ 0x07) ^ (y ^ 0x07) == x ^ y
    ensures (x ^ 0x07) ^ y == (x ^ y) ^ 0x07
    ensures x ^ (y ^ 0x07) == (x ^ y) ^ 0x07
  {
  }

  lemma ShiftLinear(a: byte, b: byte)
    ensures Shift(Add(a, b)) == Add(Shift(a), Shift(b))
  {
    TopBit(a, b);
    ShiftedXor(a, b);
    Cancel(a << 1, b << 1);
  }

  lemma StepLinear(a: byte, b: byte)
    ensures Step(Add(a, b)) == Add(Step(a), Step(b))
  {
    hide Shift, Add;
    ShiftLinear(a, b);
    var a1, b1 := Shift(a), Shift(b);
    ShiftLinear(a1, b1);
    var a2, b2 := Shift(a1), Shift(b1);
    ShiftLinear(a2, b2);
    var a3, b3 := Shift(a2), Shift(b2);
    ShiftLinear(a3, b3);
    var a4, b4 := Shift(a3), Shift(b3);
    ShiftLinear(a4, b4);
    var a5, b5 := Shift(a4), Shift(b4);
    ShiftLinear(a5, b5);
    var a6, b6 := Shift(a5), Shift(b5);
    ShiftLinear(a6, b6);
    ShiftLinear(Shift(a6), Shift(b6));
  }

  /** The laws of `Add`. */
  lemma AddLaws(a: byte, b: byte)
    ensures Add(a, b) == 0 <==> a == b
    ensures Add(a, 0) == a && Add(0, a) == a && Add(a, Add(a, b)) == b
  {
  }

  /** A shift loses nothing: only the zero register shifts to zero. */
  lemma ShiftZero(a: byte)
    ensures Shift(a) == 0 <==> a == 0
  {
  }

  lemma StepZero(a: byte)
    ensures Step(a) == 0 <==> a == 0
  {
    hide Shift;
    var a1 := Shift(a);
    var a2 := Shift(a1);
    var a3 := Shift(a2);
    var a4 := Shift(a3);
    var a5 := Shift(a4);
    var a6 := Shift(a5);
    var a7 := Shift(a6);
    ShiftZero(a); ShiftZero(a1); ShiftZero(a2); ShiftZero(a3);
    ShiftZero(a4); ShiftZero(a5); ShiftZero(a6); ShiftZero(a7);
  }

  /** The eight-shift step is a bijection on register states. */
  lemma StepInjective(a: byte, b: byte)
    ensures Step(a) == Step(b) <==> a == b
  {
    hide Step, Add;
    StepLinear(a, b);
    StepZero(Add(a, b));
    AddLaws(a, b);
    AddLaws(Step(a), Step(b));
  }

  /** The one trailer that brings the register to zero is the CRC itself. */
  lemma CrcClosesToZero(p: seq<byte>, c: byte)
    ensures Crc8(p + [c]) == 0 <==> c == Crc8(p)
  {
    hide Step, Add;
    assert (p + [c])[..|p|] == p;
    StepZero(Add(Crc8(p), c));
    AddLaws(Crc8(p), c);
  }

  /** Bytewise exclusive or of two strings of one length. */
  function Xor(a: seq<byte>, b: seq<byte>): (s: seq<byte>)
    requires |a| == |b|
    ensures |s| == |a|
  {
    seq(|a|, i requires 0 <= i < |a| => Add(a[i], b[i]))
  }

  lemma AddAssociative(a: byte, b: byte, c: byte)
    ensures Add(Add(a, b), c) == Add(a, Add(b, c))
  {
  }

  lemma AddCommutative(a: byte, b: byte)
    ensures Add(a, b) == Add(b, a)
  {
  }

  lemma Exchange(a: byte, b: byte, c: byte, d: byte)
    ensures Add(Add(a, b), Add(c, d)) == Add(Add(a, c), Add(b, d))
  {
    hide Add;
    AddAssociative(a, b, Add(c, d));
    AddAssociative(b, c, d);
    AddCommutative(b, c);
    AddAssociative(c, b, d);
    AddAssociative(a, c, Add(b, d));
  }

  /** The CRC is linear: an error pattern changes it by its own register value. */
  lemma {:induction false} CrcLinear(a: seq<byte>, b: seq<byte>)
    requires |a| == |b|
    ensures Crc8(Xor(a, b)) == Add(Crc8(a), Crc8(b))
  {
    hide Step, Add;
    if a != [] {
      var n := |a| - 1;
      CrcLinear(a[..n], b[..n]);
      assert Xor(a, b)[..n] == Xor(a[..n], b[..n]);
      var ra, rb := Crc8(a[..n]), Crc8(b[..n]);
      Exchange(ra, rb, a[n], b[n]);
      StepLinear(Add(ra, a[n]), Add(rb, b[n]));
    } else {
      AddLaws(0, 0);
    }
  }

  /** Zero bytes move the register but never clear or set it. */
  lemma {:induction false} ZeroTail(r: byte, n: nat)
    ensures Register(r, Zeros(n)) == 0 <==> r == 0
  {
    hide Step, Add;
    if n > 0 {
      assert Zeros(n)[..n - 1] == Zeros(n - 1);
      ZeroTail(r, n - 1);
      var q := Register(r, Zeros(n - 1));
      AddLaws(q, 0);
      StepZero(q);
    }
  }

  lemma {:induction false} RegisterAppend(r: byte, a: seq<byte>, b: seq<byte>)
    ensures Register(r, a + b) == Register(Register(r, a), b)
  {
    hide Step;
    if b == [] {
      assert a + b == a;
    } else {
      var n := |b| - 1;
      assert (a + b)[..|a| + n] == a + b[..n];
      RegisterAppend(r, a, b[..n]);
    }
  }

  /** The first and second byte of an error pattern `w` that starts `s` bits into a pair of bytes. */
  function Hi(w: byte, s: bv4): byte
    requires s <= 8
  {
    w >> s
  }

  function Lo(w: byte, s: bv4): byte
    requires s <= 8
  {
    w << (8 - s)
  }

  /** In no error of at most eight consecutive bits does the second byte cancel what the first leaves. */
  lemma WindowDiffers(w: byte, s: bv4)
    requires w != 0 && s <= 8
    ensures Step(Hi(w, s)) != Lo(w, s)
  {
  }

  /** An error confined to eight consecutive bits: `w`, `s` bits into the pair of bytes at `i`. */
  function Burst(n: nat, i: nat, w: byte, s: bv4): (e: seq<byte>)
    requires i + 2 <= n && s <= 8
    ensures |e| == n
  {
    Zeros(i) + [Hi(w, s), Lo(w, s)] + Zeros(n - i - 2)
  }

  lemma PairRegister(x: byte, y: byte)
    ensures Register(0, [x, y]) == Step(Add(Step(x), y))
  {
    hide Step, Add;
    assert [x, y][..1] == [x] && [x][..0] == [];
    AddLaws(x, 0);
    assert Register(0, [x]) == Step(x);
  }

  /** A received payload and trailer pass the check. */
  predicate Accepts(frame: seq<byte>)
    requires frame != []
  {
    Crc8(frame[..|frame| - 1]) == frame[|frame| - 1]
  }

  lemma AcceptsIffZero(frame: seq<byte>)
    requires frame != []
    ensures Accepts(frame) <==> Crc8(frame) == 0
  {
    var p := frame[..|frame| - 1];
    assert frame == p + [frame[|frame| - 1]];
    CrcClosesToZero(p, frame[|frame| - 1]);
  }

  /** An error in payload and CRC goes unseen exactly if its own register value is zero. */
  lemma UnseenIffZero(payload: seq<byte>, error: seq<byte>)
    requires |error| == |payload| + 1
    ensures Accepts(Xor(payload + [Crc8(payload)], error)) <==> Crc8(error) == 0
  {
    hide Step, Add;
    var sent := payload + [Crc8(payload)];
    CrcClosesToZero(payload, Crc8(payload));
    CrcLinear(sent, error);
    AddLaws(0, Crc8(error));
    AcceptsIffZero(Xor(sent, error));
  }

  /** A pair of bytes among zeros goes unseen exactly if the second byte cancels what the first leaves. */
  lemma PairAmongZeros(i: nat, x: byte, y: byte, n: nat)
    ensures Crc8(Zeros(i) + [x, y] + Zeros(n)) == 0 <==> Step(x) == y
  {
    hide Step, Add;
    RegisterAppend(0, Zeros(i) + [x, y], Zeros(n));
    RegisterAppend(0, Zeros(i), [x, y]);
    ZeroTail(0, i);
    PairRegister(x, y);
    StepZero(Add(Step(x), y));
    AddLaws(Step(x), y);
    ZeroTail(Register(0, [x, y]), n);
  }

  /** Every burst of at most eight bits, anywhere in payload and CRC, at every length, is rejected. */
  lemma BurstRejected(payload: seq<byte>, i: nat, w: byte, s: bv4)
    requires i + 1 <= |payload| && s <= 8 && w != 0
    ensures !Accepts(Xor(payload + [Crc8(payload)], Burst(|payload| + 1, i, w, s)))
  {
    hide Step, Hi, Lo;
    UnseenIffZero(payload, Burst(|payload| + 1, i, w, s));
    PairAmongZeros(i, Hi(w, s), Lo(w, s), |payload| - 1 - i);
    WindowDiffers(w, s);
  }

  /** A one bit and the eight bits of `b` after it, moved `k` bits up in a pair of bytes. */
  function NineHi(b: byte, k: bv4): byte
    requires k < 8
  {
    (0x01 << k) | (b >> (8 - k))
  }

  function NineLo(b: byte, k: bv4): byte
    requires k < 8
  {
    b << k
  }

  /** That error in the pair at `i` of `n` bytes. */
  function NineBits(n: nat, i: nat, b: byte, k: bv4): (e: seq<byte>)
    requires i + 2 <= n && k < 8
    ensures |e| == n
  {
    Zeros(i) + [NineHi(b, k), NineLo(b, k)] + Zeros(n - i - 2)
  }

  lemma OnlyGenerator(b: byte, k: bv4)
    requires k < 8
    ensures Step(NineHi(b, k)) == NineLo(b, k) <==> b == 0x07
  {
  }

  /** Of the changes nine bits long one is accepted, and that everywhere: the generator polynomial itself. */
  lemma NineBitsPass(payload: seq<byte>, i: nat, b: byte, k: bv4)
    requires i + 1 <= |payload| && k < 8
    ensures Accepts(Xor(payload + [Crc8(payload)], NineBits(|payload| + 1, i, b, k))) <==> b == 0x07
  {
    hide Step, NineHi, NineLo;
    UnseenIffZero(payload, NineBits(|payload| + 1, i, b, k));
    PairAmongZeros(i, NineHi(b, k), NineLo(b, k), |payload| - 1 - i);
    OnlyGenerator(b, k);
  }

  function High4(b: byte): byte {
    b >> 4
  }

  function High2(b: byte): byte {
    b >> 2
  }

  function High1(b: byte): byte {
    b >> 1
  }

  function Folded4(b: byte): byte {
    Add(b, High4(b))
  }

  function Folded2(b: byte): byte {
    Add(b, High2(b))
  }

  function Folded1(b: byte): byte {
    Add(b, High1(b))
  }

  predicate LowBit(b: byte) {
    b & 1 == 1
  }

  /** Whether a byte has an odd number of one bits. */
  predicate Odd(b: byte) {
    LowBit(Folded1(Folded2(Folded4(b))))
  }

  function Bit(b: byte, k: bv4): (n: nat)
    requires k < 8
  {
    if (b >> k) & 1 == 1 then 1 else 0
  }

  function Ones(b: byte): (n: nat) {
    Bit(b, 0) + Bit(b, 1) + Bit(b, 2) + Bit(b, 3) + Bit(b, 4) + Bit(b, 5) + Bit(b, 6) + Bit(b, 7)
  }

  /** How many bits an error changes. */
  function Weight(e: seq<byte>): (n: nat) {
    if e == [] then 0 else Weight(e[..|e| - 1]) + Ones(e[|e| - 1])
  }

  lemma OddOnes(b: byte)
    ensures Odd(b) <==> Ones(b) % 2 == 1
  {
  }

  lemma HighAdds(a: byte, b: byte)
    ensures High4(Add(a, b)) == Add(High4(a), High4(b))
    ensures High2(Add(a, b)) == Add(High2(a), High2(b))
    ensures High1(Add(a, b)) == Add(High1(a), High1(b))
  {
  }

  lemma FoldedAdds(a: byte, b: byte)
    ensures Folded4(Add(a, b)) == Add(Folded4(a), Folded4(b))
    ensures Folded2(Add(a, b)) == Add(Folded2(a), Folded2(b))
    ensures Folded1(Add(a, b)) == Add(Folded1(a), Folded1(b))
  {
    hide High4, High2, High1, Add;
    HighAdds(a, b);
    Exchange(a, b, High4(a), High4(b));
    Exchange(a, b, High2(a), High2(b));
    Exchange(a, b, High1(a), High1(b));
  }

  lemma LowAdds(a: byte, b: byte)
    ensures LowBit(Add(a, b)) <==> LowBit(a) != LowBit(b)
  {
  }

  lemma OddAdds(a: byte, b: byte)
    ensures Odd(Add(a, b)) <==> Odd(a) != Odd(b)
  {
    hide Folded4, Folded2, Folded1, LowBit, Add;
    FoldedAdds(a, b);
    var a4, b4 := Folded4(a), Folded4(b);
    FoldedAdds(a4, b4);
    var a2, b2 := Folded2(a4), Folded2(b4);
    FoldedAdds(a2, b2);
    LowAdds(Folded1(a2), Folded1(b2));
  }

  lemma ZeroEven()
    ensures !Odd(0)
  {
  }

  /** The generator has an even number of terms, so a shift keeps the parity of the register. */
  lemma ShiftKeepsParity(a: byte)
    ensures Odd(Shift(a)) == Odd(a)
  {
  }

  lemma StepKeepsParity(a: byte)
    ensures Odd(Step(a)) == Odd(a)
  {
    hide Shift, Odd;
    var a1 := Shift(a);
    var a2 := Shift(a1);
    var a3 := Shift(a2);
    var a4 := Shift(a3);
    var a5 := Shift(a4);
    var a6 := Shift(a5);
    var a7 := Shift(a6);
    ShiftKeepsParity(a); ShiftKeepsParity(a1); ShiftKeepsParity(a2); ShiftKeepsParity(a3);
    ShiftKeepsParity(a4); ShiftKeepsParity(a5); ShiftKeepsParity(a6); ShiftKeepsParity(a7);
  }

  lemma {:induction false} ParityCounts(e: seq<byte>)
    ensures Odd(Crc8(e)) <==> Weight(e) % 2 == 1
  {
    hide Step, Odd, Add, Ones;
    ZeroEven();
    if e != [] {
      var n := |e| - 1;
      ParityCounts(e[..n]);
      OddAdds(Crc8(e[..n]), e[n]);
      StepKeepsParity(Add(Crc8(e[..n]), e[n]));
      OddOnes(e[n]);
    }
  }

  /** Every change of an odd number of bits, wherever they are, is rejected at every length. */
  lemma OddRejected(payload: seq<byte>, error: seq<byte>)
    requires |error| == |payload| + 1 && Weight(error) % 2 == 1
    ensures !Accepts(Xor(payload + [Crc8(payload)], error))
  {
    hide Odd;
    UnseenIffZero(payload, error);
    ParityCounts(error);
    ZeroEven();
  }

  /** Hence every change of one byte is rejected. */
  lemma ByteChangeRejected(payload: seq<byte>, i: nat, b: byte)
    requires payload != [] && i <= |payload|
    requires b != (payload + [Crc8(payload)])[i]
    ensures !Accepts((payload + [Crc8(payload)])[i := b])
  {
    hide Step, Hi, Lo, Add;
    var sent := payload + [Crc8(payload)];
    var w := Add(sent[i], b);
    AddLaws(sent[i], b);
    var at := if i < |payload| then i else i - 1;
    var s: bv4 := if i < |payload| then 0 else 8;
    OneByteBurst(w);
    BurstRejected(payload, at, w, s);
    var error := Burst(|sent|, at, w, s);
    forall k | 0 <= k < |sent|
      ensures Xor(sent, error)[k] == sent[i := b][k]
    {
      assert error[k] == if k == i then w else 0;
      AddLaws(sent[k], b);
    }
    assert Xor(sent, error) == sent[i := b];
  }

  lemma OneByteBurst(w: byte)
    ensures Hi(w, 0) == w && Lo(w, 0) == 0 && Hi(w, 8) == 0 && Lo(w, 8) == w
  {
  }
}
