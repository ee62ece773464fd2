/** The HMAC driver as a second user of the word-packing helper: the blocks it hands to the peripheral. */
module Hmac {
  import opened Words
  import opened RegAccess
  import opened Fips180
  import opened Padding

  /** Position within a 64-byte block. */
  function Offset(n: nat): (r: nat)
    ensures r < 64
  {
    n % 64
  }

  /** The peripheral's view: blocks taken so far (the key block first), message memory, carry. */
  datatype Feed = Feed(log: seq<seq<byte>>, mem: seq<word>, carry: seq<byte>) {
    function Block(): (b: seq<byte>)
      requires |mem| == 16
      ensures |b| == 64
    {
      Flatten(mem)
    }

    function Latched(): (f: Feed)
      requires |mem| == 16
    {
      this.(log := log + [Block()])
    }

    ghost predicate Sent(sent: seq<byte>) {
      |mem| == 16 && Bits512.Rem(|sent|) == 0 && log == Blocks(sent, 64)
    }

    /** Every byte of `sent + tail` is in a block already taken, in memory, or in the carry. */
    ghost predicate Intact(sent: seq<byte>, tail: seq<byte>) {
      Sent(sent) && |tail| < 64 && Stored(mem, carry, tail)
    }

    /** What a write up to the block end, and taking the block if it is complete, comes to. */
    lemma WriteKeeps(sent: seq<byte>, tail: seq<byte>, after: Feed, t: seq<byte>)
      requires Sent(sent) && after.log == log && |after.mem| == 16
      requires |t| < 68 && Copied(after.mem, after.carry, t, 64)
      ensures after.Sent(sent) && |after.Block()| == 64
      ensures |t| < 64 ==> after.Intact(sent, t)
      ensures |t| >= 64 ==> after.Latched().Intact(sent + t[..64], t[64..]) && sent + t[..64] + t[64..] == sent + t
    {
      hide Holds, Flatten, Blocks, BlockSize.Rem, Feed.Block;
      if |t| >= 64 {
        FullBlock(after, t);
        BlocksAppend(sent, t[..64], 64);
        Bits512.RemAdd(|sent|, 64);
        Bits512.RemSmall(64);
        Rejoin(sent, t, 64);
      }
    }

    /** A copy that reached the end of the block left the block in memory and at most three bytes in the carry. */
    lemma FullBlock(f: Feed, t: seq<byte>)
      requires |f.mem| == 16 && 64 <= |t| < 68 && Copied(f.mem, f.carry, t, 64)
      ensures f.Block() == t[..64] && Stored(f.mem, f.carry, t[64..])
    {
      hide Holds, Flatten;
      HoldsBlock(f.mem, t, Bits512);
      assert f.mem[..16] == f.mem;
      HoldsNothing(f.mem, t[64..]);
    }

    lemma CursorInBlock(sent: seq<byte>, tail: seq<byte>)
      requires Intact(sent, tail)
      ensures Offset(|sent + tail|) == |tail|
    {
      Bits512.RemAdd(|sent|, |tail|);
      Bits512.RemSmall(|tail|);
    }
  }

  class HmacDriver {
    const mem: array<word>
    const helper: AlignmentHelper
    const latency: nat -> nat
    var byteWritten: nat
    var commands: nat
    var pending: nat

    ghost var log: seq<seq<byte>>
    ghost var sent: seq<byte>
    ghost var tail: seq<byte>

    ghost predicate Wired()
      reads helper
    {
      helper.Valid() && helper.Apart(mem) && mem.Length == 16
    }

    ghost function State(): (f: Feed)
      reads this`log, mem, helper, helper.buf
    {
      Feed(log, mem[..], helper.Carry())
    }

    ghost function Accepted(): (s: seq<byte>)
      reads this`sent, this`tail
    {
      sent + tail
    }

    ghost predicate OnCourse()
      reads this, mem, helper, helper.buf
    {
      Wired() && State().Intact(sent, tail) && byteWritten == |Accepted()|
    }

    /** `init`: the peripheral itself feeds the padded key as the first block. */
    constructor (mem: array<word>, latency: nat -> nat, ghost key: seq<byte>)
      requires mem.Length == 16 && |key| == 64
      ensures this.mem == mem && fresh(helper) && fresh(helper.buf)
      ensures OnCourse() && Accepted() == key && tail == []
    {
      this.mem := mem;
      this.latency := latency;
      helper := new AlignmentHelper();
      byteWritten := 64;
      commands, pending := 0, 0;
      log, sent, tail := [key], key, [];
      new;
      KeyBlock(State(), key);
      assert helper.Apart(mem);
    }

    lemma KeyBlock(f: Feed, key: seq<byte>)
      requires |key| == 64 && |f.mem| == 16 && f.log == [key] && f.carry == []
      ensures f.Intact(key, []) && key + [] == key
    {
      hide Flatten, Holds, Stored;
      assert key == [] + key && key + [] == key;
      assert Blocks([], 64) == [];
      BlocksAppend([], key, 64);
      Bits512.RemAdd(0, 64);
      HoldsNothing(f.mem, []);
    }

    method IsBusy() returns (busy: bool)
      modifies this`pending
      ensures busy == (old(pending) > 0)
      ensures pending == if busy then old(pending) - 1 else 0
    {
      busy := pending > 0;
      if busy {
        pending := pending - 1;
      }
    }

    /** `while self.is_busy() {}` */
    method WaitIdle()
      modifies this`pending
      ensures pending == 0
    {
      var busy := IsBusy();
      while busy
        invariant !busy ==> pending == 0
        decreases pending, busy
      {
        busy := IsBusy();
      }
    }

    /** `set_message_one`: the peripheral takes the block in message memory. */
    method SetMessageOne()
      requires mem.Length == 16
      modifies this`log, this`commands, this`pending
      ensures State() == old(State()).Latched()
    {
      log := log + [Flatten(mem[..])];
      pending := latency(commands);
      commands := commands + 1;
    }

    lemma Separate()
      ensures this as object != helper && mem as object != helper && mem as object != this
      ensures helper.buf as object != helper && helper.buf as object != this
    {
    }

    /** Bookkeeping for a write that left `t` behind `sent`. */
    ghost method Settle(before: Feed, t: seq<byte>)
      requires Wired() && before.Sent(sent) && |t| < 68
      requires |t| < 64 ==> State().log == before.log && Stored(State().mem, State().carry, t)
      requires |t| >= 64 ==>
                 var copied := State().(log := before.log);
                 Copied(copied.mem, copied.carry, t, 64) && State() == copied.Latched()
      modifies this`sent, this`tail
      ensures State().Intact(sent, tail) && Accepted() == old(sent) + t
      ensures |t| < 64 ==> tail == t
      ensures |t| == 64 ==> tail == []
    {
      hide Offset, Blocks, Stored, Flatten, Holds, BlockSize.Rem, Feed.Block;
      before.WriteKeeps(sent, tail, State().(log := before.log), t);
      if |t| < 64 {
        tail := t;
      } else {
        sent, tail := sent + t[..64], t[64..];
      }
    }

    method WriteData(incoming: seq<byte>) returns (remaining: seq<byte>, ghost n: nat)
      requires OnCourse()
      modifies this`byteWritten, this`log, this`commands, this`pending, this`sent, this`tail
      modifies mem, helper`fill, helper.buf
      ensures OnCourse() && n == Consumed(|old(tail)| % 4, |incoming|, 64 - |old(tail)|)
      ensures n <= |incoming| && (incoming != [] ==> n > 0)
      ensures remaining == incoming[n..] && Accepted() == old(Accepted()) + incoming[..n]
      ensures |old(tail)| + n < 64 ==> tail == old(tail) + incoming[..n]
      ensures |old(tail)| + n == 64 ==> tail == []
    {
      hide Offset, Blocks, Stored, Flatten, Holds, BlockSize.Rem, Feed.Block, Copied, Feed.Latched;
      Separate();
      ghost var before := State();
      before.CursorInBlock(sent, tail);
      IntactParts(before, sent, tail);
      var bounded;
      remaining, bounded, n := helper.AlignedVolatileCopy(mem, incoming, 64, Offset(byteWritten), tail);
      byteWritten := byteWritten + (|incoming| - |remaining|);
      ghost var t := tail + incoming[..n];
      assert sent + t == sent + tail + incoming[..n];
      CopiedMeans(State().mem, State().carry, t);
      if bounded {
        SetMessageOne();
      }
      Settle(before, t);
    }

    lemma IntactParts(f: Feed, sent: seq<byte>, tail: seq<byte>)
      requires f.Intact(sent, tail)
      ensures f.Sent(sent) && |f.mem| == 16 && |tail| < 64 && Stored(f.mem, f.carry, tail)
    {
    }

    lemma CopiedMeans(mem: seq<word>, carry: seq<byte>, t: seq<byte>)
      requires Copied(mem, carry, t, 64)
      ensures |t| < 64 ==> Stored(mem, carry, t)
    {
    }

    /** `update`: blocked while the peripheral is busy; what is not consumed must be fed again. */
    method Update(incoming: seq<byte>) returns (remaining: seq<byte>, blocked: bool, ghost n: nat)
      requires OnCourse()
      modifies this`byteWritten, this`log, this`commands, this`pending, this`sent, this`tail
      modifies mem, helper`fill, helper.buf
      ensures OnCourse() && n <= |incoming| && remaining == incoming[n..]
      ensures Accepted() == old(Accepted()) + incoming[..n]
      ensures blocked ==> n == 0 && pending < old(pending)
      ensures !blocked && incoming != [] ==> n > 0
    {
      hide Offset, Blocks, Stored, Flatten, Holds, BlockSize.Rem, Feed.Intact, Feed.Sent;
      Separate();
      blocked := IsBusy();
      if blocked {
        remaining, n := incoming, 0;
        assert Accepted() + incoming[..0] == Accepted();
      } else {
        remaining, n := WriteData(incoming);
      }
    }

    /** Takes the block if the zeros just written completed it. */
    method TakeIfComplete(written: nat, ghost before: Feed, ghost t: seq<byte>)
      requires if written == 0 then |t| < 64 else t != []
      requires Wired() && before.Sent(sent) && |t| <= 64 && byteWritten == |sent + t|
      requires State().log == before.log && Stored(State().mem, State().carry, t)
      modifies this`log, this`commands, this`pending, this`sent, this`tail
      ensures OnCourse() && Accepted() == old(sent) + t && tail == if |t| < 64 then t else []
      ensures State().carry == old(State().carry)
    {
      hide Offset, Blocks, Flatten, Holds, BlockSize.Rem, Feed.Block, Stored, Copied, Feed.Sent;
      Separate();
      BlockEnds(before, sent, t, State());
      if written > 0 && Offset(byteWritten) == 0 {
        SetMessageOne();
        Settle(before, t);
        WaitIdle();
      } else {
        Settle(before, t);
      }
    }

    lemma BlockEnds(before: Feed, sent: seq<byte>, t: seq<byte>, f: Feed)
      requires before.Sent(sent) && |t| <= 64 && Stored(f.mem, f.carry, t) && |f.mem| == 16
      ensures |t| == 64 ==> Copied(f.mem, f.carry, t, 64) && f.carry == []
      ensures t != [] ==> (Offset(|sent + t|) == 0) == (|t| == 64)
    {
      Bits512.RemAdd(|sent|, |t|);
      Bits512.RemSmall(|t|);
      assert |t| == 64 ==> t[..64] == t;
    }

    /** `flush_data`, once the peripheral is idle. */
    method FlushData() returns (ghost flushed: nat)
      requires OnCourse()
      modifies this`byteWritten, this`log, this`commands, this`pending, this`sent, this`tail
      modifies mem, helper`fill, helper.buf
      ensures OnCourse() && State().carry == [] && flushed < 4
      ensures Accepted() == old(Accepted()) + Zeros(flushed)
    {
      hide Missing, Offset, Blocks, Flatten, Holds, BlockSize.Rem, Feed.Block, Stored, Copied, Feed.Sent,
          Feed.Intact, Zeros;
      Separate();
      ghost var before := State();
      before.CursorInBlock(sent, tail);
      IntactParts(before, sent, tail);
      MissingFits(|tail|, 64);
      var count := helper.FlushTo(mem, Offset(byteWritten), tail);
      byteWritten := byteWritten + count;
      flushed := count;
      ghost var t := tail + Zeros(count);
      assert sent + t == sent + tail + Zeros(count);
      TakeIfComplete(count, before, t);
    }

    /** Zeroes the rest of a block that has no room for the length. */
    method ZeroRest()
      requires OnCourse() && State().carry == [] && 56 < |tail|
      modifies this`byteWritten, this`log, this`commands, this`pending, this`sent, this`tail
      modifies mem, helper`fill, helper.buf
      ensures OnCourse() && State().carry == [] && tail == []
      ensures Accepted() == old(Accepted()) + Zeros(64 - |old(tail)|)
    {
      hide Offset, Blocks, Flatten, Holds, BlockSize.Rem, Feed.Block, Stored, Copied, Feed.Sent, Feed.Intact, Zeros;
      Separate();
      ghost var before := State();
      before.CursorInBlock(sent, tail);
      IntactParts(before, sent, tail);
      NothingCarried(mem[..], tail);
      var padLen := 64 - Offset(byteWritten);
      helper.VolatileWrite(mem, 0, padLen, Offset(byteWritten), tail);
      PaddedIsZeros(tail, padLen);
      byteWritten := byteWritten + padLen;
      ghost var t := tail + Zeros(padLen);
      assert sent + t == sent + tail + Zeros(padLen);
      TakeIfComplete(padLen, before, t);
    }

    /** Zeros and the length up to the end of the last block, which is then taken. */
    method LastBlockOut(msgLen: nat)
      requires OnCourse() && State().carry == [] && |tail| <= 56
      modifies this`byteWritten, this`log, this`commands, this`pending, this`sent, this`tail
      modifies mem, helper`fill, helper.buf
      ensures Wired() && State().Sent(sent) && tail == []
      ensures sent == old(sent) + LastBlock(old(tail), msgLen, Bits512)
    {
      hide Offset, Blocks, Flatten, Holds, BlockSize.Rem, Feed.Block, Stored, Copied, Feed.Sent, Feed.Intact, Zeros,
          BigEndian,
           Feed.Latched;
      Separate();
      ghost var before := State();
      before.CursorInBlock(sent, tail);
      IntactParts(before, sent, tail);
      NothingCarried(mem[..], tail);
      ghost var s := tail;
      var padLen := 64 - Offset(byteWritten) - 8;
      helper.VolatileWrite(mem, 0, padLen, Offset(byteWritten), s);
      PaddedIsZeros(s, padLen);
      byteWritten := byteWritten + padLen;
      var length := BigEndian(8 * msgLen, 8);
      var remaining, bounded;
      ghost var n;
      remaining, bounded, n := helper.AlignedVolatileCopy(mem, length, 64, 56, s + Zeros(padLen));
      EightBytes(s + Zeros(padLen), length, n);
      SetMessageOne();
      Settle(before, s + Zeros(padLen) + length);
      IntactParts(State(), sent, tail);
      WaitIdle();
    }

    lemma EightBytes(s: seq<byte>, length: seq<byte>, n: nat)
      requires |s| == 56 && |length| == 8 && n == Consumed(|s| % 4, 8, 8)
      ensures n == 8 && length[..n] == length && |s + length| == 64
    {
    }

    /** `padding`: zeros and the length of the message `m`, over one block or two. */
    method PadMessage(msgLen: nat, ghost m: seq<byte>, ghost zeros: nat)
      requires OnCourse() && State().carry == []
      requires Accepted() == Marked(m, zeros) && zeros < 4 && msgLen == |m| <= MESSAGE_LIMIT
      modifies this`byteWritten, this`log, this`commands, this`pending, this`sent, this`tail
      modifies mem, helper`fill, helper.buf
      ensures Wired() && log == Blocks(Pad(m, Bits512), 64)
    {
      hide Offset, Blocks, Flatten, Holds, BlockSize.Rem, Feed.Block, Stored, Copied, Feed.Sent, Feed.Intact, Zeros,
          BigEndian,
           Feed.Latched, Marked, LastBlock, Pad;
      Separate();
      ghost var z := zeros;
      State().CursorInBlock(sent, tail);
      IntactParts(State(), sent, tail);
      NothingCarried(State().mem, tail);
      var modCursor := Offset(byteWritten);
      assert modCursor == |tail|;
      if modCursor > 56 {
        z := zeros + (64 - |tail|);
        MarkedGrows(m, zeros, 64 - |tail|);
        ZeroRest();
        IntactParts(State(), sent, tail);
        assert z < 8;
      }
      assert sent + tail == Accepted() == Marked(m, z);
      LimitFitsLength(|m|);
      PadEnds(State(), m, z, sent, tail);
      LastBlockOut(msgLen);
      SentMeans(State(), sent);
    }

    lemma PadEnds(f: Feed, m: seq<byte>, z: nat, sent: seq<byte>, tail: seq<byte>)
      requires f.Sent(sent) && sent + tail == Marked(m, z) && |tail| <= 56 && z < 8 && 8 * |m| < Pow256(8)
      ensures sent + LastBlock(tail, |m|, Bits512) == Pad(m, Bits512)
    {
      LastBlockPads(m, z, sent, tail, Bits512);
    }

    lemma SentMeans(f: Feed, sent: seq<byte>)
      requires f.Sent(sent)
      ensures f.log == Blocks(sent, 64)
    {
    }

    /**
     * `finalize`: blocked while the peripheral is busy. Otherwise the blocks taken since `init`, the key
     * block first, are those of the padded string of key block and message.
     */
    method Finalize() returns (blocked: bool)
      requires OnCourse() && |Accepted()| <= MESSAGE_LIMIT
      modifies this`byteWritten, this`log, this`commands, this`pending, this`sent, this`tail
      modifies mem, helper`fill, helper.buf
      ensures blocked == (old(pending) > 0)
      ensures blocked ==> OnCourse() && Accepted() == old(Accepted()) && pending < old(pending)
      ensures !blocked ==> log == Blocks(Pad(old(Accepted()), Bits512), 64) && byteWritten == 64
    {
      hide Offset, Blocks, Flatten, Holds, BlockSize.Rem, Feed.Block, Stored, Copied, Feed.Sent, Feed.Intact, Zeros,
          BigEndian,
           Feed.Latched, Marked, LastBlock, Pad;
      Separate();
      blocked := IsBusy();
      if !blocked {
        var msgLen := byteWritten;
        ghost var m := Accepted();
        var remaining;
        ghost var n;
        remaining, n := WriteData([0x80]);
        assert [0x80 as byte][..n] == [0x80];
        WaitIdle();
        ghost var zeros := FlushData();
        MarkedStart(m, zeros);
        PadMessage(msgLen, m, zeros);
        byteWritten := 64;
      }
    }

    lemma MarkedStart(m: seq<byte>, z: nat)
      ensures m + [0x80] + Zeros(z) == Marked(m, z)
    {
    }
  }

  /** A whole HMAC message: every piece fed, what `update` leaves fed back, waiting whenever it blocks. */
  method Authenticate(driver: HmacDriver, ghost key: seq<byte>, pieces: seq<seq<byte>>)
    requires driver.OnCourse() && driver.Accepted() == key && 64 + |Concat(pieces)| <= MESSAGE_LIMIT && |key| == 64
    modifies driver, driver.mem, driver.helper`fill, driver.helper.buf
    ensures driver.log == Blocks(Pad(key + Concat(pieces), Bits512), 64)
  {
    hide *;
    ConcatStart(pieces);
    assert key + [] == key;
    for i := 0 to |pieces|
      invariant driver.OnCourse() && driver.Accepted() == key + Concat(pieces[..i])
    {
      ConcatStep(pieces, i);
      var remaining := pieces[i];
      ghost var fed := 0;
      ghost var start := driver.Accepted();
      assert pieces[i][..0] == [] && pieces[i][0..] == pieces[i] && start + [] == start;
      while remaining != []
        invariant driver.OnCourse() && fed <= |pieces[i]| && remaining == pieces[i][fed..]
        invariant driver.Accepted() == start + pieces[i][..fed]
        decreases |remaining|, driver.pending
      {
        var blocked;
        ghost var n;
        remaining, blocked, n := driver.Update(remaining);
        assert pieces[i][..fed] + pieces[i][fed..][..n] == pieces[i][..fed + n];
        assert start + pieces[i][..fed] + pieces[i][fed..][..n] == start + (pieces[i][..fed] + pieces[i][fed..][..n]);
        fed := fed + n;
      }
      assert pieces[i][..fed] == pieces[i];
      assert key + (Concat(pieces[..i]) + pieces[i]) == key + Concat(pieces[..i]) + pieces[i];
    }
    assert pieces[..|pieces|] == pieces;
    var blocked := true;
    while blocked
      invariant blocked ==> driver.OnCourse() && driver.Accepted() == key + Concat(pieces)
      invariant !blocked ==> driver.log == Blocks(Pad(key + Concat(pieces), Bits512), 64)
      decreases blocked, driver.pending
    {
      blocked := driver.Finalize();
    }
  }
}
