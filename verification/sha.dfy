/** The SHA driver: blocks are filled, submitted or deferred, and the padding resumes. */
module Sha {
  import opened Words
  import opened RegAccess
  import opened Fips180
  import opened Padding
  import opened Accelerator

  datatype FinalizeState = NotStarted | FlushAlignBuffer | ZeroPadAlmostFull | WriteMessageLength | ReadResult

  class ShaDigest {
    const engine: ShaEngine
    const helper: AlignmentHelper
    var cursor: nat
    var firstRun: bool
    var finishedSize: nat
    var full: bool
    var phase: FinalizeState

    ghost var base: nat            // submissions before this digest
    ghost var lead: seq<seq<byte>> // what this digest submitted ahead of its message: a block left over, if any
    ghost var sent: seq<byte>      // bytes of the blocks submitted for this digest
    ghost var tail: seq<byte>      // bytes accepted but not submitted
    ghost var msg: seq<byte>       // the message, once padding has begun
    ghost var zeros: nat           // zeros appended after the 0x80 byte
    ghost var spoiled: bool        // padding overwrote a block that was still waiting
    ghost var copies: nat          // times the length block went out since then

    ghost predicate Wired()
      reads this`base, this`firstRun, this`lead, engine`log, helper
    {
      && helper.Valid() && helper.Apart(engine.mem) && engine.mem.Length == 32
      && base <= |engine.log| && (firstRun <==> |engine.log| == base)
      && LeadAllowed(lead, engine.size)
    }

    ghost function State(): (p: Pipe)
      reads this`base, this`full, this`lead, engine`log, engine.mem, helper, helper.buf
    {
      Pipe(engine.size, lead, if base <= |engine.log| then engine.log[base..] else [], engine.mem[..], helper.Carry(),
           full)
    }

    /** The accepted bytes of the block after the deferred one, if any. */
    ghost function Pending(): (s: seq<byte>)
      reads this`full, this`tail
    {
      if full && |tail| >= engine.size.Chunk() then tail[engine.size.Chunk()..] else tail
    }

    ghost function Accepted(): (s: seq<byte>)
      reads this`sent, this`tail
    {
      sent + tail
    }

    /** Nothing accepted was lost and the cursor counts it. */
    ghost predicate OnCourse()
      reads this`base, this`firstRun, this`lead, this`full, this`sent, this`tail, this`spoiled, this`cursor
      reads engine`log, engine.mem, helper, helper.buf
    {
      !spoiled && Wired() && State().Intact(sent, tail) && cursor == |Accepted()|
    }

    // What each finalize state promises about the bytes accepted so far.

    ghost predicate Absorbing()
      reads this, engine, engine.mem, helper, helper.buf
    {
      phase == NotStarted && OnCourse() && |Accepted()| <= MESSAGE_LIMIT
    }

    /**
     * Between two digests, with a block of the last one still flagged as waiting: it will be submitted ahead of
     * whatever comes next.
     */
    ghost predicate Stale()
      reads this`base, this`firstRun, this`lead, this`full, this`sent, this`tail, this`spoiled, this`cursor, this`phase
      reads engine`log, engine.mem, helper, helper.buf
    {
      && phase == NotStarted && !spoiled && Wired() && full && cursor == 0 && sent == [] && tail == [] && lead == []
      && State().log == [] && State().carry == [] && LeftOver(State().Block(), engine.size)
    }

    /** `finish` was blocked after it had appended padding, but not yet the length. */
    ghost predicate Interrupted()
      reads this, engine, engine.mem, helper, helper.buf
    {
      Zeroing() || Lengthening()
    }

    /** Ready for message bytes. */
    ghost predicate Open()
      reads this, engine, engine.mem, helper, helper.buf
    {
      Absorbing() || Stale()
    }

    /** The submissions of this digest start, or will start, with a block of the one before. */
    ghost predicate Tainted()
      reads this, engine, engine.mem, helper, helper.buf
    {
      lead != [] || Stale()
    }

    ghost predicate Padding(z: nat)
      reads this`base, this`firstRun, this`lead, this`full, this`sent, this`tail, this`spoiled, this`cursor
      reads this`msg, this`finishedSize
      reads engine`log, engine.mem, helper, helper.buf
    {
      OnCourse() && Accepted() == Marked(msg, z) && finishedSize == |msg| <= MESSAGE_LIMIT
    }

    ghost predicate Flushing()
      reads this, engine, engine.mem, helper, helper.buf
    {
      phase == FlushAlignBuffer && Padding(0) && !full
    }

    ghost predicate Zeroing()
      reads this, engine, engine.mem, helper, helper.buf
    {
      phase == ZeroPadAlmostFull && Padding(zeros) && zeros < 4 && State().carry == []
    }

    ghost predicate Lengthening()
      reads this, engine, engine.mem, helper, helper.buf
    {
      && phase == WriteMessageLength && Padding(zeros) && zeros < engine.size.LengthBytes()
      && State().carry == [] && |Pending()| <= engine.size.Chunk() - engine.size.LengthBytes()
    }

    ghost predicate Reading()
      reads this, engine, engine.mem, helper, helper.buf
    {
      phase == ReadResult && !spoiled && Wired() && State().Intact(sent, tail)
      && Accepted() == Pad(msg, engine.size)
    }

    /** The 0x80 byte took the last place of a block while the engine was busy. */
    ghost predicate Overrun()
      reads this`base, this`firstRun, this`lead, this`full, this`spoiled, this`cursor
      reads this`msg, this`finishedSize
      reads engine`log, engine.mem, helper, helper.buf
    {
      && spoiled && Wired() && State().carry == [] && full
      && |msg| >= engine.size.Chunk() - 1 == engine.size.Rem(|msg|)
      && cursor == |msg| + 1 && finishedSize == |msg|
      && State().log == Commands(lead + SpoiledBlocks(msg, engine.size, 0))
    }

    /** A waiting block was overwritten by the length block, which went out `copies` times so far. */
    ghost predicate Spoiled()
      reads this, engine, engine.mem, helper, helper.buf
    {
      && phase == ReadResult && spoiled && Wired()
      && |msg| >= engine.size.Chunk() - 1 == engine.size.Rem(|msg|)
      && State().Block() == LastBlock([], |msg|, engine.size)
      && State().log == Commands(lead + SpoiledBlocks(msg, engine.size, copies))
      && copies <= 2 && (copies == 0 ==> full) && (copies == 2 ==> !full)
    }

    /** The states in which a call can find the digest. */
    ghost predicate Valid()
      reads this, engine, engine.mem, helper, helper.buf
    {
      Open() || Zeroing() || Lengthening() || Reading() || Spoiled()
    }

    constructor (engine: ShaEngine)
      requires engine.mem.Length == 32
      ensures this.engine == engine && fresh(helper) && fresh(helper.buf)
      ensures Wired() && State().Intact([], []) && sent == [] && tail == [] && base == |engine.log|
      ensures Absorbing() && Accepted() == [] && cursor == 0 && !full && !Tainted()
    {
      hide LeadAllowed, Commands, Holds, Flatten, Stored, Blocks, BlockSize.Rem, Pipe.Block, Pipe.Ready, Pipe.Intact;
      this.engine := engine;
      helper := new AlignmentHelper();
      cursor := 0;
      firstRun := true;
      finishedSize := 0;
      full := false;
      phase := NotStarted;
      base := |engine.log|;
      lead, sent, tail, msg, zeros, spoiled, copies := [], [], [], [], 0, false, 0;
      new;
      NoLead(engine.size);
      NothingSent(State());
      Apart();
    }

    /** `process_buffer`: the first block of a digest starts the engine, later ones continue it. */
    method ProcessBuffer()
      requires Wired() && engine.pending == 0
      modifies this`firstRun, engine`submitted, engine`pending, engine`log
      ensures Wired() && State() == old(State()).Latched()
      ensures engine.pending == engine.latency(old(engine.submitted))
    {
      ghost var before := State();
      if firstRun {
        engine.Submit(Start);
        firstRun := false;
      } else {
        engine.Submit(Continue);
      }
      assert engine.log[base..] == before.log + [engine.log[|engine.log| - 1]];
    }

    /** `process_buffer_or_wait`: submits the block in memory, or defers it if the engine is busy. */
    method ProcessBufferOrWait() returns (blocked: bool)
      requires Wired()
      modifies this`firstRun, this`full, engine`submitted, engine`pending, engine`log
      ensures Wired() && blocked == (old(engine.pending) > 0)
      ensures State() == if blocked then old(State()).(full := true) else old(State()).Latched()
      ensures full == (blocked || old(full))
      ensures if blocked then engine.pending == old(engine.pending) - 1 && engine.submitted == old(engine.submitted)
              else engine.pending == engine.latency(old(engine.submitted))
    {
      blocked := engine.IsBusy();
      if blocked {
        full := true;
      } else {
        ProcessBuffer();
      }
    }

    /** Submits a deferred block first; `blocked` if the engine cannot take it yet. */
    method RetryDeferred() returns (blocked: bool)
      requires Wired()
      modifies this`firstRun, this`full, engine`submitted, engine`pending, engine`log
      ensures Wired() && blocked == (old(full) && old(engine.pending) > 0)
      ensures State() == if old(full) && !blocked then old(State()).Latched().(full := false) else old(State())
      ensures blocked ==> engine.pending < old(engine.pending)
      ensures !old(full) ==> engine.pending == old(engine.pending) && engine.submitted == old(engine.submitted)
    {
      blocked := false;
      if full {
        blocked := engine.IsBusy();
        if !blocked {
          ProcessBuffer();
          full := false;
        }
      }
    }

    /** Copies `incoming` behind `tail`, at most to the end of the block. */
    method CopyIn(incoming: seq<byte>) returns (remaining: seq<byte>, bounded: bool, ghost n: nat)
      requires Wired() && State().Intact(sent, tail) && !full && cursor == |Accepted()|
      modifies this`cursor, engine.mem, helper`fill, helper.buf
      ensures Wired() && State() == old(State()).(mem := State().mem, carry := State().carry)
      ensures n == Consumed(|tail| % 4, |incoming|, engine.size.Chunk() - |tail|) && remaining == incoming[n..]
      ensures n <= |incoming| && bounded == (|tail| + n >= engine.size.Chunk()) && cursor == old(cursor) + n
      ensures |tail| + n < engine.size.Chunk() + 4
      ensures Copied(State().mem, State().carry, tail + incoming[..n], engine.size.Chunk())
    {
      hide BlockSize.Rem, Holds, Commands, Blocks, Copied, Flatten, Pipe.Block, Pipe.Ready;
      State().CursorInBlock(sent, tail);
      var chunk := engine.size.Chunk();
      remaining, bounded, n := helper.AlignedVolatileCopy(engine.mem, incoming, chunk, engine.size.Rem(cursor), tail);
      cursor := cursor + (|incoming| - |remaining|);
    }

    /** Copies `incoming` behind `tail` and submits or defers the block this may complete. */
    method FillBlock(incoming: seq<byte>) returns (remaining: seq<byte>, ghost n: nat)
      requires Wired() && State().Intact(sent, tail) && !full && cursor == |Accepted()|
      modifies this`firstRun, this`full, this`sent, this`tail, this`cursor
      modifies engine`submitted, engine`pending, engine`log, engine.mem, helper`fill, helper.buf
      ensures Wired() && State().Intact(sent, tail) && cursor == |Accepted()|
      ensures n == Consumed(|old(tail)| % 4, |incoming|, engine.size.Chunk() - |old(tail)|)
      ensures remaining == incoming[n..] && Accepted() == old(Accepted()) + incoming[..n]
      ensures full == (old(engine.pending) > 0 && |old(tail)| + n >= engine.size.Chunk())
      ensures full ==> engine.pending == old(engine.pending) - 1 && engine.submitted == old(engine.submitted)
      ensures |old(tail)| + n < engine.size.Chunk() ==> engine.pending == old(engine.pending)
    {
      hide LeadAllowed, Blocks, Commands, Holds, Flatten, Stored, Copied, BlockSize.Rem, Pipe.Sent, Pipe.Ready,
           Pipe.Intact, Pipe.Latched;
      ghost var before := State();
      var bounded;
      remaining, bounded, n := CopyIn(incoming);
      ghost var t := tail + incoming[..n];
      ghost var copied := State();
      before.CopyKeeps(sent, tail, copied, t);
      assert sent + t == sent + tail + incoming[..n];
      tail := t;
      if bounded {
        var deferred := SubmitOrDefer();
      }
    }

    /** Submits the complete block at the front of `tail`, or defers it if the engine is busy. */
    method SubmitOrDefer() returns (blocked: bool)
      requires Wired() && !full && State().Sent(sent) && State().Ready(tail)
      modifies this`firstRun, this`full, this`sent, this`tail, engine`submitted, engine`pending, engine`log
      ensures Wired() && State().Intact(sent, tail) && Accepted() == old(Accepted())
      ensures Pending() == old(tail)[engine.size.Chunk()..] && State().carry == old(State().carry)
      ensures blocked == full == (old(engine.pending) > 0)
      ensures blocked ==> engine.pending == old(engine.pending) - 1 && engine.submitted == old(engine.submitted)
    {
      hide LeadAllowed, Blocks, Commands, Holds, Flatten, Stored, BlockSize.Rem;
      ghost var before := State();
      blocked := ProcessBufferOrWait();
      if !blocked {
        TakeBlock(before);
      }
    }

    /** Bookkeeping: the block just latched moves from `tail` to `sent`. */
    ghost method TakeBlock(before: Pipe)
      requires before.Sent(sent) && before.Ready(tail)
      requires State() == before.Latched().(full := false)
      modifies this`sent, this`tail
      ensures State().Intact(sent, tail) && Accepted() == old(Accepted())
      ensures tail == old(tail)[engine.size.Chunk()..]
    {
      assert |before.mem| == 32 && engine.size.Chunk() <= |tail|;
      hide LeadAllowed, Blocks, Commands, Holds, Flatten, Stored, Copied, BlockSize.Rem, Pipe.Sent, Pipe.Ready,
           Pipe.Intact;
      before.LatchKeeps(sent, tail);
      var c := engine.size.Chunk();
      sent, tail := sent + tail[..c], tail[c..];
    }

    /** Bookkeeping: a left-over block just went out ahead of the message. */
    ghost method Lead(before: Pipe)
      requires before.log == [] && before.carry == [] && before.lead == [] && |before.mem| == 32
      requires before.size == engine.size && LeftOver(before.Block(), engine.size) && Wired()
      requires State() == before.Latched().(full := false) && sent == [] && tail == []
      modifies this`lead
      ensures Wired() && State().Intact(sent, tail) && lead != []
    {
      hide Blocks, Commands, Holds, Flatten, Stored, BlockSize.Rem, Pipe.Block, Pipe.Sent, Pipe.Ready;
      before.LeadsIn();
      lead := [before.Block()];
    }

    /** What a left-over block means for the pipe. */
    lemma StaleParts()
      requires Stale()
      ensures var p := State(); p.log == [] && p.carry == [] && p.lead == [] && |p.mem| == 32 && p.size == engine.size
      ensures LeftOver(State().Block(), engine.size) && Wired() && full && !spoiled
      ensures phase == NotStarted && cursor == 0 && sent == [] && tail == [] && !OnCourse()
    {
    }

    /** Lets a block that waits go out, if the engine can take it. */
    method Unblock() returns (blocked: bool)
      requires OnCourse() || Stale()
      modifies this`firstRun, this`full, this`lead, this`sent, this`tail
      modifies engine`submitted, engine`pending, engine`log
      ensures if old(Stale()) then (if blocked then Stale() else OnCourse() && lead != [])
              else OnCourse() && lead == old(lead)
      ensures Accepted() == old(Accepted()) && (if blocked then tail == old(tail) else !full && tail == old(Pending()))
      ensures blocked == (old(full) && old(engine.pending) > 0)
      ensures blocked ==> full && engine.pending < old(engine.pending)
      ensures !old(full) ==> engine.pending == old(engine.pending) && engine.submitted == old(engine.submitted)
    {
      hide LeadAllowed, Blocks, Commands, Holds, Flatten, Stored, Copied, BlockSize.Rem, Pipe.Sent, Pipe.Block,
           LeftOver;
      ghost var before := State();
      ghost var stale := Stale();
      if stale {
        StaleParts();
      }
      blocked := RetryDeferred();
      if old(full) && !blocked {
        if stale {
          Lead(before);
        } else {
          TakeBlock(before);
        }
      }
    }

    method WriteData(incoming: seq<byte>) returns (remaining: seq<byte>, blocked: bool, ghost n: nat)
      requires OnCourse() || Stale()
      modifies this`firstRun, this`full, this`lead, this`sent, this`tail, this`cursor
      modifies engine`submitted, engine`pending, engine`log, engine.mem, helper`fill, helper.buf
      ensures if old(Stale()) then (if blocked then Stale() else OnCourse() && lead != [])
              else OnCourse() && lead == old(lead)
      ensures blocked == (old(full) && old(engine.pending) > 0)
      ensures blocked ==> n == 0 && engine.pending < old(engine.pending)
      ensures !blocked ==>
                n == Consumed(|old(Pending())| % 4, |incoming|, engine.size.Chunk() - |old(Pending())|)
      ensures n <= |incoming| && (!blocked && incoming != [] ==> n > 0)
      ensures remaining == incoming[n..] && Accepted() == old(Accepted()) + incoming[..n]
      ensures !old(full) ==> full == (old(engine.pending) > 0 && |old(tail)| + n >= engine.size.Chunk())
      ensures !old(full) && full ==>
                engine.pending == old(engine.pending) - 1 && engine.submitted == old(engine.submitted)
      ensures !old(full) && |old(tail)| + n < engine.size.Chunk() ==> engine.pending == old(engine.pending)
    {
      hide LeadAllowed, Blocks, Commands, Holds, Flatten, Stored, Copied, BlockSize.Rem, Pipe.Sent, Pipe.Block,
           Pipe.Ready, LeftOver, Stale;
      blocked := Unblock();
      if blocked {
        remaining, n := incoming, 0;
        assert Accepted() == old(Accepted()) + incoming[..0];
      } else {
        remaining, n := FillBlock(incoming);
      }
    }

    /**
     * `update`: feeds message bytes; whatever is not consumed must be fed again. In the middle of a `finish` it goes
     * back to taking message bytes, and the padding appended so far becomes part of the message.
     */
    method Update(incoming: seq<byte>) returns (remaining: seq<byte>, blocked: bool, ghost n: nat)
      requires (Open() || Interrupted()) && |Accepted()| + |incoming| <= MESSAGE_LIMIT
      modifies this, engine`submitted, engine`pending, engine`log, engine.mem, helper`fill, helper.buf
      ensures Open() && Tainted() == old(Tainted()) && base == old(base) && n <= |incoming|
      ensures remaining == incoming[n..] && Accepted() == old(Accepted()) + incoming[..n]
      ensures old(Interrupted()) ==> old(Accepted()) == Marked(old(msg), old(zeros))
      ensures blocked ==> n == 0 && engine.pending < old(engine.pending)
      ensures !blocked ==> Absorbing() && (incoming != [] ==> n > 0)
      ensures !old(full) && |old(tail)| + |incoming| < engine.size.Chunk() ==>
                !full && engine.pending == old(engine.pending) && n == |incoming|
    {
      hide LeadAllowed, Blocks, Commands, Holds, Flatten, Stored, Copied, BlockSize.Rem, Pipe.Sent, Pipe.Ready,
           Pipe.Intact, Pipe.Latched, Marked;
      Apart();
      phase := NotStarted;
      remaining, blocked, n := WriteData(incoming);
      Apart();
    }

    lemma Apart()
      ensures Stale() ==> !OnCourse() && full && Accepted() == [] && Pending() == []
    {
    }

    /** Where a digest on course stands. */
    lemma Position()
      requires OnCourse()
      ensures Wired() && State().Sent(sent) && |State().mem| == 32 && (full ==> State().Ready(tail))
      ensures engine.size.Rem(cursor) == |Pending()| < engine.size.Chunk()
      ensures !full ==> Pending() == tail && Stored(State().mem, State().carry, tail)
    {
      State().CursorInBlock(sent, tail);
    }

    /** `finish`, first step: append the "1" bit. */
    method AppendOne()
      requires Absorbing() && !full
      modifies this, engine`submitted, engine`pending, engine`log, engine.mem, helper`fill, helper.buf
      ensures msg == old(Accepted()) && base == old(base) && lead == old(lead) && phase == FlushAlignBuffer
      ensures spoiled == (engine.size.Rem(|msg|) == engine.size.Chunk() - 1 && old(engine.pending) > 0)
      ensures if spoiled then Overrun() else Flushing()
      ensures spoiled ==> engine.pending == old(engine.pending) - 1 && engine.submitted == old(engine.submitted)
    {
      hide *;
      AppendStart();
      var size := cursor;
      msg := Accepted();
      var remaining, blocked;
      ghost var n;
      remaining, blocked, n := WriteData([0x80]);
      assert n == 1 && [0x80 as byte][..n] == [0x80];
      finishedSize := size;
      phase := FlushAlignBuffer;
      AppendEnd();
      if full {
        spoiled := true;
        OverrunJoin();
      }
    }

    lemma OverrunJoin()
      requires spoiled && Wired() && State().carry == [] && full
      requires |msg| >= engine.size.Chunk() - 1 == engine.size.Rem(|msg|)
      requires cursor == |msg| + 1 && finishedSize == |msg|
      requires State().log == Commands(lead + SpoiledBlocks(msg, engine.size, 0))
      ensures Overrun()
    {
    }

    lemma AppendStart()
      requires Absorbing() && !full
      ensures OnCourse() && !Stale() && !spoiled && cursor == |Accepted()| <= MESSAGE_LIMIT && Pending() == tail
      ensures (|tail| + 1 >= engine.size.Chunk()) == (engine.size.Rem(|Accepted()|) == engine.size.Chunk() - 1)
    {
      hide LeadAllowed, Blocks, Commands, Holds, Flatten, Stored, Copied, BlockSize.Rem, Pipe.Ready, Pipe.Sent;
      Position();
    }

    /** The appended byte is in the block being filled, or completed one that has to wait. */
    lemma AppendEnd()
      requires OnCourse() && phase == FlushAlignBuffer && Accepted() == msg + [0x80]
      requires finishedSize == |msg| <= MESSAGE_LIMIT && (full ==> engine.size.Rem(|msg|) == engine.size.Chunk() - 1)
      ensures !full ==> Flushing()
      ensures full ==>
                && Wired() && State().carry == [] && cursor == |msg| + 1 && |msg| >= engine.size.Chunk() - 1
                && State().log == Commands(lead + SpoiledBlocks(msg, engine.size, 0))
    {
      hide LeadAllowed, Blocks, Commands, Holds, Flatten, Stored, Copied, BlockSize.Rem, Pipe.Ready, Pipe.Sent,
           Pipe.Intact, SpoiledBlocks;
      if full {
        State().Overtaken(sent, tail, msg);
      } else {
        assert msg + [0x80] + Zeros(0) == msg + [0x80];
      }
    }

    /** Bookkeeping for padding bytes just written behind `tail`. */
    ghost method Grow(before: Pipe, bytes: seq<byte>)
      requires before.Intact(sent, tail) && !before.full && |tail + bytes| <= engine.size.Chunk() == before.size.Chunk()
      requires State() == before.(mem := State().mem, carry := State().carry) && |State().mem| == 32
      requires Stored(State().mem, State().carry, tail + bytes)
      modifies this`tail
      ensures tail == old(tail) + bytes && Accepted() == old(Accepted()) + bytes
      ensures State().Sent(sent)
      ensures if |tail| < engine.size.Chunk() then State().Intact(sent, tail)
              else State().Ready(tail) && State().carry == []
    {
      hide LeadAllowed, Blocks, Commands, Holds, Flatten, BlockSize.Rem, Pipe.Sent, Pipe.Ready;
      var t := tail + bytes;
      if |t| == engine.size.Chunk() {
        assert t[..|t|] == t;
      }
      before.CopyKeeps(sent, tail, State(), t);
      assert sent + t == sent + tail + bytes;
      tail := t;
    }

    /** The parts of a digest are different objects. */
    lemma Separate()
      ensures this as object != helper && this as object != engine && helper as object != engine
      ensures engine.mem as object != helper && engine.mem as object != this && engine.mem as object != engine
      ensures helper.buf as object != helper && helper.buf as object != this && helper.buf as object != engine
    {
    }

    /** What memory and carry owe to the next block: nothing if a waiting block was overtaken. */
    ghost function Partial(): (s: seq<byte>)
      reads this`spoiled, this`tail
    {
      if spoiled then [] else tail
    }

    lemma PartialPosition()
      requires (OnCourse() && !full) || Overrun()
      ensures Wired() && |State().mem| == 32 && Stored(State().mem, State().carry, Partial())
      ensures engine.size.Rem(cursor) == |Partial()| < engine.size.Chunk()
      ensures !spoiled ==> Partial() == Pending() == tail && State().Intact(sent, tail) && State().Sent(sent)
    {
      if spoiled {
        engine.size.RemSmall(|msg|);
        HoldsNothing(engine.mem[..], []);
      } else {
        Position();
      }
    }

    /** Completes the carried word with zeros and writes it. */
    method FlushWord() returns (flushed: nat)
      requires (OnCourse() && !full) || Overrun()
      modifies this`tail, engine.mem, helper`fill, helper.buf
      ensures Wired() && State().carry == []
      ensures flushed == Missing(|old(Partial())|)
      ensures spoiled ==> State() == old(State())
      ensures !spoiled ==>
                && tail == old(tail) + Zeros(flushed) && Accepted() == old(Accepted()) + Zeros(flushed)
                && (flushed == 0 ==> |tail| < engine.size.Chunk())
                && |tail| <= engine.size.Chunk() && State().Sent(sent)
                && if |tail| < engine.size.Chunk() then State().Intact(sent, tail) else State().Ready(tail)
    {
      hide LeadAllowed, Blocks, Commands, Holds, Flatten, Stored, BlockSize.Rem, Pipe.Sent, Pipe.Ready, Pipe.Intact,
           Zeros, Min;
      PartialPosition();
      Separate();
      ghost var before := State();
      flushed := helper.FlushTo(engine.mem, engine.size.Rem(cursor), Partial());
      if !spoiled {
        Grow(before, Zeros(flushed));
      }
    }

    twostate lemma OverrunKept()
      requires old(Overrun()) && Wired() && State() == old(State())
      requires spoiled && msg == old(msg) && cursor == old(cursor) && finishedSize == old(finishedSize)
      ensures Overrun()
    {
    }

    /** Moves the cursor over padding just written; submits the block if that completed it. */
    method Advance(count: nat) returns (blocked: bool)
      requires !spoiled && Wired() && !full && State().Sent(sent) && State().carry == [] && tail != []
      requires |tail| <= engine.size.Chunk() && cursor + count == |Accepted()|
      requires if |tail| < engine.size.Chunk() then State().Intact(sent, tail) else State().Ready(tail)
      modifies this`firstRun, this`full, this`sent, this`tail, this`cursor
      modifies engine`submitted, engine`pending, engine`log
      ensures OnCourse() && Accepted() == old(Accepted()) && State().carry == []
      ensures Pending() == if old(|tail|) == engine.size.Chunk() then [] else old(tail)
      ensures blocked == full && (blocked ==> engine.pending < old(engine.pending))
    {
      hide LeadAllowed, Blocks, Commands, Holds, Flatten, Stored, BlockSize.Rem, Pipe.Sent, Pipe.Ready, Pipe.Intact;
      Separate();
      blocked := false;
      cursor := cursor + count;
      AtBoundary();
      if engine.size.Rem(cursor) == 0 {
        blocked := SubmitOrDefer();
      }
    }

    /** `finish`, second step: flush the carry and submit the block if that completes it. */
    method FlushCarried() returns (blocked: bool)
      requires phase == FlushAlignBuffer && (Flushing() || Overrun())
      modifies this, engine`submitted, engine`pending, engine`log, engine.mem, helper`fill, helper.buf
      ensures msg == old(msg) && base == old(base) && lead == old(lead) && spoiled == old(spoiled)
      ensures if spoiled then phase == ZeroPadAlmostFull && Overrun() && !blocked else Zeroing() && blocked == full
      ensures spoiled ==> engine.pending == old(engine.pending) && engine.submitted == old(engine.submitted)
      ensures blocked ==> engine.pending < old(engine.pending)
    {
      hide *;
      Separate();
      FlushStart();
      blocked := false;
      phase := ZeroPadAlmostFull;
      var flushed := FlushWord();
      zeros := flushed;
      MarkedGrows(msg, 0, flushed);
      if flushed > 0 {
        blocked := Advance(flushed);
      } else if spoiled {
        OverrunKept();
      } else {
        NothingFlushed();
      }
      ZeroingJoin();
    }

    /** Where the second step finds the digest. */
    lemma FlushStart()
      requires Flushing() || Overrun()
      ensures Missing(0) == 0 && Missing(|Partial()|) < 4
      ensures spoiled ==> Overrun() && Partial() == []
      ensures !spoiled ==> OnCourse() && !full && Partial() == tail && Accepted() == Marked(msg, 0)
      ensures !spoiled ==> finishedSize == |msg| <= MESSAGE_LIMIT && cursor == |Accepted()|
      ensures !spoiled ==> forall n: nat :: |Accepted() + Zeros(n)| == cursor + n && |tail + Zeros(n)| == |tail| + n
    {
      hide LeadAllowed, Blocks, Commands, Holds, Flatten, BlockSize.Rem, Pipe.Sent, Pipe.Ready, Pipe.Intact, Marked,
           SpoiledBlocks;
    }

    lemma NothingFlushed()
      requires !spoiled && Wired() && State().Intact(sent, tail) && cursor == |Accepted() + Zeros(0)|
      ensures OnCourse() && Accepted() + Zeros(0) == Accepted()
    {
    }

    lemma ZeroingJoin()
      ensures (phase == ZeroPadAlmostFull && OnCourse() && Accepted() == Marked(msg, zeros)
               && finishedSize == |msg| <= MESSAGE_LIMIT && zeros < 4 && State().carry == []) ==> Zeroing()
    {
    }

    lemma AtBoundary()
      requires State().Sent(sent) && 0 < |tail| <= engine.size.Chunk()
      ensures (engine.size.Rem(|Accepted()|) == 0) == (|tail| == engine.size.Chunk())
    {
      engine.size.RemAdd(|sent|, |tail|);
      engine.size.RemSmall(|tail|);
    }

    /** Writes `count` zero bytes behind the words already written. */
    method ZeroFill(count: nat)
      requires OnCourse() && !full && State().carry == [] && count == engine.size.Chunk() - |tail|
      modifies this`tail, engine.mem, helper`fill, helper.buf
      ensures Wired() && State().Sent(sent) && State().Ready(tail) && State().carry == []
      ensures tail == old(tail) + Zeros(count) && Accepted() == old(Accepted()) + Zeros(count)
    {
      hide LeadAllowed, Blocks, Commands, Holds, Flatten, BlockSize.Rem, Pipe.Sent, Pipe.Ready, Pipe.Intact, Zeros;
      Position();
      Separate();
      ghost var before := State();
      helper.VolatileWrite(engine.mem, 0, count, engine.size.Rem(cursor), tail);
      assert Padded(tail, 0, (count + 3) / 4) == tail + Zeros(count);
      Grow(before, Zeros(count));
    }

    /** `finish`, third step: if the length does not fit behind the padding, zero the rest of the block. */
    method ZeroPad() returns (blocked: bool)
      requires phase == ZeroPadAlmostFull && ((Zeroing() && !full) || Overrun())
      modifies this, engine`submitted, engine`pending, engine`log, engine.mem, helper`fill, helper.buf
      ensures msg == old(msg) && base == old(base) && lead == old(lead) && spoiled == old(spoiled)
      ensures if spoiled then phase == WriteMessageLength && Overrun() && !blocked else Lengthening()
      ensures spoiled ==> engine.pending == old(engine.pending) && engine.submitted == old(engine.submitted)
      ensures !spoiled && !blocked ==> !full
      ensures blocked ==> engine.pending < old(engine.pending)
    {
      hide *;
      Separate();
      ZeroPadStart();
      blocked := false;
      phase := WriteMessageLength;
      var padLen := engine.size.Chunk() - engine.size.Rem(cursor);
      if padLen < engine.size.LengthBytes() {
        blocked := ZeroRest(padLen);
        LengtheningParts();
      } else if !spoiled {
        EnterLengthening();
      }
    }

    lemma ZeroPadStart()
      requires (Zeroing() && !full) || Overrun()
      ensures spoiled ==> Overrun() && engine.size.Chunk() - engine.size.Rem(cursor) >= engine.size.LengthBytes()
      ensures !spoiled ==> OnCourse() && Padding(zeros) && zeros < 4 && State().carry == [] && !full
      ensures !spoiled ==> engine.size.Rem(cursor) == |tail| < engine.size.Chunk()
      ensures !spoiled ==> (engine.size.Chunk() - |tail|) % 4 == 0
      ensures engine.size.Rem(cursor) < engine.size.Chunk()
    {
      hide LeadAllowed, Blocks, Commands, Holds, Flatten, BlockSize.Rem, Pipe.Sent, Pipe.Ready, Pipe.Intact, Zeros,
           Marked, SpoiledBlocks, Pipe.Block, LastBlock, Pad;
      PartialPosition();
      if !spoiled {
        NothingCarried(State().mem, tail);
      }
    }

    /** Zeroes the rest of a block too full for the length, and submits it. */
    method ZeroRest(padLen: nat) returns (blocked: bool)
      requires phase == WriteMessageLength && Padding(zeros) && zeros < 4 && State().carry == [] && !full
      requires padLen == engine.size.Chunk() - |tail| < engine.size.LengthBytes() && padLen % 4 == 0
      modifies this`firstRun, this`full, this`sent, this`tail, this`cursor, this`zeros
      modifies engine`submitted, engine`pending, engine`log, engine.mem, helper`fill, helper.buf
      ensures Lengthening() && (blocked ==> engine.pending < old(engine.pending)) && (!blocked ==> !full)
    {
      hide LeadAllowed, Blocks, Commands, Holds, Flatten, Stored, BlockSize.Rem, Pipe.Sent, Pipe.Ready, Pipe.Intact,
           Zeros, Marked, Pipe.Block, LastBlock, Pad;
      ZeroFill(padLen);
      MarkedGrows(msg, zeros, padLen);
      zeros := zeros + padLen;
      blocked := Advance(padLen);
    }

    lemma EnterLengthening()
      requires phase == WriteMessageLength && Padding(zeros) && zeros < 4 && State().carry == [] && !full
      requires engine.size.Chunk() - engine.size.Rem(cursor) >= engine.size.LengthBytes()
      ensures Lengthening()
    {
      Position();
    }

    /** Zeros up to the length field. */
    method FillToLength(padLen: nat, ghost s: seq<byte>)
      requires (OnCourse() && !full && State().carry == []) || Overrun()
      requires s == Partial() && |s| + padLen + 8 == engine.size.Chunk()
      modifies engine.mem, helper`fill, helper.buf
      ensures Wired() && State() == old(State()).(mem := State().mem, carry := [])
      ensures |State().mem| == 32 && Stored(State().mem, State().carry, s + Zeros(padLen))
    {
      hide LeadAllowed, Blocks, Commands, Holds, Flatten, Stored, BlockSize.Rem, Pipe.Sent, Pipe.Ready, Pipe.Intact,
           Pipe.Block, Zeros, SpoiledBlocks;
      PartialPosition();
      Separate();
      helper.VolatileWrite(engine.mem, 0, padLen, engine.size.Rem(cursor), s);
      PaddedIsZeros(s, padLen);
    }

    /** The last eight bytes of the block. */
    method CopyLength(length: seq<byte>, ghost t: seq<byte>)
      requires Wired() && |State().mem| == 32 && Stored(State().mem, State().carry, t)
      requires |length| == 8 && |t| + 8 == engine.size.Chunk()
      modifies engine.mem, helper`fill, helper.buf
      ensures Wired() && State() == old(State()).(mem := State().mem, carry := [])
      ensures |State().mem| == 32 && State().Block() == t + length
    {
      hide LeadAllowed, Blocks, Commands, Holds, Flatten, Stored, Copied, BlockSize.Rem, Pipe.Block, Zeros;
      var remaining, bounded;
      ghost var n;
      remaining, bounded, n :=
        helper.AlignedVolatileCopy(engine.mem, length, engine.size.Chunk(), engine.size.Chunk() - 8, t);
      LengthFillsBlock(State(), t, length, n);
    }

    /** Writes zeros and the message length up to the end of the block. */
    method WriteLength()
      requires (OnCourse() && !full && State().carry == []) || Overrun()
      requires |Partial()| <= engine.size.Chunk() - 8
      modifies engine.mem, helper`fill, helper.buf
      ensures Wired() && State() == old(State()).(mem := State().mem, carry := [])
      ensures |State().mem| == 32 && State().Block() == LastBlock(Partial(), finishedSize, engine.size)
    {
      hide LeadAllowed, Blocks, Commands, Holds, Flatten, Stored, Copied, BlockSize.Rem, Pipe.Sent, Pipe.Ready,
           Pipe.Intact, Pipe.Block, Zeros, SpoiledBlocks, BigEndian;
      PartialPosition();
      Separate();
      ghost var s := Partial();
      var padLen := engine.size.Chunk() - engine.size.Rem(cursor) - 8;
      FillToLength(padLen, s);
      CopyLength(BigEndian(8 * finishedSize, 8), s + Zeros(padLen));
    }

    lemma LengthFillsBlock(p: Pipe, s: seq<byte>, length: seq<byte>, n: nat)
      requires |p.mem| == 32 && |s| + 8 == p.size.Chunk() && |length| == 8
      requires n == Consumed(|s| % 4, 8, 8)
      requires Copied(p.mem, p.carry, s + length[..n], p.size.Chunk())
      ensures n == 8 && p.Block() == s + length && p.carry == []
    {
      assert length[..8] == length;
      var t := s + length;
      assert t[..|t|] == t;
      HoldsBlock(p.mem, t, p.size);
    }

    /** Bookkeeping: the last block of the padded message is in memory. */
    ghost method EnterLast(before: Pipe)
      requires !spoiled && before.Intact(sent, tail) && !before.full && before.size == engine.size
      requires Accepted() == Marked(msg, zeros) && zeros < engine.size.LengthBytes() && |msg| <= MESSAGE_LIMIT
      requires |tail| <= engine.size.Chunk() - engine.size.LengthBytes()
      requires State() == before.(mem := State().mem, carry := []) && |State().mem| == 32
      requires State().Block() == LastBlock(tail, |msg|, engine.size)
      modifies this`tail
      ensures State().Sent(sent) && State().Ready(tail) && Accepted() == Pad(msg, engine.size)
    {
      hide LeadAllowed, Blocks, Commands, Holds, Flatten, BlockSize.Rem, Pipe.Block, Zeros, Marked, LastBlock, Pad;
      LimitFitsLength(|msg|);
      LastBlockPads(msg, zeros, sent, tail, engine.size);
      tail := LastBlock(tail, |msg|, engine.size);
      assert tail[..engine.size.Chunk()] == tail;
    }

    /** The last block is in memory: the padded message's, or a length block alone after an overrun. */
    ghost predicate LastReady(p: Pipe)
      reads this`phase, this`spoiled, this`lead, this`msg, this`sent, this`tail
    {
      && p.size == engine.size && p.lead == lead && |p.mem| == 32 && phase == ReadResult
      && if spoiled then
           && p.full && |msg| >= engine.size.Chunk() - 1 == engine.size.Rem(|msg|)
           && p.Block() == LastBlock([], |msg|, engine.size)
           && p.log == Commands(p.lead + SpoiledBlocks(msg, engine.size, 0))
         else p.Sent(sent) && p.Ready(tail) && !p.full && Accepted() == Pad(msg, engine.size)
    }

    lemma LastReadyParts(p: Pipe)
      requires LastReady(p)
      ensures p.size == engine.size && p.lead == lead && |p.mem| == 32 && phase == ReadResult
      ensures !spoiled ==> p.Sent(sent) && p.Ready(tail) && !p.full && Accepted() == Pad(msg, engine.size)
      ensures spoiled ==>
                && p.full && |msg| >= engine.size.Chunk() - 1 == engine.size.Rem(|msg|)
                && p.Block() == LastBlock([], |msg|, engine.size)
                && p.log == Commands(lead + SpoiledBlocks(msg, engine.size, 0))
    {
    }

    /** Bookkeeping: the length block went out, or waits, in place of the block it overwrote. */
    ghost method LeaveSpoiled(before: Pipe, blocked: bool)
      requires Wired() && LastReady(before) && spoiled
      requires State() == if blocked then before.(full := true) else before.Latched()
      modifies this`copies
      ensures Spoiled()
    {
      hide LeadAllowed, Blocks, Holds, Flatten, Stored, BlockSize.Rem, Zeros, Marked, LastBlock, SpoiledBlocks, Pad,
           Commands, Pipe.Block, LastReady, Wired;
      LastReadyParts(before);
      before.SameBlock(State());
      copies := if blocked then 0 else 1;
      SpoiledSubmit(lead, msg, engine.size, 0);
    }

    /** Bookkeeping: the last block was offered to the engine. */
    ghost method LeaveLast(before: Pipe, blocked: bool)
      requires Wired() && LastReady(before)
      requires State() == if blocked then before.(full := true) else before.Latched()
      modifies this`sent, this`tail, this`copies
      ensures if spoiled then Spoiled() else Reading() && full == blocked
    {
      hide LeadAllowed, Blocks, Holds, Flatten, Stored, BlockSize.Rem, Zeros, Marked, LastBlock, SpoiledBlocks, Pad,
           Commands, Spoiled, Pipe.Sent, Pipe.Ready, LastReady;
      LastReadyParts(before);
      if spoiled {
        LeaveSpoiled(before, blocked);
      } else if !blocked {
        TakeBlock(before);
      } else {
        DeferKeeps(before);
      }
    }

    lemma DeferKeeps(before: Pipe)
      requires before.Sent(sent) && before.Ready(tail)
      ensures before.(full := true).Intact(sent, tail)
    {
    }

    /** Writes the rest of the last block and enters the final state. */
    method PrepareLast()
      requires phase == WriteMessageLength && ((Lengthening() && !full) || Overrun())
      modifies this`phase, this`tail, engine.mem, helper`fill, helper.buf
      ensures Wired() && LastReady(State()) && full == old(full)
    {
      hide *;
      Separate();
      PrepareStart();
      ghost var before := State();
      WriteLength();
      phase := ReadResult;
      if !spoiled {
        EnterLast(before);
      }
      StateFields();
      LastReadyJoin();
    }

    lemma StateFields()
      ensures State().size == engine.size && State().full == full && State().lead == lead
    {
    }

    /** Where the last step finds the digest. */
    lemma PrepareStart()
      requires (Lengthening() && !full) || Overrun()
      ensures (OnCourse() && !full && State().carry == []) || Overrun()
      ensures |Partial()| <= engine.size.Chunk() - 8 && finishedSize == |msg|
      ensures State().size == engine.size && State().full == full
      ensures spoiled ==> Partial() == []
      ensures spoiled ==>
                && full && |msg| >= engine.size.Chunk() - 1 == engine.size.Rem(|msg|)
                && State().log == Commands(lead + SpoiledBlocks(msg, engine.size, 0))
      ensures !spoiled ==>
                && |msg| <= MESSAGE_LIMIT && Partial() == tail && State().Intact(sent, tail) && !full
                && Accepted() == Marked(msg, zeros)
                && zeros < engine.size.LengthBytes() && |tail| <= engine.size.Chunk() - engine.size.LengthBytes()
    {
      hide LeadAllowed, Blocks, Commands, Holds, Flatten, Stored, BlockSize.Rem, Pipe.Block, Pipe.Sent, Pipe.Ready,
           Pipe.Intact, Zeros, Marked, LastBlock, SpoiledBlocks, Pad;
    }

    lemma LengtheningParts()
      ensures Lengthening() ==> !spoiled
    {
    }

    lemma OverrunParts()
      ensures Overrun() ==>
                && spoiled && full && finishedSize == |msg| >= engine.size.Chunk() - 1 == engine.size.Rem(|msg|)
                && State().log == Commands(lead + SpoiledBlocks(msg, engine.size, 0))
    {
    }

    lemma LastReadyJoin()
      requires Wired() && phase == ReadResult && |State().mem| == 32
      requires !spoiled ==>
                 State().Sent(sent) && State().Ready(tail) && !full && Accepted() == Pad(msg, engine.size)
      requires spoiled ==>
                 && full && |msg| >= engine.size.Chunk() - 1 == engine.size.Rem(|msg|)
                 && State().Block() == LastBlock([], |msg|, engine.size)
                 && State().log == Commands(lead + SpoiledBlocks(msg, engine.size, 0))
      ensures LastReady(State())
    {
    }

    /** `finish`, fourth step: the last block with the message length. */
    method SubmitLast() returns (blocked: bool)
      requires phase == WriteMessageLength && ((Lengthening() && !full) || Overrun())
      modifies this, engine`submitted, engine`pending, engine`log, engine.mem, helper`fill, helper.buf
      ensures msg == old(msg) && base == old(base) && lead == old(lead) && spoiled == old(spoiled)
      ensures if spoiled then Spoiled() else Reading() && full == blocked
      ensures blocked == (old(engine.pending) > 0) && (blocked ==> engine.pending < old(engine.pending))
      ensures spoiled && !blocked ==> full && engine.pending == engine.latency(old(engine.submitted))
    {
      hide *;
      OverrunParts();
      LengtheningParts();
      PrepareLast();
      ghost var before := State();
      blocked := ProcessBufferOrWait();
      LeaveLast(before, blocked);
    }

    /** The message accepted so far. */
    ghost function Message(): (m: seq<byte>)
      reads this
    {
      if phase == NotStarted then Accepted() else msg
    }

    /** Bookkeeping for a deferred block that went out after all. */
    ghost method Resumed(before: Pipe)
      requires before.full && |before.mem| == 32 && State() == before.Latched().(full := false) && Wired()
      requires before.size == engine.size && before.lead == lead
      requires !spoiled ==> before.Sent(sent) && before.Ready(tail)
      requires spoiled ==> before.Block() == LastBlock([], |msg|, engine.size) && |msg| >= engine.size.Chunk() - 1
      requires spoiled ==> before.log == Commands(lead + SpoiledBlocks(msg, engine.size, copies))
      modifies this`sent, this`tail, this`copies
      ensures spoiled ==>
                && State().Block() == LastBlock([], |msg|, engine.size)
                && State().log == Commands(lead + SpoiledBlocks(msg, engine.size, copies)) && copies == old(copies) + 1
      ensures !spoiled ==> State().Intact(sent, tail)
      ensures !spoiled ==> Accepted() == old(Accepted()) && tail == old(tail)[engine.size.Chunk()..]
    {
      hide LeadAllowed, Blocks, Holds, Flatten, Stored, BlockSize.Rem, LastBlock, SpoiledBlocks, Commands, Pipe.Sent,
           Pipe.Ready;
      if spoiled {
        SpoiledSubmit(lead, msg, engine.size, copies);
        copies := copies + 1;
      } else {
        TakeBlock(before);
      }
    }

    /** `finish`, before anything else: a deferred block must go out first. */
    method Resume() returns (blocked: bool)
      requires Valid()
      modifies this`firstRun, this`full, this`lead, this`sent, this`tail, this`copies
      modifies engine`submitted, engine`pending, engine`log
      ensures Valid() && Message() == old(Message()) && Tainted() == old(Tainted())
      ensures blocked == (old(full) && old(engine.pending) > 0) && (!blocked ==> !full)
      ensures blocked ==> engine.pending < old(engine.pending) && full
      ensures !old(full) ==> engine.pending == old(engine.pending) && engine.submitted == old(engine.submitted)
    {
      hide LeadAllowed, Blocks, Commands, Holds, Flatten, Stored, BlockSize.Rem, Pipe.Block, Pipe.Sent, Zeros, Marked,
           LastBlock, SpoiledBlocks, Pad, LeftOver;
      Separate();
      ghost var before := State();
      ghost var stale := Stale();
      Apart();
      StaleAlone();
      blocked := RetryDeferred();
      if stale {
        if !blocked {
          Lead(before);
          Reopened();
        }
      } else if old(full) && !blocked {
        Resumed(before);
      }
      StaleAlone();
    }

    lemma Reopened()
      requires phase == NotStarted && !spoiled && cursor == 0 && sent == [] && tail == [] && Wired()
      requires State().Intact(sent, tail)
      ensures Absorbing() && Accepted() == []
    {
    }

    lemma StaleAlone()
      ensures Stale() ==> full && Accepted() == [] && phase == NotStarted && !spoiled && State().log == [] && lead == []
      ensures Stale() ==> State().carry == [] && LeftOver(State().Block(), engine.size) && Wired() && cursor == 0
      ensures Stale() ==> sent == [] && tail == [] && !Stage() && Valid() && !AtRisk()
    {
      engine.size.RemZero();
    }

    /** `finish`, last step: reads the result and starts over for the next digest. */
    method ReadOut() returns (blocked: bool, ghost submissions: seq<Submission>)
      requires Valid() && phase == ReadResult && (full ==> spoiled)
      modifies this, engine`pending, helper`fill
      ensures submissions == old(State().log) && engine.log == old(engine.log)
      ensures blocked == (old(engine.pending) > 0)
      ensures blocked ==> Valid() && phase == ReadResult && full == old(full)
      ensures blocked ==> spoiled == old(spoiled) && msg == old(msg)
      ensures blocked ==> engine.pending < old(engine.pending) && base == old(base) && lead == old(lead)
      ensures blocked ==> copies == old(copies)
      ensures !blocked ==> phase == NotStarted && cursor == 0 && full == old(full) && base == |engine.log|
      ensures !blocked ==> Accepted() == [] && if full then Stale() else Absorbing() && lead == []
    {
      hide *;
      submissions := State().log;
      blocked := engine.IsBusy();
      StillValid();
      if !blocked {
        LeavesOver();
        StartOver();
      }
    }

    /** Reading the busy bit changes nothing else. */
    twostate lemma StillValid()
      requires old(Valid()) && unchanged(this) && unchanged(engine`log) && unchanged(engine.mem)
      requires unchanged(helper) && unchanged(helper.buf)
      ensures Valid() && Wired() && State() == old(State())
    {
    }

    /** A flag still set means that the length block was submitted and is still in memory. */
    lemma LeavesOver()
      requires Valid() && phase == ReadResult && (full ==> spoiled)
      ensures Wired() && (full ==> LeftOver(State().Block(), engine.size))
    {
      hide LeadAllowed, Blocks, Commands, Holds, Flatten, Stored, Pipe.Block, Pipe.Sent, LastBlock, SpoiledBlocks;
      if full {
        LengthBlockEnds(msg, engine.size);
      }
    }

    /** The reset at the end of `finish`; the deferred-block flag is not part of it. */
    method StartOver()
      requires Wired() && (full ==> LeftOver(State().Block(), engine.size))
      modifies this`firstRun, this`cursor, this`phase, this`base, this`lead, this`sent, this`tail, this`spoiled
      modifies this`copies, helper`fill
      ensures phase == NotStarted && cursor == 0 && base == |engine.log| && Accepted() == [] && Wired()
      ensures if full then Stale() else Absorbing() && lead == []
    {
      hide LeadAllowed, Commands, Holds, Flatten, Stored, BlockSize.Rem, Pipe.Block, Pipe.Ready, Pipe.Sent,
           Pipe.Intact, Blocks;
      Separate();
      ghost var before := State();
      firstRun := true;
      cursor := 0;
      helper.Reset();
      phase := NotStarted;
      base, lead, sent, tail, spoiled, copies := |engine.log|, [], [], [], false, 0;
      NoLead(engine.size);
      before.SameBlock(State());
      if !full {
        NothingSent(State());
      }
    }

    lemma NoLead(size: BlockSize)
      ensures LeadAllowed([], size)
    {
    }

    lemma NothingSent(p: Pipe)
      requires |p.mem| == 32 && p.log == [] && p.lead == [] && p.carry == [] && !p.full
      ensures p.Intact([], [])
    {
      hide *;
      p.size.RemZero();
      HoldsNothing(p.mem, []);
      NoBlocks(p.size);
      StartOrContinue([]);
      assert [] + Blocks([], p.size.Chunk()) == [];
      p.StartsIntact();
    }

    /** How far `finish` still has to go: phases, then a deferred block, then busy reads. */
    ghost function Distance(): (n: nat)
      reads this`phase
    {
      match phase
      case NotStarted => 4
      case FlushAlignBuffer => 3
      case ZeroPadAlmostFull => 2
      case WriteMessageLength => 1
      case ReadResult => 0
    }

    /** `finish` has come closer to its end than it was with distance `d`, flag `f` and `p` busy reads. */
    ghost predicate Closer(d: nat, f: bool, p: nat)
      reads this`phase, this`full, engine`pending
    {
      || Distance() < d
      || (Distance() == d && f && !full)
      || (Distance() == d && f == full && engine.pending < p)
    }

    /** What holds between two steps of `finish`. */
    ghost predicate Stage()
      reads this, engine, engine.mem, helper, helper.buf
    {
      match phase
      case NotStarted => Absorbing()
      case FlushAlignBuffer => Flushing() || Overrun()
      case ZeroPadAlmostFull => Zeroing() || Overrun()
      case WriteMessageLength => Lengthening() || Overrun()
      case ReadResult => Reading() || Spoiled()
    }

    lemma StageIsValid()
      ensures Valid() && !Stale() <==> Stage() && phase != FlushAlignBuffer && (spoiled ==> phase == ReadResult)
      ensures phase == FlushAlignBuffer && Stage() && full ==> spoiled
      ensures phase == NotStarted && Stage() ==> !spoiled
      ensures Stale() ==> full && Valid()
      ensures Tainted() <==> lead != [] || Stale()
    {
      Apart();
    }

    /** One padding step, if the digest is at it. */
    method StepFlush() returns (blocked: bool)
      requires Stage() && phase != NotStarted && (full ==> spoiled)
      modifies this, engine`submitted, engine`pending, engine`log, engine.mem, helper`fill, helper.buf
      ensures Stage() && msg == old(msg) && base == old(base) && lead == old(lead) && spoiled == old(spoiled)
      ensures phase == if old(phase) == FlushAlignBuffer then ZeroPadAlmostFull else old(phase)
      ensures (full ==> blocked || spoiled) && (blocked ==> Valid() && Distance() < old(Distance()))
      ensures old(phase) != FlushAlignBuffer ==> full == old(full) && !blocked
      ensures old(phase) != FlushAlignBuffer || spoiled ==>
                !blocked && engine.pending == old(engine.pending) && engine.submitted == old(engine.submitted)
    {
      hide *;
      blocked := false;
      StageSplit();
      if phase == FlushAlignBuffer {
        blocked := FlushCarried();
        StageJoin();
        StageIsValid();
      }
    }

    method StepZeroPad() returns (blocked: bool)
      requires Stage() && phase != NotStarted && phase != FlushAlignBuffer && (full ==> spoiled)
      modifies this, engine`submitted, engine`pending, engine`log, engine.mem, helper`fill, helper.buf
      ensures Stage() && msg == old(msg) && base == old(base) && lead == old(lead) && spoiled == old(spoiled)
      ensures phase == if old(phase) == ZeroPadAlmostFull then WriteMessageLength else old(phase)
      ensures (full ==> blocked || spoiled) && (blocked ==> Valid() && Distance() < old(Distance()))
      ensures old(phase) != ZeroPadAlmostFull ==> full == old(full) && !blocked
      ensures old(phase) != ZeroPadAlmostFull || spoiled ==>
                !blocked && engine.pending == old(engine.pending) && engine.submitted == old(engine.submitted)
    {
      hide *;
      blocked := false;
      StageSplit();
      if phase == ZeroPadAlmostFull {
        blocked := ZeroPad();
        StageJoin();
        StageIsValid();
      }
    }

    method StepLength() returns (blocked: bool)
      requires Stage() && (phase == WriteMessageLength || phase == ReadResult) && (full ==> spoiled)
      modifies this, engine`submitted, engine`pending, engine`log, engine.mem, helper`fill, helper.buf
      ensures Stage() && msg == old(msg) && base == old(base) && lead == old(lead) && spoiled == old(spoiled)
      ensures phase == ReadResult
      ensures (full ==> blocked || spoiled) && (blocked ==> Valid() && Distance() < old(Distance()))
      ensures old(phase) == ReadResult ==> full == old(full) && engine.pending == old(engine.pending)
      ensures old(phase) == WriteMessageLength && spoiled ==> blocked == (old(engine.pending) > 0)
      ensures old(phase) == WriteMessageLength && spoiled && !blocked ==>
                full && engine.pending == engine.latency(old(engine.submitted))
    {
      hide *;
      blocked := false;
      StageSplit();
      if phase == WriteMessageLength {
        blocked := SubmitLast();
        StageJoin();
        StageIsValid();
      }
    }

    lemma StageSplit()
      requires Stage() && (full ==> spoiled)
      ensures phase == FlushAlignBuffer ==> Flushing() || Overrun()
      ensures phase == ZeroPadAlmostFull ==> (Zeroing() && !full) || Overrun()
      ensures phase == WriteMessageLength ==> (Lengthening() && !full) || Overrun()
      ensures phase == FlushAlignBuffer ==> Distance() == 3
      ensures phase == ZeroPadAlmostFull ==> Distance() == 2
      ensures phase == WriteMessageLength ==> Distance() == 1
    {
    }

    lemma StageJoin()
      ensures Zeroing() || (Overrun() && phase == ZeroPadAlmostFull) ==>
                Stage() && phase == ZeroPadAlmostFull && Distance() == 2
      ensures Lengthening() || (Overrun() && phase == WriteMessageLength) ==>
                Stage() && phase == WriteMessageLength && Distance() == 1
      ensures Reading() || Spoiled() ==> Stage() && phase == ReadResult && Distance() == 0
    {
    }

    /** The padding steps of `finish`, in order. */
    method PadOut() returns (blocked: bool)
      requires Stage() && phase != NotStarted && (full ==> spoiled)
      modifies this, engine`submitted, engine`pending, engine`log, engine.mem, helper`fill, helper.buf
      ensures Valid() && msg == old(msg) && base == old(base) && lead == old(lead) && spoiled == old(spoiled)
      ensures if blocked then phase != NotStarted && Distance() < old(Distance())
              else phase == ReadResult && (full ==> spoiled)
      ensures !blocked && old(phase) == ReadResult ==> full == old(full) && engine.pending == old(engine.pending)
      ensures old(phase) != ReadResult && spoiled ==> blocked == (old(engine.pending) > 0)
      ensures old(phase) != ReadResult && spoiled && !blocked ==>
                full && engine.pending == engine.latency(old(engine.submitted))
    {
      hide *;
      Distances();
      blocked := StepFlush();
      Distances();
      if !blocked {
        blocked := StepZeroPad();
        Distances();
      }
      if !blocked {
        blocked := StepLength();
        Distances();
      }
      StageIsValid();
    }

    lemma Distances()
      ensures Distance() == match phase
                            case NotStarted => 4
                            case FlushAlignBuffer => 3
                            case ZeroPadAlmostFull => 2
                            case WriteMessageLength => 1
                            case ReadResult => 0
    {
    }

    /** Everything the padded message needs was submitted, behind what was left over if anything. */
    lemma ReadingIsComplete()
      requires Reading() && !full
      ensures State().log == Commands(lead + Blocks(Pad(msg, engine.size), engine.size.Chunk()))
    {
      hide LeadAllowed, Blocks, Commands, Holds, Flatten, Stored, Pipe.Block, Pad, BlockSize.Rem;
      State().CursorInBlock(sent, tail);
      PadIsWhole(msg);
      assert tail == [];
      assert sent + tail == sent;
    }

    lemma PadIsWhole(m: seq<byte>)
      ensures engine.size.Rem(|Pad(m, engine.size)|) == 0
    {
    }

    lemma SpoiledParts()
      requires Spoiled()
      ensures spoiled && Wired() && |msg| >= engine.size.Chunk() - 1 == engine.size.Rem(|msg|)
      ensures State().log == Commands(lead + SpoiledBlocks(msg, engine.size, copies))
    {
    }

    lemma LeadParts()
      requires Wired()
      ensures lead == [] || (lead == [lead[0]] && LeftOver(lead[0], engine.size))
    {
    }

    /** With an overrun behind it the digest never shows the padded message's submissions. */
    lemma SpoiledIsIncomplete()
      requires Spoiled()
      ensures State().log != Commands(Blocks(Pad(msg, engine.size), engine.size.Chunk()))
    {
      hide *;
      SpoiledParts();
      LeadParts();
      if lead == [] {
        SpoiledIsWrong(msg, engine.size, copies);
        assert lead + SpoiledBlocks(msg, engine.size, copies) == SpoiledBlocks(msg, engine.size, copies);
      } else {
        LeadAndSpoiledIsWrong(lead[0], msg, engine.size, copies);
      }
    }

    lemma ReadingIsRight()
      requires Reading() && !full
      ensures State().log == Commands(Blocks(Pad(msg, engine.size), engine.size.Chunk())) <==> lead == []
    {
      hide *;
      ReadingIsComplete();
      ReadingParts();
      LeadParts();
      if lead == [] {
        var blocks := Blocks(Pad(msg, engine.size), engine.size.Chunk());
        assert [] + blocks == blocks;
      } else {
        LeadIsWrong(lead[0], msg, engine.size);
      }
    }

    lemma ReadingParts()
      requires Reading()
      ensures Wired() && !spoiled
    {
    }

    lemma Verdict()
      requires Valid() && phase == ReadResult && (full ==> spoiled)
      ensures State().log == Commands(Blocks(Pad(msg, engine.size), engine.size.Chunk())) <==> !spoiled && lead == []
    {
      hide *;
      LastStage();
      if spoiled {
        SpoiledIsIncomplete();
      } else {
        ReadingIsRight();
      }
    }

    lemma LastStage()
      requires Valid() && phase == ReadResult && (full ==> spoiled)
      ensures if spoiled then Spoiled() else Reading() && !full
    {
    }

    /** The 0x80 byte is about to complete a block that a busy engine cannot take. */
    ghost predicate AtRisk()
      reads this, engine`pending
    {
      phase == NotStarted && engine.size.Rem(|Accepted()|) == engine.size.Chunk() - 1 && engine.pending > 0
    }

    /**
     * Losing the block will leave the flag set: the length block is taken at once and is done by the time the result
     * is read.
     */
    ghost predicate LeavesBlock()
      reads this, engine`pending, engine`submitted
    {
      AtRisk() && engine.pending == 1 && engine.latency(engine.submitted) == 0
    }

    lemma LeavesMeans()
      ensures LeavesBlock() <==> AtRisk() && engine.pending == 1 && engine.latency(engine.submitted) == 0
      ensures AtRisk() ==> phase == NotStarted && engine.pending > 0
    {
    }

    lemma DeferredIsEarly()
      requires Open() && full
      ensures engine.size.Rem(|Accepted()|) < engine.size.Chunk() - 1 && !AtRisk()
    {
      if Stale() {
        engine.size.RemZero();
      } else {
        State().CursorInBlock(sent, tail);
      }
    }

    /** `finish` from the appended bit to the last block. */
    method PadMessage() returns (blocked: bool)
      requires Valid() && !full
      modifies this, engine`submitted, engine`pending, engine`log, engine.mem, helper`fill, helper.buf
      ensures Valid() && msg == old(Message()) && base == old(base) && lead == old(lead)
      ensures spoiled == (old(spoiled) || old(AtRisk()))
      ensures if blocked then phase != NotStarted && Distance() < old(Distance())
              else phase == ReadResult && (full ==> spoiled)
      ensures !blocked && old(phase) == ReadResult ==> full == old(full) && engine.pending == old(engine.pending)
      ensures old(AtRisk()) ==> blocked == (old(engine.pending) > 1)
      ensures old(AtRisk()) && !blocked ==> full && engine.pending == engine.latency(old(engine.submitted))
      ensures !old(AtRisk()) && !blocked ==> !full
    {
      hide *;
      Distances();
      StageIsValid();
      MessageSplit();
      if phase == NotStarted {
        AppendOne();
        AppendedStage();
        Distances();
      }
      blocked := PadOut();
    }

    lemma MessageSplit()
      ensures phase == NotStarted ==> Message() == Accepted() && (Stage() ==> Absorbing())
      ensures phase == NotStarted && Valid() ==> Open()
      ensures Tainted() <==> lead != [] || Stale()
      ensures Stale() ==> full && phase == NotStarted && lead == []
      ensures Open() && !full ==> Absorbing()
      ensures phase != NotStarted ==> Message() == msg && !AtRisk()
      ensures AtRisk() <==> phase == NotStarted && engine.size.Rem(|Accepted()|) == engine.size.Chunk() - 1
                            && engine.pending > 0
    {
    }

    lemma AppendedStage()
      requires phase == FlushAlignBuffer && if spoiled then Overrun() else Flushing()
      ensures Stage() && (full ==> spoiled)
    {
    }

    /**
     * `finish`: `done` is false while the engine is busy, and the call is then to be repeated. The blocks submitted for
     * the digest are those of the padded message if and only if no call found it at risk and none was left over when
     * it began. When it is done, a set flag means that a block is left over for the next digest.
     */
    method Finish() returns (done: bool, ghost submissions: seq<Submission>, ghost lost: bool)
      requires Valid()
      modifies this, engine`submitted, engine`pending, engine`log, engine.mem, helper`fill, helper.buf
      ensures lost == (old(spoiled) || old(AtRisk()) || old(Tainted()))
      ensures !done ==> Valid() && Message() == old(Message()) && base == old(base)
      ensures !done ==> spoiled == (old(spoiled) || old(AtRisk())) && Tainted() == old(Tainted())
      ensures !done ==> Closer(old(Distance()), old(full), old(engine.pending))
      ensures !done ==> !AtRisk()
      ensures done ==> submissions == Since(old(base)) && base == |engine.log|
      ensures done ==>
                (submissions == Commands(Blocks(Pad(old(Message()), engine.size), engine.size.Chunk())) <==> !lost)
      ensures done ==> Accepted() == [] && if full then Stale() else Absorbing() && lead == []
      ensures done && full <==> old(LeavesBlock())
    {
      hide *;
      LeavesMeans();
      lost := spoiled || AtRisk() || Tainted();
      done, submissions := false, [];
      Distances();
      MessageSplit();
      StageIsValid();
      if phase == NotStarted && full {
        DeferredIsEarly();
      }
      var blocked := Resume();
      MessageSplit();
      if !blocked {
        blocked := PadMessage();
        MessageSplit();
        StageIsValid();
      }
      if !blocked {
        Verdict();
        StateLog();
        blocked, submissions := ReadOut();
        MessageSplit();
        done := !blocked;
      }
      CloserMeans(old(Distance()), old(full), old(engine.pending));
      Distances();
    }

    lemma CloserMeans(d: nat, f: bool, p: nat)
      ensures Closer(d, f, p) <==>
                || Distance() < d
                || (Distance() == d && f && !full)
                || (Distance() == d && f == full && engine.pending < p)
    {
    }

    /** The submissions from position `from` on. */
    ghost function Since(from: nat): (s: seq<Submission>)
      reads engine`log
    {
      if from <= |engine.log| then engine.log[from..] else []
    }

    lemma StateLog()
      ensures State().log == Since(base)
    {
    }

    /** `digest::Update`: feeds a whole piece, waiting for the engine and refeeding the rest. */
    method Absorb(piece: seq<byte>)
      requires (Open() || Interrupted()) && |Accepted()| + |piece| <= MESSAGE_LIMIT
      modifies this, engine`submitted, engine`pending, engine`log, engine.mem, helper`fill, helper.buf
      ensures if piece == [] then Open() == old(Open()) && Interrupted() == old(Interrupted()) else Open()
      ensures Tainted() == old(Tainted()) && Accepted() == old(Accepted()) + piece && base == old(base)
    {
      hide *;
      var remaining := piece;
      ghost var fed: nat := 0;
      FedNothing(old(Accepted()), piece);
      while remaining != []
        invariant Open() || (fed == 0 && Interrupted())
        invariant piece == [] ==> Open() == old(Open()) && Interrupted() == old(Interrupted())
        invariant Tainted() == old(Tainted()) && base == old(base) && fed <= |piece|
        invariant remaining == piece[fed..] && Accepted() == old(Accepted()) + piece[..fed]
        decreases |remaining|, engine.pending
      {
        var blocked;
        ghost var n;
        remaining, blocked, n := Update(remaining);
        FedMore(old(Accepted()), piece, fed, n);
        fed := fed + n;
      }
    }

    lemma InterruptedMeans()
      requires Interrupted()
      ensures Accepted() == Marked(msg, zeros)
    {
    }

    lemma RiskMeans()
      ensures AtRisk() ==> engine.size.Rem(|Accepted()|) == engine.size.Chunk() - 1
    {
    }

    lemma EnterValid()
      requires Open()
      ensures Valid() && !spoiled && phase == NotStarted
    {
    }

    /** `digest::FixedOutput`: repeats `finish` until it is done. */
    method Finalize() returns (ghost submissions: seq<Submission>, ghost lost: bool)
      requires Valid()
      modifies this, engine`submitted, engine`pending, engine`log, engine.mem, helper`fill, helper.buf
      ensures lost == (old(spoiled) || old(AtRisk()) || old(Tainted()))
      ensures submissions == Since(old(base)) && base == |engine.log|
      ensures submissions == Commands(Blocks(Pad(old(Message()), engine.size), engine.size.Chunk())) <==> !lost
      ensures Accepted() == [] && if full then Stale() else Absorbing() && lead == []
      ensures full <==> old(LeavesBlock())
    {
      hide *;
      LeavesMeans();
      ghost var leaves := LeavesBlock();
      MessageSplit();
      ghost var m := Message();
      lost := spoiled || AtRisk() || Tainted();
      var done := false;
      submissions := [];
      while !done
        invariant !done ==> Valid() && Message() == m && base == old(base)
        invariant !done ==> (spoiled || AtRisk() || Tainted()) == lost
        invariant done ==> submissions == Since(old(base)) && base == |engine.log|
        invariant done ==> (submissions == Commands(Blocks(Pad(m, engine.size), engine.size.Chunk())) <==> !lost)
        invariant done ==> Accepted() == [] && if full then Stale() else Absorbing() && lead == []
        invariant if done then full == leaves else LeavesBlock() == leaves
        decreases if done then 0 else 1, Distance(), if full then 1 else 0, engine.pending
      {
        ghost var d, f, p := Distance(), full, engine.pending;
        ghost var risk;
        done, submissions, risk := Finish();
        CloserMeans(d, f, p);
        MessageSplit();
        LeavesMeans();
      }
    }

    lemma Enter()
      ensures if full then Stale() ==> Open() && lead == [] else Absorbing() ==> Open()
    {
    }

    /** Before the first byte, nothing was submitted ahead of the message exactly if the first run is still to come. */
    lemma StartsClean()
      ensures Open() && Accepted() == [] ==> (firstRun <==> lead == [])
    {
      hide LeadAllowed, Commands, Holds, Flatten, Stored, BlockSize.Rem, Pipe.Block, Pipe.Ready, LeftOver;
      if Open() && Accepted() == [] && !Stale() {
        assert |sent| + |tail| == |Accepted()| == 0;
        assert lead + Blocks([], engine.size.Chunk()) == lead;
        StartOrContinue(lead);
      }
    }

    lemma EnterOpen()
      requires Absorbing()
      ensures Open()
    {
    }

    /** Between two digests, the flag tells whether the next one is tainted. */
    lemma FlagTells()
      requires Open() && Accepted() == []
      ensures full <==> Stale()
    {
      Apart();
    }
  }

  lemma FedNothing(before: seq<byte>, piece: seq<byte>)
    ensures before + piece[..0] == before && piece[0..] == piece && before + piece[..|piece|] == before + piece
  {
  }

  lemma FedMore(before: seq<byte>, piece: seq<byte>, fed: nat, n: nat)
    requires fed + n <= |piece|
    ensures before + piece[..fed] + piece[fed..][..n] == before + piece[..fed + n]
    ensures piece[fed..][n..] == piece[fed + n..]
  {
    assert piece[..fed] + piece[fed..][..n] == piece[..fed + n];
  }

  /**
   * A whole digest, on a new object or one that was used before: for every message, every split of it into pieces
   * and every busy pattern, the engine receives the blocks of the padded message, each once, in order and rightly
   * commanded, unless `finish` loses a block or the digest before left one behind. `finish` loses one only of a message
   * that ends one byte before a block boundary; a block left behind shows in the flag before the first byte.
   */
  method Hash(digest: ShaDigest, pieces: seq<seq<byte>>) returns (ghost submissions: seq<Submission>, ghost lost: bool)
    requires digest.Open() && digest.Accepted() == [] && digest.firstRun && |Concat(pieces)| <= MESSAGE_LIMIT
    modifies digest, digest.engine`submitted, digest.engine`pending, digest.engine`log, digest.engine.mem
    modifies digest.helper`fill, digest.helper.buf
    ensures submissions == digest.Since(old(digest.base))
    ensures var m, size := Concat(pieces), digest.engine.size;
            && (submissions == Commands(Blocks(Pad(m, size), size.Chunk())) <==> !lost)
            && (old(digest.full) ==> lost)
            && (lost ==> old(digest.full) || size.Rem(|m|) == size.Chunk() - 1)
    ensures digest.Open() && digest.Accepted() == [] && digest.firstRun
  {
    hide *;
    ConcatStart(pieces);
    digest.MessageSplit();
    digest.FlagTells();
    digest.StartsClean();
    for i := 0 to |pieces|
      invariant digest.Open() && digest.Tainted() == old(digest.full) && digest.base == old(digest.base)
      invariant digest.Accepted() == Concat(pieces[..i])
    {
      ConcatStep(pieces, i);
      digest.Absorb(pieces[i]);
    }
    assert pieces[..|pieces|] == pieces;
    digest.RiskMeans();
    digest.EnterValid();
    digest.MessageSplit();
    submissions, lost := digest.Finalize();
    digest.Enter();
    digest.StartsClean();
  }

  /**
   * More data between a `finish` that was blocked while padding and its repetition: what is digested is the message
   * with its padding so far and the data behind that, never the message and the data.
   */
  method UpdateBetween(digest: ShaDigest, piece: seq<byte>)
    returns (ghost submissions: seq<Submission>, ghost lost: bool)
    requires digest.Interrupted() && piece != [] && |digest.Accepted()| + |piece| <= MESSAGE_LIMIT
    modifies digest, digest.engine`submitted, digest.engine`pending, digest.engine`log, digest.engine.mem
    modifies digest.helper`fill, digest.helper.buf
    ensures submissions == digest.Since(old(digest.base))
    ensures var m, size := Marked(old(digest.msg), old(digest.zeros)) + piece, digest.engine.size;
            && (submissions == Commands(Blocks(Pad(m, size), size.Chunk())) <==> !lost)
            && (!lost ==> submissions != Commands(Blocks(Pad(old(digest.msg) + piece, size), size.Chunk())))
  {
    hide *;
    digest.InterruptedMeans();
    digest.Absorb(piece);
    digest.EnterValid();
    digest.MessageSplit();
    submissions, lost := digest.Finalize();
    var size := digest.engine.size;
    MarkedLonger(old(digest.msg), old(digest.zeros), piece);
    SubmissionsTell(Marked(old(digest.msg), old(digest.zeros)) + piece, old(digest.msg) + piece, size);
  }

  lemma MarkedLonger(m: seq<byte>, z: nat, piece: seq<byte>)
    ensures |Marked(m, z) + piece| > |m + piece|
  {
  }

  /** A new digest of 63 zero bytes, not yet finished, on an engine that is busy for one more poll. */
  method DigestAtRisk() returns (digest: ShaDigest)
    ensures fresh(digest) && fresh(digest.engine) && fresh(digest.engine.mem) && fresh(digest.helper)
    ensures fresh(digest.helper.buf) && digest.engine.size == Bits512
    ensures digest.Open() && digest.Accepted() == Zeros(63) && digest.AtRisk() && digest.LeavesBlock()
  {
    hide *;
    ShortMessage();
    var mem := new word[32](_ => Word(0, 0, 0, 0));
    var engine := new ShaEngine(Bits512, mem, _ => 0, 1);
    digest := new ShaDigest(engine);
    var remaining, blocked;
    ghost var n;
    digest.EnterOpen();
    remaining, blocked, n := digest.Update(Zeros(63));
    assert Zeros(63)[..63] == Zeros(63) && [] + Zeros(63) == Zeros(63);
    digest.EnterValid();
    digest.MessageSplit();
    digest.LeavesMeans();
    engine.size.RemSmall(63);
  }

  /** The block is really lost. */
  method LostBlock() returns (ghost submissions: seq<Submission>)
    ensures submissions != Commands(Blocks(Pad(Zeros(63), Bits512), 64))
  {
    hide *;
    ShortMessage();
    var digest := DigestAtRisk();
    digest.EnterValid();
    digest.MessageSplit();
    ghost var lost;
    submissions, lost := digest.Finalize();
  }

  /** And it spoils the next digest on the same object too, whatever its message. */
  method LeftOverBlock(pieces: seq<seq<byte>>) returns (ghost submissions: seq<Submission>)
    requires |Concat(pieces)| <= MESSAGE_LIMIT
    ensures submissions != Commands(Blocks(Pad(Concat(pieces), Bits512), 64))
  {
    hide *;
    ShortMessage();
    var digest := DigestAtRisk();
    digest.EnterValid();
    digest.MessageSplit();
    ghost var lost;
    submissions, lost := digest.Finalize();
    digest.Enter();
    digest.StartsClean();
    submissions, lost := Hash(digest, pieces);
  }

  lemma ShortMessage()
    ensures Bits512.Chunk() == 64 && 63 <= MESSAGE_LIMIT
  {
  }
}
