/** The SHA peripheral and what its driver has fed it so far. */
module Accelerator {
  import opened Words
  import opened RegAccess
  import opened Fips180
  import opened Padding
  import Arith

  datatype Command = Start | Continue

  /** One block as the engine latched it from message memory. */
  datatype Submission = Submission(command: Command, block: seq<byte>)

  /** The only correct way to submit blocks: the first starts, the others continue. */
  function Commands(blocks: seq<seq<byte>>): (s: seq<Submission>)
    ensures |s| == |blocks|
  {
    seq(|blocks|, i requires 0 <= i < |blocks| => Submission(if i == 0 then Start else Continue, blocks[i]))
  }

  lemma CommandsAppend(blocks: seq<seq<byte>>, block: seq<byte>)
    ensures Commands(blocks + [block]) == Commands(blocks) + [Submission(if blocks == [] then Start else Continue,
            block)]
  {
  }

  lemma StartOrContinue(blocks: seq<seq<byte>>)
    ensures Commands(blocks) == [] <==> blocks == []
  {
  }

  lemma CommandsInjective(a: seq<seq<byte>>, b: seq<seq<byte>>)
    requires Commands(a) == Commands(b)
    ensures a == b
  {
    forall i | 0 <= i < |a|
      ensures a[i] == b[i]
    {
      assert Commands(a)[i] == Commands(b)[i];
    }
  }

  /** What the right submissions for a message are: its padding in pieces of 64 or 128 bytes, the first by start. */
  lemma SubmissionsAre(m: seq<byte>, size: BlockSize)
    ensures var c, p := if size.Bits512? then 64 else 128, Pad(m, size);
            var s := Commands(Blocks(p, size.Chunk()));
            && c * |s| == |p| && s != [] && s[0].command == Start
            && (forall i :: 1 <= i < |s| ==> s[i].command == Continue)
            && (forall i :: 0 <= i < |s| ==> c * i + c <= |p| && s[i].block == p[c * i..c * i + c])
  {
    hide Blocks, Pad, BlockSize.Rem;
    BlocksAre(Pad(m, size), size);
    PadParts(m, size);
  }

  /** The right submissions for one message are those for no other. */
  lemma SubmissionsTell(a: seq<byte>, b: seq<byte>, size: BlockSize)
    requires |a| <= MESSAGE_LIMIT && |b| <= MESSAGE_LIMIT
    ensures Commands(Blocks(Pad(a, size), size.Chunk())) == Commands(Blocks(Pad(b, size), size.Chunk())) <==> a == b
  {
    hide Commands, Blocks, Pad, Pow256, BlockSize.Rem;
    if Commands(Blocks(Pad(a, size), size.Chunk())) == Commands(Blocks(Pad(b, size), size.Chunk())) {
      CommandsInjective(Blocks(Pad(a, size), size.Chunk()), Blocks(Pad(b, size), size.Chunk()));
      BlocksConcat(Pad(a, size), size);
      BlocksConcat(Pad(b, size), size);
      LimitFitsLength(|a|);
      LimitFitsLength(|b|);
      PadTells(a, b, size);
    }
  }

  /**
   * The peripheral. Submission `i` keeps it busy for `latency(i)` further reads of the busy bit, so
   * `latency` stands for every possible busy pattern. Message memory may be written at any time.
   */
  class ShaEngine {
    const size: BlockSize
    const mem: array<word>
    const latency: nat -> nat
    var submitted: nat
    var pending: nat
    ghost var log: seq<Submission>

    constructor (size: BlockSize, mem: array<word>, latency: nat -> nat, pending: nat)
      requires mem.Length == 32
      ensures this.size == size && this.mem == mem && this.latency == latency
      ensures this.pending == pending && submitted == 0 && log == []
    {
      this.size := size;
      this.mem := mem;
      this.latency := latency;
      this.pending := pending;
      submitted := 0;
      log := [];
    }

    method IsBusy() returns (busy: bool)
      modifies this`pending
      ensures busy == (old(pending) > 0)
      ensures pending == if busy then old(pending) - 1 else 0
    {
      busy := pending > 0;
      if busy {
        pending := pending - 1;
      }
    }

    /** Latches the block in memory; the caller must have seen the engine idle. */
    method Submit(command: Command)
      requires pending == 0 && mem.Length == 32
      modifies this`submitted, this`pending, this`log
      ensures log == old(log) + [Submission(command, Flatten(mem[..size.BlockWords()]))]
      ensures submitted == old(submitted) + 1 && pending == latency(old(submitted))
    {
      log := log + [Submission(command, Flatten(mem[..size.BlockWords()]))];
      pending := latency(submitted);
      submitted := submitted + 1;
    }
  }

  lemma NoBlocks(size: BlockSize)
    ensures Blocks([], size.Chunk()) == []
  {
  }

  /** A block that an earlier digest left behind: its length block, which ends in 0xF8. */
  predicate LeftOver(b: seq<byte>, size: BlockSize) {
    |b| == size.Chunk() && b[size.Chunk() - 1] == 0xF8
  }

  /** What a digest may have submitted ahead of its message: nothing, or one block left over. */
  predicate LeadAllowed(lead: seq<seq<byte>>, size: BlockSize) {
    |lead| <= 1 && forall b <- lead :: LeftOver(b, size)
  }

  /**
   * What a digest in progress looks like from outside the code: submissions, memory, carry, flag. `lead` holds what
   * was submitted ahead of the message: nothing, or one left-over block.
   */
  datatype Pipe = Pipe(
    size: BlockSize, lead: seq<seq<byte>>, log: seq<Submission>, mem: seq<word>, carry: seq<byte>, full: bool)
  {
    /** The block in message memory. */
    function Block(): (b: seq<byte>)
      requires |mem| == 32
      ensures |b| == size.Chunk()
    {
      Flatten(mem[..size.BlockWords()])
    }

    lemma SameBlock(p: Pipe)
      requires |mem| == 32 && p.mem == mem && p.size == size
      ensures p.Block() == Block()
    {
    }

    /** The state once the block in memory has been submitted. */
    function Latched(): (p: Pipe)
      requires |mem| == 32
    {
      this.(log := log + [Submission(if log == [] then Start else Continue, Block())])
    }

    /** `sent` was submitted behind `lead`, block by block and in order. */
    ghost predicate Sent(sent: seq<byte>) {
      |mem| == 32 && size.Rem(|sent|) == 0 && log == Commands(lead + Blocks(sent, size.Chunk()))
    }

    /** Memory holds the first block of `tail` and the carry the rest. */
    ghost predicate Ready(tail: seq<byte>) {
      && |mem| == 32 && size.Chunk() <= |tail| < size.Chunk() + 4
      && Block() == tail[..size.Chunk()] && carry == tail[size.Chunk()..]
    }

    /** Every byte of `sent + tail` is in a submitted block, in memory, or in the carry. */
    ghost predicate Intact(sent: seq<byte>, tail: seq<byte>) {
      Sent(sent) && if full then Ready(tail) else |tail| < size.Chunk() && Stored(mem, carry, tail)
    }

    /** Submitting a block that completes `sent + b`. */
    lemma SendKeeps(sent: seq<byte>, b: seq<byte>)
      requires Sent(sent) && |b| == size.Chunk() && Block() == b
      ensures Latched().Sent(sent + b)
    {
      hide Blocks, Commands, Flatten, BlockSize.Rem;
      var c := size.Chunk();
      BlocksAppend(sent, b, c);
      CommandsAppend(lead + Blocks(sent, c), b);
      StartOrContinue(lead + Blocks(sent, c));
      assert lead + Blocks(sent, c) + [b] == lead + (Blocks(sent, c) + [b]);
      size.RemAdd(|sent|, c);
      size.RemSmall(c);
    }

    /** Submitting a complete block keeps everything accounted for. */
    lemma LatchKeeps(sent: seq<byte>, tail: seq<byte>)
      requires Sent(sent) && Ready(tail)
      ensures var c := size.Chunk();
              && Latched().(full := false).Intact(sent + tail[..c], tail[c..])
              && sent + tail[..c] + tail[c..] == sent + tail
    {
      hide Blocks, Commands, Holds, Flatten, Stored, BlockSize.Rem, Sent;
      var c := size.Chunk();
      SendKeeps(sent, tail[..c]);
      Unflagged(Latched(), sent + tail[..c]);
      HoldsNothing(mem, tail[c..]);
      Rejoin(sent, tail, c);
    }

    static lemma Unflagged(p: Pipe, sent: seq<byte>)
      requires p.Sent(sent)
      ensures p.(full := false).Sent(sent)
    {
    }

    lemma StartsIntact()
      requires |mem| == 32 && !full && size.Rem(0) == 0 && log == Commands(lead + Blocks([], size.Chunk()))
      requires Stored(mem, carry, [])
      ensures Intact([], [])
    {
      hide Stored, Commands, Blocks, BlockSize.Rem, Ready;
    }

    /** A left-over block goes out ahead of a message of which nothing was accepted yet. */
    lemma LeadsIn()
      requires |mem| == 32 && log == [] && carry == []
      ensures Latched().(full := false, lead := [Block()]).Intact([], [])
    {
      hide Holds, Flatten, Stored, Block, BlockSize.Rem, Blocks, Commands;
      size.RemZero();
      NoBlocks(size);
      HoldsNothing(mem, []);
      CommandsAppend([], Block());
      StartOrContinue([]);
      assert [] + [Block()] == [Block()] == [Block()] + [];
      Latched().(full := false, lead := [Block()]).StartsIntact();
    }

    /** A copy up to the block end leaves either a longer tail or a complete block. */
    lemma CopyKeeps(sent: seq<byte>, tail: seq<byte>, after: Pipe, t: seq<byte>)
      requires Intact(sent, tail) && !full
      requires after == this.(mem := after.mem, carry := after.carry) && |after.mem| == 32
      requires |t| < size.Chunk() + 4 && Copied(after.mem, after.carry, t, size.Chunk())
      ensures after.Sent(sent)
      ensures if |t| < size.Chunk() then after.Intact(sent, t)
              else after.Ready(t) && after.(full := true).Intact(sent, t)
    {
      if |t| >= size.Chunk() {
        HoldsBlock(after.mem, t, size);
      }
    }

    /** The 0x80 byte completed a block and had to wait: only it and the block before it are unsent. */
    lemma Overtaken(sent: seq<byte>, tail: seq<byte>, m: seq<byte>)
      requires Intact(sent, tail) && full && sent + tail == m + [0x80] && size.Rem(|m|) == size.Chunk() - 1
      ensures |m| >= size.Chunk() - 1 && carry == [] && log == Commands(lead + SpoiledBlocks(m, size, 0))
    {
      hide Blocks, Commands, Flatten, Holds, BlockSize.Rem, Block;
      var c := size.Chunk();
      assert |sent| + |tail| == |sent + tail| == |m + [0x80]| == |m| + 1;
      OvertakenTail(|sent|, |tail|, |m|);
      assert sent == (sent + tail)[..|sent|] == (m + [0x80])[..|sent|] == m[..|m| - (c - 1)];
      assert Blocks(sent, c) + [] == Blocks(sent, c);
    }

    lemma OvertakenTail(sent: nat, tail: nat, m: nat)
      requires size.Rem(sent) == 0 && size.Chunk() <= tail < size.Chunk() + 4 && sent + tail == m + 1
      requires size.Rem(m) == size.Chunk() - 1
      ensures m >= size.Chunk() - 1 && tail == size.Chunk()
    {
      size.RemAdd(sent, tail);
      size.RemSmall(tail);
      size.RemSmall(m);
    }

    /** Where the cursor stands in the block. */
    lemma CursorInBlock(sent: seq<byte>, tail: seq<byte>)
      requires Intact(sent, tail)
      ensures size.Rem(|sent + tail|) == if full then |tail| - size.Chunk() else |tail|
    {
      size.RemAdd(|sent|, |tail|);
      size.RemSmall(|tail|);
    }
  }

  /** The blocks a spoiled digest submits: the one that was waiting is missing. */
  function SpoiledBlocks(m: seq<byte>, size: BlockSize, copies: nat): (bs: seq<seq<byte>>)
    requires |m| >= size.Chunk() - 1
  {
    Blocks(m[..|m| - (size.Chunk() - 1)], size.Chunk()) + seq(copies, _ => LastBlock([], |m|, size))
  }

  lemma SpoiledAppend(m: seq<byte>, size: BlockSize, copies: nat)
    requires |m| >= size.Chunk() - 1
    ensures SpoiledBlocks(m, size, copies + 1) == SpoiledBlocks(m, size, copies) + [LastBlock([], |m|, size)]
  {
    var l := LastBlock([], |m|, size);
    assert seq(copies + 1, _ => l) == seq(copies, _ => l) + [l];
  }

  /** What submitting the length block once more does to the submissions. */
  lemma SpoiledSubmit(lead: seq<seq<byte>>, m: seq<byte>, size: BlockSize, copies: nat)
    requires |m| >= size.Chunk() - 1
    ensures var log := Commands(lead + SpoiledBlocks(m, size, copies));
            Commands(lead + SpoiledBlocks(m, size, copies + 1))
            == log + [Submission(if log == [] then Start else Continue, LastBlock([], |m|, size))]
  {
    hide SpoiledBlocks, LastBlock;
    var bs, l := lead + SpoiledBlocks(m, size, copies), LastBlock([], |m|, size);
    SpoiledAppend(m, size, copies);
    assert lead + SpoiledBlocks(m, size, copies + 1) == bs + [l];
    CommandsAppend(bs, l);
    StartOrContinue(bs);
  }

  /** Losing a block is never harmless: the submissions differ from the padded message's. */
  lemma SpoiledIsWrong(m: seq<byte>, size: BlockSize, copies: nat)
    requires size.Rem(|m|) == size.Chunk() - 1
    ensures |m| >= size.Chunk() - 1
    ensures Commands(SpoiledBlocks(m, size, copies)) != Commands(Blocks(Pad(m, size), size.Chunk()))
  {
    var c := size.Chunk();
    var a, b, rest := PadBlocks(m, size);
    var wrong, right := SpoiledBlocks(m, size, copies), Blocks(Pad(m, size), c);
    var i := |Blocks(a, c)|;
    LengthBlockEnds(m, size);
    assert right[i] == b && b[c - 1] == 0x80;
    if copies == 0 {
      assert |wrong| < |right|;
    } else {
      assert wrong[i] == LastBlock([], |m|, size);
    }
    if Commands(wrong) == Commands(right) {
      CommandsInjective(wrong, right);
    }
  }

  /** A left-over block in front of the message is never harmless either: there is one block too many. */
  lemma LeadIsWrong(x: seq<byte>, m: seq<byte>, size: BlockSize)
    ensures Commands([x] + Blocks(Pad(m, size), size.Chunk())) != Commands(Blocks(Pad(m, size), size.Chunk()))
  {
  }

  /**
   * Nor can losing a block make up for a left-over one in number: for the two sequences to agree, the left-over
   * block would have to equal the block that was lost, and that one ends in the 0x80 byte.
   */
  lemma LeadAndSpoiledIsWrong(x: seq<byte>, m: seq<byte>, size: BlockSize, copies: nat)
    requires LeftOver(x, size) && size.Rem(|m|) == size.Chunk() - 1
    ensures |m| >= size.Chunk() - 1
    ensures Commands([x] + SpoiledBlocks(m, size, copies)) != Commands(Blocks(Pad(m, size), size.Chunk()))
  {
    hide Blocks, Pad, Commands, BlockSize.Rem, LastBlock;
    var c := size.Chunk();
    var a, b, rest := PadBlocks(m, size);
    assert b[c - 1] == 0x80 != x[c - 1];
    if Commands([x] + SpoiledBlocks(m, size, copies)) == Commands(Blocks(Pad(m, size), c)) {
      CommandsInjective([x] + SpoiledBlocks(m, size, copies), Blocks(Pad(m, size), c));
      FrontsAgree(x, Blocks(a, c), seq(copies, _ => LastBlock([], |m|, size)), b, rest);
      ShiftedAgree(x, Blocks(a, c), b);
    }
  }

  lemma FrontsAgree<T>(x: T, s: seq<T>, t: seq<T>, y: T, z: T)
    requires [x] + (s + t) == s + [y, z]
    ensures [x] + s == s + [y]
  {
    assert ([x] + (s + t))[..1 + |s|] == [x] + s;
    assert (s + [y, z])[..1 + |s|] == s + [y];
  }

  /** A sequence that equals its own shift is constant. */
  lemma {:induction false} ShiftedAgree<T>(x: T, s: seq<T>, y: T)
    requires [x] + s == s + [y]
    ensures x == y
  {
    if s == [] {
      assert ([x] + s)[0] == (s + [y])[0];
    } else {
      assert ([x] + s)[0] == (s + [y])[0];
      assert ([x] + s)[1..] == s && (s + [y])[1..] == s[1..] + [y];
      assert s == [s[0]] + s[1..];
      ShiftedAgree(s[0], s[1..], y);
    }
  }

  /** A message one byte short of a block boundary pads to that block and one more. */
  lemma PadBlocks(m: seq<byte>, size: BlockSize) returns (a: seq<byte>, b: seq<byte>, rest: seq<byte>)
    requires size.Rem(|m|) == size.Chunk() - 1
    ensures |m| >= size.Chunk() - 1 && a == m[..|m| - (size.Chunk() - 1)]
    ensures b == m[|m| - (size.Chunk() - 1)..] + [0x80]
    ensures Blocks(Pad(m, size), size.Chunk()) == Blocks(a, size.Chunk()) + [b, rest]
  {
    hide Blocks, Pad;
    var c := size.Chunk();
    size.RemSmall(|m|);
    a, b := m[..|m| - (c - 1)], m[|m| - (c - 1)..] + [0x80];
    PadSplits(m, size);
    rest := Pad(m, size)[|m| + 1..];
    assert a + b == m + [0x80];
    assert Pad(m, size) == a + b + rest;
    BlocksAppend(a, b, c);
    BlocksAppend(a + b, rest, c);
  }

  lemma PadSplits(m: seq<byte>, size: BlockSize)
    requires size.Rem(|m|) == size.Chunk() - 1
    ensures |Pad(m, size)| == |m| + 1 + size.Chunk() && Pad(m, size)[..|m| + 1] == m + [0x80]
  {
    size.RemSmall(|m|);
    size.RemAdd(|m| + 1, size.Chunk());
    size.RemSmall(size.Chunk());
    ZeroCountIsLeast(|m|, size, size.Chunk() - size.LengthBytes());
  }

  /** Eight times 63 (or 127) is 0xF8 in its last byte. */
  lemma LengthBlockEnds(m: seq<byte>, size: BlockSize)
    requires size.Rem(|m|) == size.Chunk() - 1
    ensures LastBlock([], |m|, size)[size.Chunk() - 1] == 0xF8
  {
    var q := if size.Bits512? then |m| / 64 else |m| / 128;
    assert 8 * |m| == 256 * (if size.Bits512? then 2 * q + 1 else 4 * q + 3) + 248;
    Arith.RemainderOf(8 * |m|, 256, if size.Bits512? then 2 * q + 1 else 4 * q + 3, 248);
    assert BigEndian(8 * |m|, 8)[7] == ByteOf((8 * |m|) % 256);
  }
}
