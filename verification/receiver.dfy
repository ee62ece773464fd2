/** The receiving loop: it never overflows the decoder and delivers everything, and what an empty frame does to it. */
module Receiver {
  import opened Words
  import opened Wrappers
  import opened Cobs
  import opened Codec
  import opened Stream

  /** The buffer held no complete frame whenever something was pushed. */
  ghost predicate DrainedBeforePush<M(!new)>(format: Format<M>, max: nat, ops: seq<Op>) {
    forall i :: 0 <= i < |ops| && ops[i].Push? ==> ZeroFree(Execute(format, max, ops[..i]).buf)
  }

  ghost predicate Sized<M(!new)>(format: Format<M>, msgs: seq<M>, frame: nat)
    requires Encodable(format, msgs)
  {
    forall i :: 0 <= i < |msgs| ==> |EncodeMessage(format, msgs[i]).value| <= frame
  }

  /** Terminated bytes of any kind, in which no frame is longer than `frame` with its terminator. */
  ghost predicate Bounded(noise: seq<byte>, frame: nat) {
    && (noise == [] || noise[|noise| - 1] == 0)
    && forall i :: 0 <= i < |Frames(noise)| ==> |Frames(noise)[i]| < frame
  }

  ghost predicate ChunksAtMost(ops: seq<Op>, chunk: nat) {
    forall i :: 0 <= i < |ops| && ops[i].Push? ==> |ops[i].bytes| <= chunk
  }

  /** A drained buffer holds less than one frame. */
  lemma DrainedIsShort<M(!new)>(format: Format<M>, max: nat, ops: seq<Op>, noise: seq<byte>, msgs: seq<M>,
      later: seq<byte>, frame: nat)
    requires Encodable(format, msgs) && Sized(format, msgs, frame) && Bounded(noise, frame) && frame > 0
    requires !Execute(format, max, ops).overflow && Pushed(ops) + later == noise + Wire(format, msgs)
    requires ZeroFree(Execute(format, max, ops).buf)
    ensures |Execute(format, max, ops).buf| < frame
  {
    hide *;
    var r := Execute(format, max, ops);
    BoundedParts(noise, frame);
    TakenInOrder(format, max, ops, noise, msgs, later);
    FramesAreShort(format, msgs, frame);
    PrefixIsShort(r.buf, later, (Frames(noise) + WireFrames(format, msgs))[|r.frames|..], frame);
  }

  lemma BoundedParts(noise: seq<byte>, frame: nat)
    requires Bounded(noise, frame)
    ensures noise == [] || noise[|noise| - 1] == 0
    ensures forall i :: 0 <= i < |Frames(noise)| ==> |Frames(noise)[i]| < frame
  {
  }

  lemma {:induction false} FramesAreShort<M(!new)>(format: Format<M>, msgs: seq<M>, frame: nat)
    requires Encodable(format, msgs) && Sized(format, msgs, frame)
    ensures forall i :: 0 <= i < |msgs| ==> 0 < |WireFrames(format, msgs)[i]| < frame
  {
    hide EncodeMessage;
    if msgs != [] {
      EncodeTerminates(format, msgs[0]);
      FramesAreShort(format, msgs[1..], frame);
    }
  }

  lemma PrefixIsShort(s: seq<byte>, later: seq<byte>, frames: seq<seq<byte>>, frame: nat)
    requires ZeroFree(s) && s + later == Join(frames) && frame > 0
    requires forall i :: 0 <= i < |frames| ==> |frames[i]| < frame
    ensures |s| < frame
  {
    if frames == [] {
      assert |s| + |later| == |s + later| == 0;
    } else {
      var i := |frames[0]|;
      assert (s + later)[i] == 0;
      assert forall k :: 0 <= k < |s| ==> s[k] == (s + later)[k];
    }
  }

  /** With room for an unfinished frame and a chunk, a receiver that drains before it pushes never overflows. */
  lemma {:induction false} NeverFull<M(!new)>(format: Format<M>, max: nat, ops: seq<Op>, noise: seq<byte>, msgs: seq<M>,
                                              later: seq<byte>, frame: nat, chunk: nat)
    requires Encodable(format, msgs) && Sized(format, msgs, frame) && Bounded(noise, frame) && frame > 0
    requires ChunksAtMost(ops, chunk) && frame - 1 + chunk <= max
    requires DrainedBeforePush(format, max, ops) && Pushed(ops) + later == noise + Wire(format, msgs)
    ensures !Execute(format, max, ops).overflow
    decreases |ops|
  {
    hide EncodeMessage, DecodeFrame, ZeroFree, FindZero, NextFrame, Wire, Encodable, Sized, Bounded;
    if ops != [] {
      var n := |ops| - 1;
      var before, op := ops[..n], ops[n];
      forall i | 0 <= i < n && before[i].Push?
        ensures ZeroFree(Execute(format, max, before[..i]).buf)
      {
        assert before[..i] == ops[..i] && before[i] == ops[i];
      }
      match op
      case Poll =>
        NeverFull(format, max, before, noise, msgs, later, frame, chunk);
      case Push(bytes) =>
        assert Pushed(before) + (bytes + later) == Pushed(ops) + later;
        NeverFull(format, max, before, noise, msgs, bytes + later, frame, chunk);
        DrainedIsShort(format, max, before, noise, msgs, bytes + later, frame);
    }
  }

  /**
   * A poll reports nothing exactly if no frame is complete or the next one is empty. The documentation promises the
   * first alone.
   */
  lemma NothingReported<M(!new)>(format: Format<M>, buf: seq<byte>)
    ensures NextFrame(format, buf).0 == Ok(None) <==> ZeroFree(buf) || buf[0] == 0
  {
    hide DecodeFrame;
    NoZero(buf);
  }

  lemma ZeroAhead(s: seq<byte>)
    ensures FindZero([0] + s) == 0 < |[0] + s| && ([0] + s)[..0] == [] && ([0] + s)[1..] == s
  {
  }

  /** An empty frame hides the message behind it from one poll. */
  lemma EmptyFrameHides<M(!new)>(format: Format<M>, msg: M)
    requires format.Lawful() && EncodeMessage(format, msg).Ok?
    ensures var wire := EncodeMessage(format, msg).value;
            NextFrame(format, [0] + wire) == (Ok(None), wire) && NextFrame(format, wire) == (Ok(Some(msg)), [])
  {
    hide EncodeMessage, DecodeFrame, ZeroFree;
    var wire := EncodeMessage(format, msg).value;
    EncodeTerminates(format, msg);
    DecodeEncode(format, msg);
    FindZeroAt(wire, |wire| - 1);
    NothingZeroFree();
    ZeroAhead(wire);
    assert |wire[..|wire| - 1]| > 0 && wire[|wire|..] == [];
  }

  /** One poll: nothing, an empty frame, or the result of the next frame. */
  lemma OnePoll<M(!new)>(format: Format<M>, buf: seq<byte>)
    ensures ZeroFree(buf) ==> NextFrame(format, buf) == (Ok(None), buf)
    ensures !ZeroFree(buf) && NextFrame(format, buf).0 == Ok(None) ==> buf == [0] + NextFrame(format, buf).1
    ensures NextFrame(format, buf).0 != Ok(None) ==> FramePolled(format, buf, NextFrame(format, buf))
  {
    hide FrameResult, FindZero, ZeroFree;
    NoZero(buf);
    var z := FindZero(buf);
    if z < |buf| {
      EmptyResult(format, buf[..z]);
      Cut(buf, z);
    }
  }

  ghost predicate FramePolled<M(!new)>(format: Format<M>, buf: seq<byte>, polled: (Poll<M>, seq<byte>)) {
    var z := FindZero(buf);
    && z < |buf| && buf[..z] != [] && polled.0 == FrameResult(format, buf[..z])
    && buf == buf[..z] + [0] + polled.1
  }

  lemma Cut(s: seq<byte>, z: nat)
    requires z < |s| && s[z] == 0
    ensures s == s[..z] + [0] + s[z + 1..] && (z == 0 ==> s == [0] + s[1..])
  {
  }

  lemma EmptyResult<M(!new)>(format: Format<M>, frame: seq<byte>)
    ensures FrameResult(format, frame) == Ok(None) <==> frame == []
  {
  }

  /** A drained decoder: what it took, an empty frame if it met one, and what it left. */
  ghost predicate Drained(buf: seq<byte>, taken: seq<seq<byte>>, empty: bool, rest: seq<byte>) {
    && AllZeroFree(taken) && [] !in taken && buf == Join(taken) + ((if empty then [0] else []) + rest)
    && (!empty ==> ZeroFree(rest))
  }

  /** No frame in `buf` is empty, except possibly the last complete one. */
  ghost predicate NoneEmptyButLast(buf: seq<byte>) {
    forall k :: 0 <= k < |Frames(buf)| - 1 ==> Frames(buf)[k] != []
  }

  /**
   * Polls until `next_frame` reports nothing: this takes the frames up to the first empty one, and so all of them
   * exactly if none is empty before the last.
   */
  method DrainFrames<M(!new)>(d: Decoder<M>)
    returns (out: seq<Poll<M>>, ghost taken: seq<seq<byte>>, ghost empty: bool)
    requires d.Valid()
    modifies d`len, d.buf
    ensures d.Valid() && Drained(old(d.Contents()), taken, empty, d.Contents())
    ensures out == FrameResults(d.format, taken)
    ensures ZeroFree(d.Contents()) <==> NoneEmptyButLast(old(d.Contents()))
  {
    hide NextFrame, FrameResult, ZeroFree, FindZero, Join, AllZeroFree, FrameResults, NoneEmptyButLast;
    out, taken, empty := [], [], false;
    NothingTaken(d.format, d.Contents());
    var more := true;
    while more
      invariant d.Valid() && AllZeroFree(taken) && [] !in taken && out == FrameResults(d.format, taken)
      invariant if more then old(d.Contents()) == Join(taken) + d.Contents()
                else Drained(old(d.Contents()), taken, empty, d.Contents())
      decreases more, if d.Valid() then |d.Contents()| else 0
    {
      ghost var was := d.Contents();
      var r := d.Next();
      OnePoll(d.format, was);
      if r.Ok? && r.value.None? {
        more := false;
        empty := !ZeroFree(was);
        assert (if empty then [0] else []) + d.Contents() == was;
      } else {
        out := out + [r];
        TakeFrame(d.format, taken, was[..FindZero(was)], d.Contents());
        taken := taken + [was[..FindZero(was)]];
      }
    }
    DrainStops(old(d.Contents()), taken, empty, d.Contents());
  }

  lemma NothingTaken<M(!new)>(format: Format<M>, buf: seq<byte>)
    ensures AllZeroFree([]) && FrameResults(format, []) == [] && Join([]) + buf == buf
  {
    assert [] + buf == buf;
  }

  lemma TakeFrame<M(!new)>(format: Format<M>, taken: seq<seq<byte>>, frame: seq<byte>, rest: seq<byte>)
    requires AllZeroFree(taken) && ZeroFree(frame)
    ensures AllZeroFree(taken + [frame]) && Join(taken + [frame]) + rest == Join(taken) + (frame + [0] + rest)
    ensures FrameResults(format, taken + [frame]) == FrameResults(format, taken) + [FrameResult(format, frame)]
  {
    hide ZeroFree, FrameResult, Join;
    JoinNext(taken, frame, rest);
    AllZeroFreeNext(taken, frame);
    FrameResultsNext(format, taken, frame);
  }

  lemma FramesCut(s: seq<byte>)
    requires FindZero(s) < |s|
    ensures Frames(s) == [s[..FindZero(s)]] + Frames(s[FindZero(s) + 1..])
  {
  }

  lemma RestZeroFree(frames: seq<seq<byte>>)
    requires AllZeroFree(frames) && frames != []
    ensures AllZeroFree(frames[1..])
  {
  }

  lemma {:induction false} FramesAfter(taken: seq<seq<byte>>, rest: seq<byte>)
    requires AllZeroFree(taken)
    ensures Frames(Join(taken) + rest) == taken + Frames(rest)
  {
    if taken == [] {
      assert Join(taken) + rest == rest;
    } else {
      hide *;
      RestZeroFree(taken);
      FirstFrame(taken, rest);
      FramesCut(Join(taken) + rest);
      FramesAfter(taken[1..], rest);
      assert taken == [taken[0]] + taken[1..];
      Associative([taken[0]], taken[1..], Frames(rest));
    }
  }

  /** The loop ends with frames still complete exactly if it met an empty one before the last. */
  lemma DrainStops(buf: seq<byte>, taken: seq<seq<byte>>, empty: bool, rest: seq<byte>)
    requires Drained(buf, taken, empty, rest)
    ensures ZeroFree(rest) <==> NoneEmptyButLast(buf)
  {
    hide FindZero, ZeroFree, Join, AllZeroFree;
    FramesAfter(taken, (if empty then [0] else []) + rest);
    NoFrames(rest);
    if empty {
      assert ([0] + rest)[1..] == rest;
      FirstIsEmpty(rest);
      assert Frames(buf)[|taken|] == [];
    } else {
      assert [] + rest == rest;
    }
    assert forall k :: 0 <= k < |taken| ==> Frames(buf)[k] == taken[k];
  }

  lemma NoFrames(rest: seq<byte>)
    ensures ZeroFree(rest) <==> Frames(rest) == []
  {
    NoZero(rest);
  }

  lemma FirstIsEmpty(rest: seq<byte>)
    ensures Frames([0] + rest) == [[]] + Frames(rest)
  {
    assert ([0] + rest)[1..] == rest;
  }

  /** `n` polls. */
  function Polls(n: nat): (ops: seq<Op>)
    ensures |ops| == n && forall i :: 0 <= i < n ==> ops[i] == Poll
  {
    seq(n, _ => Poll)
  }

  /** `r` after polls that took `frames` and left `rest`. */
  function Took<M(!new)>(format: Format<M>, r: Run<M>, frames: seq<seq<byte>>, rest: seq<byte>): (s: Run<M>) {
    Run(rest, r.frames + frames, r.results + FrameResults(format, frames), r.overflow)
  }

  lemma TookOne<M(!new)>(format: Format<M>, r: Run<M>, frame: seq<byte>, rest: seq<byte>)
    ensures Took(format, r, [frame], rest).frames == r.frames + [frame]
    ensures Took(format, r, [frame], rest).overflow == r.overflow
  {
  }

  /** A poll of a buffer that starts with a complete frame. */
  lemma PollTakes<M(!new)>(format: Format<M>, max: nat, ops: seq<Op>, frame: seq<byte>, rest: seq<byte>)
    requires ZeroFree(frame) && Execute(format, max, ops).buf == frame + [0] + rest
    ensures Execute(format, max, ops + [Poll]) == Took(format, Execute(format, max, ops), [frame], rest)
    ensures Pushed(ops + [Poll]) == Pushed(ops)
  {
    hide FrameResult, ZeroFree, FindZero;
    assert (ops + [Poll])[..|ops|] == ops;
    HeadFrame(frame, rest);
    assert FrameResults(format, [frame]) == [FrameResult(format, frame)];
  }

  /** As many polls as there are frames. */
  lemma {:induction false} PollsTake<M(!new)>(format: Format<M>, max: nat, ops: seq<Op>, taken: seq<seq<byte>>,
                                              rest: seq<byte>)
    requires AllZeroFree(taken) && Execute(format, max, ops).buf == Join(taken) + rest
    ensures Execute(format, max, ops + Polls(|taken|)) == Took(format, Execute(format, max, ops), taken, rest)
    ensures Pushed(ops + Polls(|taken|)) == Pushed(ops)
    decreases |taken|
  {
    hide FrameResult, ZeroFree, Execute, Pushed;
    var r := Execute(format, max, ops);
    if taken == [] {
      assert ops + Polls(0) == ops && r.frames + [] == r.frames && r.results + [] == r.results && [] + rest == rest;
    } else {
      assert taken[0] + [0] + Join(taken[1..]) + rest == taken[0] + [0] + (Join(taken[1..]) + rest);
      PollTakes(format, max, ops, taken[0], Join(taken[1..]) + rest);
      PollsTake(format, max, ops + [Poll], taken[1..], rest);
      assert ops + [Poll] + Polls(|taken| - 1) == ops + Polls(|taken|);
      assert [taken[0]] + taken[1..] == taken;
      assert FrameResults(format, [taken[0]]) + FrameResults(format, taken[1..]) == FrameResults(format, taken);
    }
  }

  /** What the ghost run and the decoder agree on. */
  ghost predicate Follows<M(!new)>(d: Decoder<M>, ops: seq<Op>, out: seq<Poll<M>>)
    reads d, d.buf
  {
    && d.Valid()
    && var r := Execute(d.format, d.maxFrameLen, ops);
    r.buf == d.Contents() && r.results == out && !r.overflow
  }

  /** A stream without empty frames never shows the loop one. */
  lemma NeverEmpty<M(!new)>(format: Format<M>, max: nat, ops: seq<Op>, noise: seq<byte>, msgs: seq<M>,
      later: seq<byte>, frame: nat, rest: seq<byte>)
    requires Encodable(format, msgs) && Sized(format, msgs, frame) && Bounded(noise, frame) && [] !in Frames(noise)
    requires !Execute(format, max, ops).overflow && Pushed(ops) + later == noise + Wire(format, msgs)
    ensures Execute(format, max, ops).buf != [0] + rest
  {
    hide *;
    BoundedParts(noise, frame);
    FramesAreShort(format, msgs, frame);
    assert [] !in Frames(noise) + WireFrames(format, msgs);
    if Execute(format, max, ops).buf == [0] + rest {
      NothingZeroFree();
      assert [] + [0] + rest == [0] + rest;
      PollTakes(format, max, ops, [], rest);
      TookOne(format, Execute(format, max, ops), [], rest);
      TakenInOrder(format, max, ops + [Poll], noise, msgs, later);
      LastIn(Execute(format, max, ops).frames, [], Frames(noise) + WireFrames(format, msgs));
    }
  }

  lemma LastIn<T>(a: seq<T>, x: T, all: seq<T>)
    ensures a + [x] <= all ==> x in all
  {
    if a + [x] <= all {
      assert all[|a|] == (a + [x])[|a|];
    }
  }

  /** The loop, seen as a run. */
  lemma AfterDrain<M(!new)>(format: Format<M>, max: nat, ops: seq<Op>, noise: seq<byte>, msgs: seq<M>,
      later: seq<byte>, frame: nat, taken: seq<seq<byte>>, empty: bool, rest: seq<byte>)
    requires Encodable(format, msgs) && Sized(format, msgs, frame) && Bounded(noise, frame) && [] !in Frames(noise)
    requires !Execute(format, max, ops).overflow && Pushed(ops) + later == noise + Wire(format, msgs)
    requires Drained(Execute(format, max, ops).buf, taken, empty, rest)
    ensures var r, s := Execute(format, max, ops), Execute(format, max, ops + Polls(|taken|));
            && s.buf == rest && s.results == r.results + FrameResults(format, taken) && !s.overflow && ZeroFree(rest)
    ensures Pushed(ops + Polls(|taken|)) == Pushed(ops)
  {
    hide Execute, Pushed, Wire, WireFrames, EncodeMessage, Encodable, Sized, Bounded, Frames, ZeroFree, AllZeroFree,
         Join, FrameResults;
    PollsTake(format, max, ops, taken, (if empty then [0] else []) + rest);
    if empty {
      NeverEmpty(format, max, ops + Polls(|taken|), noise, msgs, later, frame, rest);
    } else {
      assert [] + rest == rest;
    }
  }

  /** A drained run that has seen everything has taken every frame. */
  lemma AllTaken<M(!new)>(format: Format<M>, max: nat, ops: seq<Op>, noise: seq<byte>, msgs: seq<M>)
    requires Encodable(format, msgs) && (noise == [] || noise[|noise| - 1] == 0)
    requires !Execute(format, max, ops).overflow && Pushed(ops) == noise + Wire(format, msgs)
    requires ZeroFree(Execute(format, max, ops).buf)
    ensures var r := Execute(format, max, ops);
            r.buf == [] && r.results == FrameResults(format, Frames(noise)) + Messages(msgs)
  {
    hide *;
    var r := Execute(format, max, ops);
    var front, back := Frames(noise), WireFrames(format, msgs);
    assert Pushed(ops) + [] == Pushed(ops) && r.buf + [] == r.buf;
    TakenInOrder(format, max, ops, noise, msgs, []);
    NothingLeft((front + back)[|r.frames|..], r.buf);
    assert r.frames == front + back;
    WireSplits(format, msgs);
    ResultsJoin(format, front, back);
  }

  lemma ResultsJoin<M(!new)>(format: Format<M>, a: seq<seq<byte>>, b: seq<seq<byte>>)
    ensures FrameResults(format, a + b) == FrameResults(format, a) + FrameResults(format, b)
  {
  }

  /**
   * The receiving loop: push a chunk, poll until nothing comes, go on. For any messages, any bytes before them
   * whose frames are not empty, any chunking and a buffer with room for an unfinished frame and a chunk, no push is
   * refused, every frame before the messages yields its result, and then exactly the messages come out, in order.
   */
  method Receive<M(!new)>(d: Decoder<M>, chunks: seq<seq<byte>>, ghost noise: seq<byte>, ghost msgs: seq<M>,
                          ghost frame: nat, ghost chunk: nat)
    returns (out: seq<Poll<M>>)
    requires d.Valid() && d.Contents() == [] && Encodable(d.format, msgs) && Sized(d.format, msgs, frame)
    requires Bounded(noise, frame) && [] !in Frames(noise)
    requires frame > 0 && frame - 1 + chunk <= d.maxFrameLen && forall i :: 0 <= i < |chunks| ==> |chunks[i]| <= chunk
    requires Words.Concat(chunks) == noise + Wire(d.format, msgs)
    modifies d`len, d.buf
    ensures out == FrameResults(d.format, Frames(noise)) + Messages(msgs) && d.Valid() && d.Contents() == []
  {
    hide EncodeMessage, Wire, Encodable, Sized, Bounded, Frames, FrameResults, Messages, Drained, Polls, ZeroFree,
         NoneEmptyButLast;
    ghost var ops: seq<Op> := [];
    out := [];
    NothingZeroFree();
    BoundedParts(noise, frame);
    for i := 0 to |chunks|
      invariant Follows(d, ops, out) && ZeroFree(d.Contents()) && Pushed(ops) == Words.Concat(chunks[..i])
    {
      ghost var later := LaterChunks(chunks, i);
      PushStep(d.format, d.maxFrameLen, ops, chunks[i], noise, msgs, later, frame, chunk);
      var r := d.Push(chunks[i]);
      assert r == Ok(());
      ghost var pushed := ops + [Push(chunks[i])];
      var more;
      ghost var taken, empty;
      more, taken, empty := DrainFrames(d);
      AfterDrain(d.format, d.maxFrameLen, pushed, noise, msgs, later, frame, taken, empty, d.Contents());
      ops := pushed + Polls(|taken|);
      out := out + more;
    }
    assert chunks[..|chunks|] == chunks;
    AllTaken(d.format, d.maxFrameLen, ops, noise, msgs);
  }

  /** The bytes that follow chunk `i`. */
  lemma LaterChunks(chunks: seq<seq<byte>>, i: nat) returns (later: seq<byte>)
    requires i < |chunks|
    ensures Words.Concat(chunks[..i]) + chunks[i] + later == Words.Concat(chunks)
    ensures Words.Concat(chunks[..i + 1]) == Words.Concat(chunks[..i]) + chunks[i]
    decreases |chunks|
  {
    ConcatStep(chunks, i);
    if i + 1 == |chunks| {
      assert chunks[..i + 1] == chunks;
      later := [];
    } else {
      var shorter := chunks[..|chunks| - 1];
      var l := LaterChunks(shorter, i);
      assert shorter[..i] == chunks[..i];
      later := l + chunks[|chunks| - 1];
    }
  }

  /** A chunk pushed into a drained buffer is accepted. */
  lemma PushStep<M(!new)>(format: Format<M>, max: nat, ops: seq<Op>, bytes: seq<byte>, noise: seq<byte>, msgs: seq<M>,
                          later: seq<byte>, frame: nat, chunk: nat)
    requires Encodable(format, msgs) && Sized(format, msgs, frame) && Bounded(noise, frame)
    requires frame > 0 && frame - 1 + chunk <= max
    requires !Execute(format, max, ops).overflow && ZeroFree(Execute(format, max, ops).buf) && |bytes| <= chunk
    requires Pushed(ops) + bytes + later == noise + Wire(format, msgs)
    ensures var r, s := Execute(format, max, ops), Execute(format, max, ops + [Push(bytes)]);
            |r.buf| + |bytes| <= max && s == r.(buf := r.buf + bytes)
    ensures Pushed(ops + [Push(bytes)]) == Pushed(ops) + bytes
  {
    hide EncodeMessage, ZeroFree, Wire, Encodable, Sized, Bounded;
    assert (ops + [Push(bytes)])[..|ops|] == ops;
    assert Pushed(ops) + (bytes + later) == Pushed(ops) + bytes + later;
    DrainedIsShort(format, max, ops, noise, msgs, bytes + later, frame);
  }
}
