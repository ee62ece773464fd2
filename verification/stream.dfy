/** What the streaming decoder delivers over whole runs of pushes and polls, in any order. */
module Stream {
  import opened Words
  import opened Wrappers
  import opened Cobs
  import opened Codec

  datatype Op = Push(bytes: seq<byte>) | Poll

  /** A run so far: the buffer, the frames taken from it, what each yielded, whether a push overflowed. */
  datatype Run<M> = Run(buf: seq<byte>, frames: seq<seq<byte>>, results: seq<Poll<M>>, overflow: bool)

  function Step<M(!new)>(format: Format<M>, max: nat, r: Run<M>, op: Op): (s: Run<M>) {
    match op
    case Push(bytes) =>
      if |r.buf| + |bytes| > max then r.(buf := [], overflow := true) else r.(buf := r.buf + bytes)
    case Poll =>
      var z := FindZero(r.buf);
      if z == |r.buf| then r
      else
        var (result, rest) := NextFrame(format, r.buf);
        Run(rest, r.frames + [r.buf[..z]], r.results + [result], r.overflow)
  }

  /** A fresh decoder after the operations `ops`. */
  function Execute<M(!new)>(format: Format<M>, max: nat, ops: seq<Op>): (r: Run<M>) {
    if ops == [] then Run([], [], [], false)
    else Step(format, max, Execute(format, max, ops[..|ops| - 1]), ops[|ops| - 1])
  }

  /** All bytes pushed. */
  function Pushed(ops: seq<Op>): (s: seq<byte>) {
    if ops == [] then []
    else
      var before := Pushed(ops[..|ops| - 1]);
      match ops[|ops| - 1]
      case Push(bytes) => before + bytes
      case Poll => before
  }

  /** Frames as they stand on the wire. */
  function Join(frames: seq<seq<byte>>): (s: seq<byte>) {
    if frames == [] then [] else frames[0] + [0] + Join(frames[1..])
  }

  ghost predicate AllZeroFree(frames: seq<seq<byte>>) {
    forall i :: 0 <= i < |frames| ==> ZeroFree(frames[i])
  }

  function FrameResults<M(!new)>(format: Format<M>, frames: seq<seq<byte>>): (r: seq<Poll<M>>)
    ensures |r| == |frames|
  {
    seq(|frames|, i requires 0 <= i < |frames| => FrameResult(format, frames[i]))
  }

  lemma {:induction false} JoinAppend(a: seq<seq<byte>>, b: seq<seq<byte>>)
    ensures Join(a + b) == Join(a) + Join(b)
  {
    if a == [] {
      assert a + b == b;
    } else {
      JoinAppend(a[1..], b);
      assert (a + b)[1..] == a[1..] + b;
    }
  }

  /** Polls take frames off the buffer whole and in order; the buffer stays within its bound. */
  lemma {:induction false} Conserved<M(!new)>(format: Format<M>, max: nat, ops: seq<Op>)
    ensures var r := Execute(format, max, ops);
            && |r.buf| <= max
            && AllZeroFree(r.frames) && r.results == FrameResults(format, r.frames)
            && (!r.overflow ==> Join(r.frames) + r.buf == Pushed(ops))
  {
    if ops != [] {
      var before := ops[..|ops| - 1];
      Conserved(format, max, before);
      StepConserves(format, max, Execute(format, max, before), ops[|ops| - 1], Pushed(before));
    }
  }

  lemma JoinNext(frames: seq<seq<byte>>, frame: seq<byte>, rest: seq<byte>)
    ensures Join(frames + [frame]) + rest == Join(frames) + (frame + [0] + rest)
  {
    JoinAppend(frames, [frame]);
    assert [frame][1..] == [];
    assert Join([frame]) == frame + [0];
  }

  lemma AllZeroFreeNext(frames: seq<seq<byte>>, frame: seq<byte>)
    requires AllZeroFree(frames) && ZeroFree(frame)
    ensures AllZeroFree(frames + [frame])
  {
  }

  lemma FrameResultsNext<M(!new)>(format: Format<M>, frames: seq<seq<byte>>, frame: seq<byte>)
    ensures FrameResults(format, frames + [frame]) == FrameResults(format, frames) + [FrameResult(format, frame)]
  {
  }

  lemma StepConserves<M(!new)>(format: Format<M>, max: nat, r: Run<M>, op: Op, pushed: seq<byte>)
    requires |r.buf| <= max && AllZeroFree(r.frames) && r.results == FrameResults(format, r.frames)
    requires !r.overflow ==> Join(r.frames) + r.buf == pushed
    ensures var s := Step(format, max, r, op);
            && |s.buf| <= max
            && AllZeroFree(s.frames) && s.results == FrameResults(format, s.frames)
            && (!s.overflow ==> !r.overflow)
            && (!s.overflow ==> Join(s.frames) + s.buf == if op.Push? then pushed + op.bytes else pushed)
  {
    hide Join, AllZeroFree, FrameResults, FrameResult, ZeroFree, FindZero;
    match op
    case Push(bytes) =>
      assert Join(r.frames) + (r.buf + bytes) == Join(r.frames) + r.buf + bytes;
    case Poll =>
      var z := FindZero(r.buf);
      if z < |r.buf| {
        var frame := r.buf[..z];
        AllZeroFreeNext(r.frames, frame);
        FrameResultsNext(format, r.frames, frame);
        JoinNext(r.frames, frame, r.buf[z + 1..]);
        assert r.buf == frame + [0] + r.buf[z + 1..];
      }
  }

  /** A byte string splits into frames in only one way. */
  lemma {:induction false} SplitUnique(taken: seq<seq<byte>>, rest: seq<byte>, all: seq<seq<byte>>)
    requires AllZeroFree(taken) && AllZeroFree(all) && Join(taken) + rest == Join(all)
    ensures |taken| <= |all| && taken == all[..|taken|] && rest == Join(all[|taken|..])
  {
    if taken == [] {
      assert Join(taken) + rest == rest;
    } else {
      var s := Join(all);
      FirstFrame(taken, rest);
      assert all != [];
      FirstFrame(all, []);
      assert Join(all) + [] == s;
      assert taken[0] == s[..FindZero(s)] == all[0];
      var n := |taken[0]| + 1;
      assert s[n..] == Join(taken[1..]) + rest && s[n..] == Join(all[1..]);
      SplitUnique(taken[1..], rest, all[1..]);
      assert all[1..][|taken| - 1..] == all[|taken|..];
    }
  }

  lemma FirstFrame(frames: seq<seq<byte>>, rest: seq<byte>)
    requires frames != [] && AllZeroFree(frames)
    ensures var s := Join(frames) + rest;
            && FindZero(s) == |frames[0]| < |s| && s[..|frames[0]|] == frames[0]
            && s[|frames[0]| + 1..] == Join(frames[1..]) + rest
  {
    hide FindZero;
    var t := Join(frames[1..]) + rest;
    assert Join(frames) + rest == frames[0] + [0] + t;
    HeadFrame(frames[0], t);
  }

  lemma HeadFrame(f: seq<byte>, t: seq<byte>)
    requires ZeroFree(f)
    ensures var s := f + [0] + t; FindZero(s) == |f| < |s| && s[..|f|] == f && s[|f| + 1..] == t
  {
    hide FindZero;
    var s := f + [0] + t;
    assert s[..|f|] == f;
    FindZeroAt(s, |f|);
  }

  /** The frames of a terminated byte string. */
  function Frames(s: seq<byte>): (frames: seq<seq<byte>>)
    decreases |s|
  {
    var z := FindZero(s);
    if z == |s| then [] else [s[..z]] + Frames(s[z + 1..])
  }

  lemma EndsInZero(s: seq<byte>)
    requires s != [] && s[|s| - 1] == 0
    ensures FindZero(s) < |s|
  {
    NoZero(s);
  }

  lemma ConsZeroFree(head: seq<byte>, tail: seq<seq<byte>>)
    requires ZeroFree(head) && AllZeroFree(tail)
    ensures AllZeroFree([head] + tail) && Join([head] + tail) == head + [0] + Join(tail)
  {
    assert ([head] + tail)[1..] == tail;
  }

  lemma {:induction false} FramesJoin(s: seq<byte>)
    requires s == [] || s[|s| - 1] == 0
    ensures AllZeroFree(Frames(s)) && Join(Frames(s)) == s
    decreases |s|
  {
    hide FindZero, ZeroFree, AllZeroFree;
    if s == [] {
      NothingFramed();
    } else {
      EndsInZero(s);
      var z := FindZero(s);
      FramesJoin(s[z + 1..]);
      ConsZeroFree(s[..z], Frames(s[z + 1..]));
      assert s == s[..z] + [0] + s[z + 1..];
    }
  }

  lemma NothingFramed()
    ensures Frames([]) == [] && AllZeroFree([]) && Join([]) == []
  {
  }

  ghost predicate Encodable<M(!new)>(format: Format<M>, msgs: seq<M>) {
    format.Lawful() && forall i :: 0 <= i < |msgs| ==> EncodeMessage(format, msgs[i]).Ok?
  }

  /** The concatenated encodings of `msgs`. */
  ghost function Wire<M(!new)>(format: Format<M>, msgs: seq<M>): (s: seq<byte>)
    requires Encodable(format, msgs)
  {
    if msgs == [] then [] else EncodeMessage(format, msgs[0]).value + Wire(format, msgs[1..])
  }

  /** The encodings without their terminators. */
  ghost function WireFrames<M(!new)>(format: Format<M>, msgs: seq<M>): (frames: seq<seq<byte>>)
    requires Encodable(format, msgs)
    ensures |frames| == |msgs|
  {
    if msgs == [] then []
    else
      EncodeTerminates(format, msgs[0]);
      var wire := EncodeMessage(format, msgs[0]).value;
      [wire[..|wire| - 1]] + WireFrames(format, msgs[1..])
  }

  /** The polls that deliver `msgs` one by one. */
  function Messages<M>(msgs: seq<M>): (r: seq<Poll<M>>)
    ensures |r| == |msgs|
  {
    seq(|msgs|, i requires 0 <= i < |msgs| => Ok(Some(msgs[i])))
  }

  lemma {:induction false} WireSplits<M(!new)>(format: Format<M>, msgs: seq<M>)
    requires Encodable(format, msgs)
    ensures AllZeroFree(WireFrames(format, msgs)) && Join(WireFrames(format, msgs)) == Wire(format, msgs)
    ensures FrameResults(format, WireFrames(format, msgs)) == Messages(msgs)
  {
    hide EncodeMessage, DecodeFrame, ZeroFree, AllZeroFree;
    if msgs == [] {
      NothingFramed();
    } else {
      EncodeTerminates(format, msgs[0]);
      DecodeEncode(format, msgs[0]);
      var wire := EncodeMessage(format, msgs[0]).value;
      var head, tail := wire[..|wire| - 1], WireFrames(format, msgs[1..]);
      WireSplits(format, msgs[1..]);
      ConsZeroFree(head, tail);
      assert head + [0] == wire;
      assert FrameResults(format, [head] + tail) == [FrameResult(format, head)] + FrameResults(format, tail);
      assert Messages(msgs) == [Ok(Some(msgs[0]))] + Messages(msgs[1..]);
    }
  }

  /**
   * Delivery after noise. Whatever precedes a terminator, and however it decodes, the frames after it are
   * delivered exactly, for every interleaving of pushes and polls that does not overflow the buffer.
   */
  lemma Resynchronises<M(!new)>(format: Format<M>, max: nat, ops: seq<Op>, noise: seq<byte>, msgs: seq<M>,
      later: seq<byte>)
    requires Encodable(format, msgs) && !Execute(format, max, ops).overflow
    requires noise == [] || noise[|noise| - 1] == 0
    requires Pushed(ops) + later == noise + Wire(format, msgs)
    ensures var r := Execute(format, max, ops);
            var skipped := |Frames(noise)|;
            && |r.results| <= skipped + |msgs|
            && (|r.results| >= skipped ==> r.results[skipped..] == Messages(msgs[..|r.results| - skipped]))
            && (|r.results| >= skipped && ZeroFree(r.buf) && later == [] ==>
                  r.results[skipped..] == Messages(msgs) && r.buf == [])
  {
    hide *;
    var r := Execute(format, max, ops);
    var front, back := Frames(noise), WireFrames(format, msgs);
    TakenInOrder(format, max, ops, noise, msgs, later);
    WireSplits(format, msgs);
    var n, k := |r.frames|, |front|;
    if n >= k {
      AfterNoise(format, front, back, n);
      MessagesPrefix(msgs, n - k);
      if later == [] && ZeroFree(r.buf) {
        assert r.buf + later == r.buf;
        NothingLeft((front + back)[n..], r.buf);
        assert msgs[..n - k] == msgs;
      }
    }
  }

  /** Frames come off the buffer in stream order, and the buffer starts where the next frame does. */
  lemma TakenInOrder<M(!new)>(format: Format<M>, max: nat, ops: seq<Op>, noise: seq<byte>, msgs: seq<M>,
      later: seq<byte>)
    requires Encodable(format, msgs) && !Execute(format, max, ops).overflow
    requires noise == [] || noise[|noise| - 1] == 0
    requires Pushed(ops) + later == noise + Wire(format, msgs)
    ensures var r := Execute(format, max, ops);
            var all := Frames(noise) + WireFrames(format, msgs);
            && r.results == FrameResults(format, r.frames)
            && |r.frames| <= |all| && r.frames == all[..|r.frames|]
            && r.buf + later == Join(all[|r.frames|..])
  {
    hide *;
    var r := Execute(format, max, ops);
    Conserved(format, max, ops);
    FramesJoin(noise);
    WireSplits(format, msgs);
    JoinAppend(Frames(noise), WireFrames(format, msgs));
    AppendZeroFree(Frames(noise), WireFrames(format, msgs));
    assert Join(r.frames) + (r.buf + later) == Pushed(ops) + later;
    SplitUnique(r.frames, r.buf + later, Frames(noise) + WireFrames(format, msgs));
  }

  lemma AfterNoise<M(!new)>(format: Format<M>, front: seq<seq<byte>>, back: seq<seq<byte>>, n: nat)
    requires |front| <= n <= |front| + |back|
    ensures FrameResults(format, (front + back)[..n])[|front|..] == FrameResults(format, back)[..n - |front|]
  {
  }

  lemma MessagesPrefix<M>(msgs: seq<M>, n: nat)
    requires n <= |msgs|
    ensures Messages(msgs)[..n] == Messages(msgs[..n])
  {
  }

  lemma AppendZeroFree(a: seq<seq<byte>>, b: seq<seq<byte>>)
    requires AllZeroFree(a) && AllZeroFree(b)
    ensures AllZeroFree(a + b)
  {
  }

  /** Terminated frames without a zero byte are no frames. */
  lemma NothingLeft(frames: seq<seq<byte>>, s: seq<byte>)
    requires s == Join(frames) && ZeroFree(s)
    ensures frames == [] && s == []
  {
    if frames != [] {
      HasZero(frames);
    }
  }

  lemma HasZero(frames: seq<seq<byte>>)
    requires frames != []
    ensures !ZeroFree(Join(frames))
  {
    assert Join(frames)[|frames[0]|] == 0;
  }

  /** Delivery: the messages sent are the messages polled, each once and in order, under every schedule. */
  lemma Delivers<M(!new)>(format: Format<M>, max: nat, ops: seq<Op>, msgs: seq<M>, later: seq<byte>)
    requires Encodable(format, msgs) && !Execute(format, max, ops).overflow
    requires Pushed(ops) + later == Wire(format, msgs)
    ensures var r := Execute(format, max, ops);
            && |r.results| <= |msgs| && r.results == Messages(msgs[..|r.results|])
            && (ZeroFree(r.buf) && later == [] ==> r.results == Messages(msgs) && r.buf == [])
  {
    hide *;
    assert [] + Wire(format, msgs) == Wire(format, msgs);
    NothingFramed();
    Resynchronises(format, max, ops, [], msgs, later);
    assert Execute(format, max, ops).results[0..] == Execute(format, max, ops).results;
  }

  /** What `r` has behind it, put before `s`. */
  function Behind<M>(r: Run<M>, s: Run<M>): (t: Run<M>) {
    Run(s.buf, r.frames + s.frames, r.results + s.results, r.overflow || s.overflow)
  }

  lemma StepIgnoresPast<M(!new)>(format: Format<M>, max: nat, r: Run<M>, s: Run<M>, op: Op)
    ensures Step(format, max, Behind(r, s), op) == Behind(r, Step(format, max, s, op))
  {
    hide NextFrame, FindZero;
  }

  /** A decoder whose buffer is empty goes on as a fresh one would. */
  lemma {:induction false} StartsAfresh<M(!new)>(format: Format<M>, max: nat, a: seq<Op>, c: seq<Op>)
    requires Execute(format, max, a).buf == []
    ensures Execute(format, max, a + c) == Behind(Execute(format, max, a), Execute(format, max, c))
  {
    hide Step;
    if c == [] {
      assert a + c == a;
    } else {
      var n := |c| - 1;
      assert (a + c)[..|a| + n] == a + c[..n];
      StartsAfresh(format, max, a, c[..n]);
      assert (a + c)[|a| + n] == c[n];
      StepIgnoresPast(format, max, Execute(format, max, a), Execute(format, max, c[..n]), c[n]);
    }
  }

  /**
   * Recovery: once a push was refused, the bytes that follow are received as if nothing had been before. The rest of
   * the frame that was cut, up to its terminator, is their noise.
   */
  lemma RecoversAfterFull<M(!new)>(format: Format<M>, max: nat, before: seq<Op>, refused: seq<byte>, ops: seq<Op>,
      noise: seq<byte>, msgs: seq<M>, later: seq<byte>)
    requires |Execute(format, max, before).buf| + |refused| > max
    requires Encodable(format, msgs) && !Execute(format, max, ops).overflow
    requires noise == [] || noise[|noise| - 1] == 0
    requires Pushed(ops) + later == noise + Wire(format, msgs)
    ensures var r, s := Execute(format, max, before), Execute(format, max, before + [Push(refused)] + ops);
            var skipped := |r.results| + |Frames(noise)|;
            && |s.results| <= skipped + |msgs|
            && (|s.results| >= skipped ==> s.results[skipped..] == Messages(msgs[..|s.results| - skipped]))
            && (|s.results| >= skipped && ZeroFree(s.buf) && later == [] ==>
                  s.results[skipped..] == Messages(msgs) && s.buf == [])
  {
    hide *;
    Refused(format, max, before, refused);
    StartsAfresh(format, max, before + [Push(refused)], ops);
    Resynchronises(format, max, ops, noise, msgs, later);
    var r, s := Execute(format, max, before), Execute(format, max, ops);
    BehindParts(Execute(format, max, before + [Push(refused)]), s);
    DropMore(r.results, s.results, |Frames(noise)|);
  }

  lemma BehindParts<M>(r: Run<M>, s: Run<M>)
    ensures Behind(r, s).buf == s.buf && Behind(r, s).results == r.results + s.results
  {
  }

  lemma Refused<M(!new)>(format: Format<M>, max: nat, before: seq<Op>, bytes: seq<byte>)
    requires |Execute(format, max, before).buf| + |bytes| > max
    ensures var r, s := Execute(format, max, before), Execute(format, max, before + [Push(bytes)]);
            s.buf == [] && s.results == r.results
  {
    assert (before + [Push(bytes)])[..|before|] == before;
  }

  lemma DropMore<T>(a: seq<T>, b: seq<T>, n: nat)
    ensures n <= |b| ==> (a + b)[|a| + n..] == b[n..]
  {
  }
}
