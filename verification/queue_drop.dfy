/** Dropping a driver: the loop that waits for a suspended queue, when it ends and when it need not. */
module QueueDrop {
  import opened Wrappers
  import opened QueueHistory
  import opened QueueProgress

  /** The driver answers that it is not done yet, and takes a posting. */
  const BUSY := Processing(Pending(false), Accepted(Pending(false)))

  /** The driver answers that it is done. */
  const DONE := Processing(Ready(Completed), Accepted(Pending(false)))

  lemma RunOne(h: History, e: Event, rest: seq<Event>)
    ensures Run(h, [e] + rest) == Run(Apply(h, e), rest)
  {
    assert ([e] + rest)[1..] == rest;
  }

  lemma {:induction false} RunJoin(h: History, a: seq<Event>, b: seq<Event>)
    ensures Run(h, a + b) == Run(Run(h, a), b)
    decreases |a|
  {
    if a == [] {
      assert a + b == b;
    } else {
      assert (a + b)[1..] == a[1..] + b;
      RunJoin(Apply(h, a[0]), a[1..], b);
    }
  }

  lemma RunTwo(h: History, d: Event, e: Event)
    ensures Run(h, [d, e]) == Apply(Apply(h, d), e)
    ensures StaysStopping(h, [d, e])
       <==> h.driver == Stopping && Apply(h, d).driver == Stopping && Apply(Apply(h, d), e).driver == Stopping
  {
    var g := Apply(h, d);
    assert [d, e][1..] == [e] && [e][1..] == [];
    assert Run(g, [e]) == Apply(g, e);
    assert StaysStopping(g, [e]) <==> g.driver == Stopping && Apply(g, e).driver == Stopping;
  }

  /** Two postings, the first in progress when its driver is dropped and finished after that. */
  const HALFWAY := [Starting, Posting] + [Posting, BUSY] + [Dropping, DONE]

  /** The second one is started all the same, by a queue that is suspended. */
  lemma SuspendedStarts()
    ensures var h := Run(EMPTY, HALFWAY);
            && h.suspends > 0 && h.driver == Stopping && h.current == None && h.waiting == [1] && h.accepted == [0]
            && h.Process(BUSY.poll, BUSY.reply).current == Some(1)
            && h.Process(BUSY.poll, BUSY.reply).accepted == [0, 1]
  {
    hide Run;
    RunTwo(EMPTY, Starting, Posting);
    var h2 := EMPTY.Start().Post();
    RunTwo(h2, Posting, BUSY);
    var h4 := Apply(h2.Post(), BUSY);
    RunTwo(h4, Dropping, DONE);
    RunJoin(EMPTY, [Starting, Posting], [Posting, BUSY]);
    RunJoin(EMPTY, [Starting, Posting] + [Posting, BUSY], [Dropping, DONE]);
    assert h2.waiting == [0] && h4.waiting == [1] && h4.accepted == [0] && h4.current == Some(0);
  }

  /** The driver is still waiting to be dropped at every point of `run`. */
  predicate StaysStopping(h: History, run: seq<Event>)
    decreases |run|
  {
    h.driver == Stopping && (run != [] ==> StaysStopping(Apply(h, run[0]), run[1..]))
  }

  /** A look at the queue that finds nothing in progress ends the wait; nothing else does. */
  lemma StepWaits(h: History, e: Event)
    requires h.Inv() && h.driver == Stopping
    ensures Apply(h, e).driver == Stopping <==> (e == DropChecking ==> h.current != None)
  {
  }

  ghost predicate FindsWork(h: History, run: seq<Event>, k: nat) {
    k < |run| && run[k] == DropChecking ==> Run(h, run[..k]).current != None
  }

  /** The loop goes on exactly as long as each of its looks at the queue finds a posting in progress. */
  lemma {:induction false} DropWaits(h: History, run: seq<Event>)
    requires h.Inv() && h.driver == Stopping
    ensures StaysStopping(h, run) <==> forall k: nat :: FindsWork(h, run, k)
    decreases |run|
  {
    if run != [] {
      var g, rest := Apply(h, run[0]), run[1..];
      ApplyKeepsInv(h, run[0]);
      StepWaits(h, run[0]);
      assert run[..0] == [] && FindsWork(h, run, 0) <==> g.driver == Stopping;
      forall k: nat | 0 < k ensures FindsWork(h, run, k) <==> FindsWork(g, rest, k - 1) {
        if k < |run| {
          assert run[..k] == [run[0]] + rest[..k - 1];
          RunOne(h, run[0], rest[..k - 1]);
        }
      }
      assert (forall k: nat :: FindsWork(h, run, k)) ==> forall k: nat :: FindsWork(g, rest, k) by {
        if forall k: nat :: FindsWork(h, run, k) {
          forall k: nat ensures FindsWork(g, rest, k) {
            assert FindsWork(h, run, k + 1);
          }
        }
      }
      if g.driver == Stopping {
        DropWaits(g, rest);
      }
    }
  }

  /** A client posts, the posting in progress is finished, and the next poll starts another. */
  const TURN := [DropChecking, Posting] + [DONE, BUSY]

  function HoldUp(n: nat): (run: seq<Event>)
    ensures |run| == 4 * n && forall i :: 0 <= i < n ==> run[4 * i] == DropChecking
  {
    if n == 0 then []
    else
      var rest := HoldUp(n - 1);
      assert forall i :: 1 <= i < n ==> (TURN + rest)[4 * i] == rest[4 * (i - 1)];
      TURN + rest
  }

  lemma {:induction false} StaysJoin(h: History, a: seq<Event>, b: seq<Event>)
    ensures StaysStopping(h, a + b) <==> StaysStopping(h, a) && StaysStopping(Run(h, a), b)
    decreases |a|
  {
    if a == [] {
      assert a + b == b;
    } else {
      assert (a + b)[1..] == a[1..] + b;
      StaysJoin(Apply(h, a[0]), a[1..], b);
    }
  }

  /** `run` with a driver that never has more to do for what it took. */
  function AtOnce(run: seq<Event>): (r: seq<Round>)
    ensures Events(r) == run
  {
    seq(|run|, i requires 0 <= i < |run| => Round(run[i], map[]))
  }

  lemma {:induction false} AtOnceJoin(h: History, a: seq<Event>, b: seq<Event>)
    ensures DiligentRun(h, map[], AtOnce(a + b))
       <==> DiligentRun(h, map[], AtOnce(a)) && DiligentRun(Run(h, a), map[], AtOnce(b))
    decreases |a|
  {
    if a == [] {
      assert a + b == b;
    } else {
      assert (a + b)[1..] == a[1..] + b;
      assert AtOnce(a + b)[1..] == AtOnce(a[1..] + b) && AtOnce(a)[1..] == AtOnce(a[1..]);
      AtOnceJoin(Apply(h, a[0]), a[1..], b);
    }
  }

  lemma AtOnceTwo(h: History, d: Event, e: Event)
    ensures DiligentRun(h, map[], AtOnce([d, e]))
       <==> Diligent(h, map[], d, map[]) && Diligent(Apply(h, d), map[], e, map[])
  {
    assert AtOnce([d, e])[1..] == AtOnce([e]) && AtOnce([e])[1..] == [];
    assert DiligentRun(Apply(h, d), map[], AtOnce([e])) <==> Diligent(Apply(h, d), map[], e, map[]);
  }

  /** One turn of such clients leaves a posting in progress as it found one. */
  lemma TurnHolds(h: History)
    requires h.Inv() && h.driver == Stopping && h.current != None
    ensures StaysStopping(h, TURN) && DiligentRun(h, map[], AtOnce(TURN))
    ensures var r := Run(h, TURN); r.Inv() && r.driver == Stopping && r.current != None
  {
    hide Run, StaysStopping, DiligentRun, AtOnce, History.Inv;
    Suspended(h);
    RunTwo(h, DropChecking, Posting);
    var h2 := h.DropCheck().Post();
    RunTwo(h2, DONE, BUSY);
    RunJoin(h, [DropChecking, Posting], [DONE, BUSY]);
    StaysJoin(h, [DropChecking, Posting], [DONE, BUSY]);
    AtOnceTwo(h, DropChecking, Posting);
    AtOnceTwo(h2, DONE, BUSY);
    AtOnceJoin(h, [DropChecking, Posting], [DONE, BUSY]);
    RunKeepsInv(h, TURN);
  }

  lemma Suspended(h: History)
    requires h.Inv()
    ensures h.driver == Stopping ==> h.suspends > 0
  {
  }

  /**
   * Whatever is in progress when a driver is dropped, the loop can look at the queue any number of times in vain,
   * although the driver finishes each posting at once.
   */
  lemma {:induction false} DropHeldUp(h: History, n: nat)
    requires h.Inv() && h.driver == Stopping && h.current != None
    ensures StaysStopping(h, HoldUp(n)) && DiligentRun(h, map[], AtOnce(HoldUp(n)))
    decreases n
  {
    hide Run, History.Inv;
    if n > 0 {
      TurnHolds(h);
      DropHeldUp(Run(h, TURN), n - 1);
      StaysJoin(h, TURN, HoldUp(n - 1));
      AtOnceJoin(h, TURN, HoldUp(n - 1));
    }
  }

  /** From the empty queue: one posting in progress when the driver is dropped is enough. */
  lemma DropNeedNotEnd(n: nat)
    ensures var h := Run(EMPTY, [Starting, Posting] + [BUSY, Dropping]);
            && StaysStopping(h, HoldUp(n)) && DiligentRun(h, map[], AtOnce(HoldUp(n)))
            && h.posted == 1 && |HoldUp(n)| == 4 * n && forall i :: 0 <= i < n ==> HoldUp(n)[4 * i] == DropChecking
  {
    hide Run, History.Inv, HoldUp, StaysStopping, DiligentRun;
    var h2 := EMPTY.Start().Post();
    RunTwo(EMPTY, Starting, Posting);
    RunTwo(h2, BUSY, Dropping);
    RunJoin(EMPTY, [Starting, Posting], [BUSY, Dropping]);
    EmptyInv();
    RunKeepsInv(EMPTY, [Starting, Posting] + [BUSY, Dropping]);
    DropHeldUp(Run(EMPTY, [Starting, Posting] + [BUSY, Dropping]), n);
  }

  lemma EmptyInv()
    ensures EMPTY.Inv()
  {
  }

  /** The work in `waiting`. */
  function Waiting(waiting: seq<nat>, w: Work): (n: nat) {
    if waiting == [] then 0 else Left(w, waiting[0]) + 2 + Waiting(waiting[1..], w)
  }

  /** All work that is left. */
  function Total(h: History, w: Work): (n: nat) {
    InProgress(h, w) + Waiting(h.waiting, w)
  }

  lemma {:induction false} WaitingFalls(waiting: seq<nat>, w: Work, v: Work)
    requires NoMore(w, v)
    ensures Waiting(waiting, v) <= Waiting(waiting, w)
  {
    if waiting != [] {
      WaitingFalls(waiting[1..], w, v);
      assert Left(v, waiting[0]) <= Left(w, waiting[0]);
    }
  }

  lemma {:induction false} WaitingWithout(waiting: seq<nat>, w: Work, u: nat)
    ensures Waiting(Without(waiting, u), w) <= Waiting(waiting, w)
  {
    if waiting != [] && waiting[0] != u {
      WaitingWithout(waiting[1..], w, u);
      assert Without(waiting, u)[1..] == Without(waiting[1..], u);
    }
  }

  lemma OfferTotal(h: History, w: Work, poll: Poll)
    requires h.current == None
    ensures Total(h.Offer(Accepted(poll)), w) <= Total(h, w)
    ensures h.driver != Absent && h.waiting != [] ==> Total(h.Offer(Accepted(poll)), w) < Total(h, w)
  {
  }

  lemma OfferRefused(h: History, reply: Reply)
    requires h.driver == Absent
    ensures h.Offer(reply) == h
  {
  }

  /** A processing step does some of the work, as long as there is any. */
  lemma ProcessTotal(h: History, w: Work, e: Event, v: Work)
    requires h.Inv() && e.Processing? && Diligent(h, w, e, v)
    ensures Total(Apply(h, e), v) <= Total(h, w)
    ensures h.driver != Absent && Total(h, w) > 0 ==> Total(Apply(h, e), v) < Total(h, w)
  {
    hide History.Offer, Left, History.Inv;
    Idle(h);
    WaitingFalls(h.waiting, w, v);
    assert h.current != None ==> Left(v, h.current.value) <= Left(w, h.current.value) by {
      InProgressFalls(h, w, v);
    }
    if h.driver == Absent {
      OfferRefused(h, e.reply);
    } else if h.current == None {
      OfferTotal(h, v, e.reply.poll);
    } else if e.poll.Ready? {
      OfferTotal(h.Finish(h.current.value, e.poll.status).(current := None), v, e.reply.poll);
    }
  }

  lemma InProgressFalls(h: History, w: Work, v: Work)
    requires NoMore(w, v)
    ensures h.current != None ==> Left(v, h.current.value) <= Left(w, h.current.value)
    ensures InProgress(h, v) <= InProgress(h, w)
  {
  }

  /** Nothing but a posting adds to it. */
  lemma OthersTotal(h: History, w: Work, e: Event, v: Work)
    requires !e.Processing? && e != Posting && Diligent(h, w, e, v)
    ensures Total(Apply(h, e), v) <= Total(h, w)
  {
    hide Left;
    InProgressFalls(h, w, v);
    WaitingFalls(h.waiting, w, v);
    if e.Cancelling? {
      WaitingWithout(h.waiting, v, e.t);
    }
  }

  /**
   * Once the queue has been polled as often as there is work left, with nothing posted since, it is empty and idle:
   * the next look ends the wait of a driver that is to be dropped.
   */
  lemma {:induction false} DropEnds(h: History, w: Work, run: seq<Round>)
    requires h.Inv() && DiligentRun(h, w, run) && Turns(h, run) >= Total(h, w)
    requires forall r <- run :: r.event != Posting
    ensures var r := Run(h, Events(run));
            r.current == None && r.waiting == [] && (r.driver == Stopping ==> r.DropCheck().driver == Absent)
    decreases |run|
  {
    hide Diligent, History.Inv;
    if run == [] {
      Suspended(h);
    } else {
      var e, v := run[0].event, run[0].left;
      ApplyKeepsInv(h, e);
      if e.Processing? {
        ProcessTotal(h, w, e, v);
      } else {
        OthersTotal(h, w, e, v);
      }
      assert Events(run)[1..] == Events(run[1..]);
      DropEnds(Apply(h, e), v, run[1..]);
    }
  }
}
