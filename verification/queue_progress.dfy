/** Busy-waiting on the work queue ends, whatever other clients do, when the driver accepts and finishes its work. */
module QueueProgress {
  import opened Wrappers
  import opened QueueHistory

  /** How many more polls answer `Pending` for each posting, also for those yet to come; one not listed needs none. */
  type Work = map<nat, nat>

  function Left(w: Work, t: nat): (n: nat) {
    if t in w then w[t] else 0
  }

  predicate NoMore(w: Work, v: Work) {
    forall t <- v :: v[t] <= Left(w, t)
  }

  /** The driver accepts every posting and each `Pending` answer uses up one of finitely many polls. */
  predicate Diligent(h: History, w: Work, e: Event, v: Work) {
    && NoMore(w, v)
    && (e.Processing? && h.driver != Absent ==>
          e.reply.Accepted? && (h.current != None && e.poll.Pending? ==> Left(v, h.current.value) < Left(w,
              h.current.value)))
  }

  /** The work in `waiting` up to and including posting `t`. */
  function Ahead(waiting: seq<nat>, w: Work, t: nat): (n: nat) {
    if waiting == [] then 0
    else Left(w, waiting[0]) + 2 + (if waiting[0] == t then 0 else Ahead(waiting[1..], w, t))
  }

  function InProgress(h: History, w: Work): (n: nat) {
    if h.current == None then 0 else Left(w, h.current.value) + 1
  }

  /** Remaining work over the posting `t` and everything before it. */
  function Measure(h: History, w: Work, t: nat): (n: nat) {
    InProgress(h, w) + if h.current == Some(t) then 0 else Ahead(h.waiting, w, t)
  }

  lemma {:induction false} AheadFalls(waiting: seq<nat>, w: Work, v: Work, t: nat)
    requires NoMore(w, v)
    ensures Ahead(waiting, v, t) <= Ahead(waiting, w, t)
  {
    if waiting != [] {
      AheadFalls(waiting[1..], w, v, t);
      assert Left(v, waiting[0]) <= Left(w, waiting[0]);
    }
  }

  lemma {:induction false} AheadIgnoresLater(waiting: seq<nat>, w: Work, t: nat, u: nat)
    requires t in waiting
    ensures Ahead(waiting + [u], w, t) == Ahead(waiting, w, t)
  {
    assert waiting == [waiting[0]] + waiting[1..];
    assert (waiting + [u])[1..] == waiting[1..] + [u];
    if waiting[0] != t {
      AheadIgnoresLater(waiting[1..], w, t, u);
    }
  }

  lemma {:induction false} AheadWithout(waiting: seq<nat>, w: Work, t: nat, u: nat)
    requires t in waiting && t != u
    ensures Ahead(Without(waiting, u), w, t) <= Ahead(waiting, w, t)
  {
    assert waiting == [waiting[0]] + waiting[1..];
    if waiting[0] != t && waiting[0] != u {
      AheadWithout(waiting[1..], w, t, u);
      assert Without(waiting, u)[1..] == Without(waiting[1..], u);
    }
  }

  lemma OfferFalls(h: History, w: Work, poll: Poll, t: nat)
    requires h.current == None && h.driver != Absent && t in h.waiting && Distinct(h.waiting)
    requires h.Offer(Accepted(poll)).Pends(t)
    ensures Measure(h.Offer(Accepted(poll)), w, t) < Measure(h, w, t)
  {
    assert h.waiting == [h.waiting[0]] + h.waiting[1..];
    assert h.waiting[0] !in h.waiting[1..];
  }

  /** A processing step lowers the measure of a posting that stays pending. */
  lemma ProcessFalls(h: History, w: Work, e: Event, v: Work, t: nat)
    requires h.Inv() && e.Processing? && h.driver != Absent && Diligent(h, w, e, v)
    requires h.Pends(t) && Apply(h, e).Pends(t)
    ensures Measure(Apply(h, e), v, t) < Measure(h, w, t)
  {
    hide History.Inv;
    CurrentNotWaiting(h);
    AheadFalls(h.waiting, w, v, t);
    if h.current == None {
      OfferFalls(h, v, e.reply.poll, t);
    } else {
      assert Left(v, h.current.value) <= Left(w, h.current.value);
      if e.poll.Ready? {
        var g := h.Finish(h.current.value, e.poll.status).(current := None);
        if h.suspends == 0 {
          OfferFalls(g, v, e.reply.poll, t);
        }
      }
    }
  }

  lemma Idle(h: History)
    requires h.Inv()
    ensures h.driver == Absent ==> h.current == None
  {
  }

  /** No other step of anyone raises it. */
  lemma OthersKeep(h: History, w: Work, e: Event, v: Work, t: nat)
    requires h.Inv() && (e.Processing? ==> h.driver == Absent) && Diligent(h, w, e, v)
    requires h.Pends(t) && Apply(h, e).Pends(t)
    ensures Measure(Apply(h, e), v, t) <= Measure(h, w, t)
  {
    hide History.Inv, Distinct, Without;
    Idle(h);
    AheadFalls(h.waiting, w, v, t);
    assert h.current != None ==> Left(v, h.current.value) <= Left(w, h.current.value);
    hide Left;
    if t in h.waiting {
      match e
      case Posting => AheadIgnoresLater(h.waiting, v, t, h.posted);
      case Processing(_, _) =>
      case Cancelling(u) =>
        if u != t {
          AheadWithout(h.waiting, v, t, u);
        } else {
          WaitingFacts(h);
          WithoutMembers(h.waiting, t);
        }
      case Starting =>
      case Dropping =>
      case DropChecking =>
    }
  }

  /** An event, and the work left after it. */
  datatype Round = Round(event: Event, left: Work)

  predicate DiligentRun(h: History, w: Work, run: seq<Round>)
    decreases |run|
  {
    run != [] ==> Diligent(h, w, run[0].event, run[0].left)
                  && DiligentRun(Apply(h, run[0].event), run[0].left, run[1..])
  }

  /** The processing steps taken, by anyone, while a driver was installed. */
  function Turns(h: History, run: seq<Round>): (n: nat)
    decreases |run|
  {
    if run == [] then 0
    else (if run[0].event.Processing? && h.driver != Absent then 1 else 0) + Turns(Apply(h, run[0].event), run[1..])
  }

  function Events(run: seq<Round>): (es: seq<Event>) {
    seq(|run|, i requires 0 <= i < |run| => run[i].event)
  }

  lemma {:induction false} FinishedStays(h: History, run: seq<Event>, t: nat)
    requires h.Inv() && t in h.outcome
    ensures var r := Run(h, run); t in r.outcome && r.outcome[t] == h.outcome[t]
    decreases |run|
  {
    if run != [] {
      ApplyKeepsInv(h, run[0]);
      OutcomeStays(h, run[0]);
      FinishedStays(Apply(h, run[0]), run[1..], t);
    }
  }

  /**
   * A pending posting is finished once the queue has been polled as often as its measure says, by its own client or
   * by any other, in any order with any postings, cancellations and comings and goings of the driver.
   */
  lemma {:induction false} WaitEnds(h: History, w: Work, run: seq<Round>, t: nat)
    requires h.Inv() && h.Pends(t) && DiligentRun(h, w, run) && Turns(h, run) >= Measure(h, w, t)
    ensures t in Run(h, Events(run)).outcome && !Run(h, Events(run)).Pends(t)
    decreases |run|
  {
    hide Diligent, Measure;
    RunKeepsInv(h, Events(run));
    if run == [] {
      MeasurePositive(h, w, t);
    } else {
      var e, v := run[0].event, run[0].left;
      var g := Apply(h, e);
      ApplyKeepsInv(h, e);
      OutcomeStays(h, e);
      assert Events(run)[1..] == Events(run[1..]);
      PendsOrDone(h, e, t);
      if g.Pends(t) {
        if e.Processing? && h.driver != Absent {
          ProcessFalls(h, w, e, v, t);
        } else {
          OthersKeep(h, w, e, v, t);
        }
        WaitEnds(g, v, run[1..], t);
      } else {
        FinishedStays(g, Events(run[1..]), t);
      }
    }
  }

  lemma MeasurePositive(h: History, w: Work, t: nat)
    requires h.Pends(t)
    ensures Measure(h, w, t) > 0
  {
  }

  lemma PendsOrDone(h: History, e: Event, t: nat)
    requires h.Inv() && h.Pends(t)
    ensures Apply(h, e).Pends(t) || t in Apply(h, e).outcome
  {
    ApplyKeepsInv(h, e);
    OrderFacts(h);
    OutcomeStays(h, e);
    assert h.current == Some(t) ==> h.accepted[|h.accepted| - 1] == t;
  }
}
