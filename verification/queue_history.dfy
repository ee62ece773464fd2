/**
 * The work queue as values: every posting gets the next number, and a history records what became of each one.
 * The code keeps none of these numbers; the class in `WorkQueue` ties its pointers to them.
 */
module QueueHistory {
  import opened Wrappers

  datatype Status = Completed | Cancelled

  datatype Poll = Pending(recall: bool) | Ready(status: Status)

  /** What a driver's `post` answers. */
  datatype Reply = Refused | Accepted(poll: Poll)

  /** Which operation table is installed: the no-op table, a driver's, or that of a driver waiting to be dropped. */
  datatype Driver = Absent | Running | Stopping

  datatype History = History(
    posted: nat,
    waiting: seq<nat>,
    current: Option<nat>,
    recall: bool,
    accepted: seq<nat>,
    finished: seq<nat>,
    outcome: map<nat, Status>,
    cancelled: set<nat>,
    suspends: nat,
    driver: Driver)
  {
    predicate Pends(t: nat) {
      t in waiting || current == Some(t)
    }

    function StatusOf(t: nat): (p: Poll) {
      if t in waiting then Pending(false)
      else if current == Some(t) then Pending(recall)
      else if t in outcome then Ready(outcome[t])
      else Pending(false)
    }

    function Finish(t: nat, status: Status): (h: History) {
      this.(finished := finished + [t], outcome := outcome[t := status])
    }

    /** What the installed table's `post` returns; the no-op table refuses. */
    function Offered(reply: Reply): (r: Reply) {
      if driver == Absent then Refused else reply
    }

    /** Offer the first waiting item to the driver. */
    function Offer(reply: Reply): (h: History) {
      if waiting == [] || Offered(reply) == Refused then this
      else
        var h := this.(waiting := waiting[1..], accepted := accepted + [waiting[0]]);
        match reply.poll
        case Pending(again) => h.(current := Some(waiting[0]), recall := again)
        case Ready(status) => h.Finish(waiting[0], status)
    }

    /** One processing iteration, given what the driver would answer to `poll` and to `post`. */
    function Process(poll: Poll, reply: Reply): (h: History) {
      if current == None then Offer(reply)
      else if poll.Pending? then this
      else
        var h := Finish(current.value, poll.status).(current := None);
        if suspends > 0 then h else h.Offer(reply)
    }

    /** Whether the caller of `Offer` is told to poll again. */
    function OfferAgain(reply: Reply): (again: bool) {
      waiting != [] && Offered(reply) != Refused && (reply.poll.Pending? ==> reply.poll.recall)
    }

    function ProcessAgain(poll: Poll, reply: Reply): (again: bool) {
      if current == None then OfferAgain(reply)
      else if poll.Pending? then poll.recall
      else suspends == 0 && OfferAgain(reply)
    }

    function Cancel(t: nat): (h: History) {
      if current == Some(t) || t !in waiting then this
      else this.(waiting := Without(waiting, t), cancelled := cancelled + {t}).Finish(t, Cancelled)
    }

    function Post(): (h: History) {
      this.(posted := posted + 1, waiting := waiting + [posted])
    }

    function Start(): (h: History) {
      if driver == Absent then this.(driver := Running) else this
    }

    /** A driver is dropped: shut down at once, or suspend and wait for the item in progress. */
    function Drop(): (h: History) {
      if driver != Running then this
      else if current == None then this.(driver := Absent)
      else this.(driver := Stopping, suspends := suspends + 1)
    }

    /** One look at the queue by the loop of a driver that waits to be dropped. */
    function DropCheck(): (h: History) {
      if driver == Stopping && current == None && suspends > 0 then this.(driver := Absent, suspends := suspends - 1)
      else this
    }

    /** Everything that holds in every reachable state. */
    ghost predicate Inv() {
      && accepted + waiting == Remaining(posted, cancelled)
      && (forall t :: t in outcome ==> t < posted && t !in waiting && current != Some(t))
      && (forall t :: 0 <= t < posted ==> t in waiting || current == Some(t) || t in outcome)
      && (forall t :: t in cancelled ==> t in outcome && outcome[t] == Cancelled)
      && (current != None ==> |accepted| > 0 && accepted[|accepted| - 1] == current.value)
      && Distinct(finished) && (forall t :: t in finished <==> t in outcome)
      && (driver == Absent ==> current == None)
      && suspends == (if driver == Stopping then 1 else 0)
    }
  }

  /** The postings below `n` that were not cancelled, in order. */
  function Remaining(n: nat, cancelled: set<nat>): (s: seq<nat>) {
    if n == 0 then [] else Remaining(n - 1, cancelled) + (if n - 1 in cancelled then [] else [n - 1])
  }

  /** `s` without the first `x`. */
  function Without<T(==)>(s: seq<T>, x: T): (r: seq<T>) {
    if s == [] then [] else if s[0] == x then s[1..] else [s[0]] + Without(s[1..], x)
  }

  predicate Distinct<T(==)>(s: seq<T>) {
    forall i, j :: 0 <= i < j < |s| ==> s[i] != s[j]
  }

  lemma {:induction false} WithoutSplits<T>(s: seq<T>, k: nat)
    requires k < |s| && Distinct(s)
    ensures Without(s, s[k]) == s[..k] + s[k + 1..]
  {
    if k > 0 {
      WithoutSplits(s[1..], k - 1);
      assert s[1..][k - 1] == s[k] && s[0] != s[k];
      assert s[..k] == [s[0]] + s[1..][..k - 1] && s[1..][k..] == s[k + 1..];
    }
  }

  lemma {:induction false} RemainingBound(n: nat, cancelled: set<nat>)
    ensures forall i :: 0 <= i < |Remaining(n, cancelled)| ==> Remaining(n, cancelled)[i] < n
  {
    if n > 0 {
      RemainingBound(n - 1, cancelled);
    }
  }

  /** `Remaining` is strictly increasing and holds exactly the postings that were not cancelled. */
  lemma {:induction false} RemainingExact(n: nat, cancelled: set<nat>)
    ensures var s := Remaining(n, cancelled);
            && (forall i, j :: 0 <= i < j < |s| ==> s[i] < s[j])
            && (forall t: nat :: t in s <==> t < n && t !in cancelled)
  {
    if n > 0 {
      RemainingBound(n - 1, cancelled);
      RemainingExact(n - 1, cancelled);
      var s, p := Remaining(n, cancelled), Remaining(n - 1, cancelled);
      forall t: nat ensures t in s <==> t in p || (t == n - 1 && t !in cancelled) {
        if n - 1 !in cancelled {
          assert s[|p|] == n - 1;
        }
      }
    }
  }

  lemma {:induction false} RemainingIgnores(n: nat, cancelled: set<nat>, t: nat)
    requires n <= t
    ensures Remaining(n, cancelled + {t}) == Remaining(n, cancelled)
  {
    if n > 0 {
      RemainingIgnores(n - 1, cancelled, t);
    }
  }

  /** Cancelling one posting drops it from the order and moves nothing else. */
  lemma {:induction false} RemainingWithout(n: nat, cancelled: set<nat>, k: nat)
    requires k < |Remaining(n, cancelled)|
    ensures var s := Remaining(n, cancelled); Remaining(n, cancelled + {s[k]}) == s[..k] + s[k + 1..]
  {
    var s, p := Remaining(n, cancelled), Remaining(n - 1, cancelled);
    if k == |p| {
      RemainingIgnores(n - 1, cancelled, n - 1);
      assert s[..k] == p && s[k] == n - 1;
    } else {
      RemainingWithout(n - 1, cancelled, k);
      RemainingBound(n - 1, cancelled);
      assert p[k] == s[k] && n - 1 in cancelled + {s[k]} <==> n - 1 in cancelled;
      assert s[..k] == p[..k] && s[k + 1..] == p[k + 1..] + s[|p|..];
    }
  }

  lemma SplitFacts(a: seq<nat>, w: seq<nat>, n: nat, cancelled: set<nat>)
    requires a + w == Remaining(n, cancelled)
    ensures forall i :: 0 <= i < |w| ==> w[i] < n && w[i] !in cancelled
    ensures Distinct(w)
    ensures forall i, j :: 0 <= i < |a| && 0 <= j < |w| ==> a[i] < w[j]
  {
    hide Remaining;
    RemainingExact(n, cancelled);
    var s := a + w;
    forall i | 0 <= i < |w| ensures w[i] == s[|a| + i] && w[i] in s {
    }
    forall i, j | 0 <= i < |a| && 0 <= j < |w| ensures a[i] < w[j] {
      assert s[i] < s[|a| + j];
    }
  }

  lemma WaitingFacts(h: History)
    requires h.Inv()
    ensures forall i :: 0 <= i < |h.waiting| ==> h.waiting[i] < h.posted && h.waiting[i] !in h.cancelled
    ensures Distinct(h.waiting)
    ensures forall i, j :: 0 <= i < |h.accepted| && 0 <= j < |h.waiting| ==> h.accepted[i] < h.waiting[j]
  {
    hide Remaining, Distinct;
    SplitFacts(h.accepted, h.waiting, h.posted, h.cancelled);
  }

  lemma RemainingNext(n: nat, cancelled: set<nat>)
    requires n !in cancelled
    ensures Remaining(n + 1, cancelled) == Remaining(n, cancelled) + [n]
  {
  }

  lemma PostKeepsInv(h: History)
    requires h.Inv()
    ensures h.Post().Inv()
  {
    hide Remaining, Distinct;
    RemainingExact(h.posted, h.cancelled);
    assert h.posted !in h.cancelled;
    RemainingNext(h.posted, h.cancelled);
    assert h.accepted + (h.waiting + [h.posted]) == (h.accepted + h.waiting) + [h.posted];
    assert h.Post().waiting[|h.waiting|] == h.posted;
  }

  lemma OfferKeepsInv(h: History, reply: Reply)
    requires h.Inv() && h.current == None
    ensures h.Offer(reply).Inv()
  {
    WaitingFacts(h);
    if h.waiting != [] {
      var t := h.waiting[0];
      assert h.accepted + h.waiting == (h.accepted + [t]) + h.waiting[1..];
      assert t !in h.waiting[1..];
      assert t !in h.outcome;
    }
  }

  lemma CompleteKeepsInv(h: History, status: Status)
    requires h.Inv() && h.current != None
    ensures h.Finish(h.current.value, status).(current := None).Inv()
  {
    var t := h.current.value;
    RemainingExact(h.posted, h.cancelled);
    assert t in h.accepted + h.waiting;
    WaitingFacts(h);
    assert t < h.posted && t !in h.waiting;
  }

  lemma ProcessKeepsInv(h: History, poll: Poll, reply: Reply)
    requires h.Inv()
    ensures h.Process(poll, reply).Inv()
  {
    if h.current == None {
      OfferKeepsInv(h, reply);
    } else if poll.Ready? {
      CompleteKeepsInv(h, poll.status);
      OfferKeepsInv(h.Finish(h.current.value, poll.status).(current := None), reply);
    }
  }

  lemma {:induction false} WithoutMembers<T>(s: seq<T>, x: T)
    requires Distinct(s)
    ensures forall y <- s :: y != x ==> y in Without(s, x)
    ensures forall y <- Without(s, x) :: y in s && y != x
  {
    if s != [] {
      WithoutMembers(s[1..], x);
      assert s == [s[0]] + s[1..];
    }
  }

  lemma Splice<T>(a: seq<T>, w: seq<T>, k: nat)
    requires k < |w|
    ensures (a + w)[|a| + k] == w[k]
    ensures (a + w)[..|a| + k] + (a + w)[|a| + k + 1..] == a + (w[..k] + w[k + 1..])
  {
    assert (a + w)[..|a| + k] == a + w[..k];
    assert (a + w)[|a| + k + 1..] == w[k + 1..];
  }

  lemma {:induction false} WithoutNothing<T>(s: seq<T>, x: T)
    requires x !in s
    ensures Without(s, x) == s
  {
    if s != [] {
      WithoutNothing(s[1..], x);
    }
  }

  lemma CancelKeepsOrder(h: History, k: nat)
    requires h.Inv() && k < |h.waiting|
    ensures h.accepted + Without(h.waiting, h.waiting[k]) == Remaining(h.posted, h.cancelled + {h.waiting[k]})
  {
    hide Distinct, Remaining, Without;
    WaitingFacts(h);
    WithoutSplits(h.waiting, k);
    Splice(h.accepted, h.waiting, k);
    RemainingWithout(h.posted, h.cancelled, |h.accepted| + k);
  }

  lemma CancelKeepsInv(h: History, t: nat)
    requires h.Inv()
    ensures h.Cancel(t).Inv()
  {
    if h.current != Some(t) && t in h.waiting {
      WaitingFacts(h);
      var k :| 0 <= k < |h.waiting| && h.waiting[k] == t;
      CancelKeepsOrder(h, k);
      WithoutMembers(h.waiting, t);
      assert t !in h.finished && t < h.posted;
    }
  }

  /** What can happen to the queue: by any client, by whoever polls, or by the owner of the driver. */
  datatype Event =
    | Posting
    | Processing(poll: Poll, reply: Reply)
    | Cancelling(t: nat)
    | Starting
    | Dropping
    | DropChecking

  function Apply(h: History, e: Event): (r: History) {
    match e
    case Posting => h.Post()
    case Processing(poll, reply) => h.Process(poll, reply)
    case Cancelling(t) => h.Cancel(t)
    case Starting => h.Start()
    case Dropping => h.Drop()
    case DropChecking => h.DropCheck()
  }

  function Run(h: History, run: seq<Event>): (r: History)
    decreases |run|
  {
    if run == [] then h else Run(Apply(h, run[0]), run[1..])
  }

  const EMPTY := History(0, [], None, false, [], [], map[], {}, 0, Absent)

  lemma ApplyKeepsInv(h: History, e: Event)
    requires h.Inv()
    ensures Apply(h, e).Inv()
  {
    match e
    case Posting => PostKeepsInv(h);
    case Processing(poll, reply) => ProcessKeepsInv(h, poll, reply);
    case Cancelling(t) => CancelKeepsInv(h, t);
    case Starting =>
    case Dropping =>
    case DropChecking =>
  }

  lemma {:induction false} RunKeepsInv(h: History, run: seq<Event>)
    requires h.Inv()
    ensures Run(h, run).Inv()
    decreases |run|
  {
    if run != [] {
      ApplyKeepsInv(h, run[0]);
      RunKeepsInv(Apply(h, run[0]), run[1..]);
    }
  }

  lemma OrderFacts(h: History)
    requires h.Inv()
    ensures forall i, j :: 0 <= i < j < |h.accepted| ==> h.accepted[i] < h.accepted[j]
    ensures forall t: nat :: t < h.posted && t !in h.cancelled <==> t in h.accepted || t in h.waiting
    ensures forall t <- h.accepted, u <- h.waiting :: t < u
  {
    hide Distinct;
    WaitingFacts(h);
    RemainingExact(h.posted, h.cancelled);
    var s := h.accepted + h.waiting;
    assert forall i :: 0 <= i < |h.accepted| ==> h.accepted[i] == s[i];
    assert forall t: nat :: t in s <==> t in h.accepted || t in h.waiting;
  }

  lemma CurrentNotWaiting(h: History)
    requires h.Inv()
    ensures Distinct(h.waiting)
    ensures h.current != None ==> h.current.value !in h.waiting
  {
    WaitingFacts(h);
    OrderFacts(h);
    assert h.current != None ==> h.accepted[|h.accepted| - 1] == h.current.value;
  }

  /** The driver is given the postings in order, less the cancelled ones, whatever it refuses on the way. */
  lemma FirstInFirstOut(run: seq<Event>)
    ensures var h := Run(EMPTY, run);
            && h.accepted + h.waiting == Remaining(h.posted, h.cancelled)
            && (forall i, j :: 0 <= i < j < |h.accepted| ==> h.accepted[i] < h.accepted[j])
            && (forall t: nat, u <- h.accepted :: t < u && t !in h.cancelled ==> t in h.accepted)
  {
    RunKeepsInv(EMPTY, run);
    OrderFacts(Run(EMPTY, run));
  }

  /** Each posting is pending exactly while it waits or is with the driver, and is completed exactly once. */
  lemma ExactlyOnce(run: seq<Event>, t: nat)
    requires t < Run(EMPTY, run).posted
    ensures var h := Run(EMPTY, run);
            && Distinct(h.finished)
            && (h.Pends(t) <==> h.StatusOf(t).Pending?)
            && (h.Pends(t) <==> t !in h.finished)
            && (t in h.finished <==> t in h.outcome && h.StatusOf(t) == Ready(h.outcome[t]))
  {
    RunKeepsInv(EMPTY, run);
  }

  /** At most one posting is with the driver, and none when the no-op table is installed. */
  lemma OneInDriver(run: seq<Event>, t: nat)
    ensures var h := Run(EMPTY, run); t in h.accepted && t !in h.finished ==> h.current == Some(t) && h.driver != Absent
    ensures var h := Run(EMPTY, run); h.current == Some(t) ==> t in h.accepted && t !in h.finished && t !in h.waiting
  {
    RunKeepsInv(EMPTY, run);
    var h := Run(EMPTY, run);
    OrderFacts(h);
  }

  /** The queue is suspended exactly while a driver waits to be dropped. */
  lemma SuspendedExactly(run: seq<Event>)
    ensures var h := Run(EMPTY, run); h.suspends == if h.driver == Stopping then 1 else 0
  {
    RunKeepsInv(EMPTY, run);
  }

  lemma OfferSource(h: History, reply: Reply, t: nat)
    requires t in h.Offer(reply).outcome && t !in h.outcome
    ensures var r := h.Offer(reply);
            && t in r.accepted && h.waiting != [] && t == h.waiting[0] && reply == Accepted(Ready(r.outcome[t]))
  {
    assert t == h.waiting[0];
    assert (h.accepted + [t])[|h.accepted|] == t;
  }

  lemma OfferKeepsOutcome(h: History, reply: Reply, t: nat)
    requires t in h.outcome && t !in h.waiting
    ensures t in h.Offer(reply).outcome && h.Offer(reply).outcome[t] == h.outcome[t]
  {
    if h.waiting != [] {
      assert h.waiting[0] in h.waiting;
    }
  }

  lemma OfferExtends(h: History, reply: Reply)
    ensures h.accepted <= h.Offer(reply).accepted && h.Offer(reply).cancelled == h.cancelled
  {
  }

  /** An outcome recorded by a processing step is the driver's answer for a posting it accepted. */
  lemma ProcessSource(h: History, poll: Poll, reply: Reply, t: nat)
    requires h.Inv()
    requires t in h.Process(poll, reply).outcome && t !in h.outcome
    ensures var r := h.Process(poll, reply);
            && t !in r.cancelled && t in r.accepted
            && ((poll == Ready(r.outcome[t]) && h.current == Some(t))
                || (reply == Accepted(Ready(r.outcome[t])) && h.waiting != [] && t == h.waiting[0]))
  {
    hide Distinct, Remaining, History.Offer;
    var status := if poll.Ready? then poll.status else Completed;
    var g := if h.current == None then h else h.Finish(h.current.value, status).(current := None);
    OfferExtends(g, reply);
    assert t !in h.cancelled;
    if h.current == Some(t) {
      CurrentNotWaiting(h);
      assert h.accepted[|h.accepted| - 1] == t;
      OfferKeepsOutcome(g, reply, t);
    } else {
      OfferSource(g, reply, t);
    }
  }

  /** The queue itself cancels only what the driver never accepted; every other outcome is the driver's own answer. */
  lemma OutcomeSource(h: History, e: Event, t: nat)
    requires h.Inv()
    requires t in Apply(h, e).outcome && t !in h.outcome
    ensures var r := Apply(h, e);
            if t in r.cancelled then e == Cancelling(t) && r.outcome[t] == Cancelled && t !in r.accepted
            else e.Processing? && t in r.accepted
                 && ((e.poll == Ready(r.outcome[t]) && h.current == Some(t))
                     || (e.reply == Accepted(Ready(r.outcome[t])) && h.waiting != [] && t == h.waiting[0]))
  {
    hide Distinct, Remaining, Without;
    if e.Processing? {
      ProcessSource(h, e.poll, e.reply, t);
    } else {
      hide Distinct, Remaining, Without, History.Inv;
      OrderFacts(h);
    }
  }

  /** What has finished stays finished, with the same outcome and in the same order. */
  lemma OutcomeStays(h: History, e: Event)
    requires h.Inv()
    ensures var r := Apply(h, e);
            && h.finished <= r.finished && h.accepted <= r.accepted && h.posted <= r.posted
            && forall t :: t in h.outcome ==> t in r.outcome && r.outcome[t] == h.outcome[t]
  {
    hide Remaining, Distinct, Without;
    WaitingFacts(h);
    if h.waiting != [] {
      assert h.waiting[0] in h.waiting;
    }
  }

  /**
   * A suspended queue hands the driver a new posting exactly when nothing was in progress: the step that completes
   * the posting in progress does not, but the next step of any client does.
   */
  lemma SuspendedStep(h: History, poll: Poll, reply: Reply)
    requires h.suspends > 0
    ensures h.Process(poll, reply).accepted != h.accepted
       <==> h.current == None && h.waiting != [] && h.Offered(reply) != Refused
  {
    if h.Process(poll, reply).accepted == h.accepted && h.waiting != [] {
      assert |h.accepted + [h.waiting[0]]| != |h.accepted|;
    }
  }

  // What a processing step does, case by case, and what its caller is told.

  /** A posting is with the driver and not finished: nothing changes, and the driver says whether to poll again. */
  lemma StillPending(h: History, again: bool, reply: Reply)
    requires h.current != None
    ensures h.Process(Pending(again), reply) == h && h.ProcessAgain(Pending(again), reply) == again
  {
  }

  /** A suspended queue completes the posting in progress and hands over nothing. */
  lemma SuspendedCompletes(h: History, status: Status, reply: Reply)
    requires h.current != None && h.suspends > 0
    ensures var r := h.Process(Ready(status), reply);
            && r.current == None && r.waiting == h.waiting && r.accepted == h.accepted
            && r.finished == h.finished + [h.current.value] && r.outcome == h.outcome[h.current.value := status]
    ensures !h.ProcessAgain(Ready(status), reply)
  {
  }

  /** So does a queue that has nothing left, or whose driver refuses. */
  lemma NothingHandedOver(h: History, status: Status, reply: Reply)
    requires h.current != None && (h.waiting == [] || reply == Refused)
    ensures var r := h.Process(Ready(status), reply);
            && r.current == None && r.waiting == h.waiting && r.accepted == h.accepted
            && r.finished == h.finished + [h.current.value] && r.outcome == h.outcome[h.current.value := status]
    ensures !h.ProcessAgain(Ready(status), reply)
  {
  }

  /** Otherwise the step that completes a posting hands over the next one, and the driver may even finish it at once. */
  lemma HandsOver(h: History, status: Status, next: Poll)
    requires h.Inv() && h.current != None && h.suspends == 0 && h.waiting != []
    ensures var r, t := h.Process(Ready(status), Accepted(next)), h.waiting[0];
            && r.waiting == h.waiting[1..] && r.accepted == h.accepted + [t]
            && h.current.value in r.outcome && r.outcome[h.current.value] == status
            && match next
               case Pending(again) =>
                 r.current == Some(t) && r.recall == again && r.finished == h.finished + [h.current.value]
               case Ready(done) =>
                 && r.current == None && t in r.outcome && r.outcome[t] == done
                 && r.finished == h.finished + [h.current.value, t]
    ensures h.ProcessAgain(Ready(status), Accepted(next)) == if next.Pending? then next.recall else true
  {
    hide Distinct, Remaining;
    CurrentNotWaiting(h);
  }

  /** A queue with nothing in progress offers its first posting, suspended or not. */
  lemma IdleOffers(h: History, poll: Poll, next: Poll)
    requires h.current == None && h.driver != Absent && h.waiting != []
    ensures var r, t := h.Process(poll, Accepted(next)), h.waiting[0];
            && r.waiting == h.waiting[1..] && r.accepted == h.accepted + [t]
            && match next
               case Pending(again) => r.current == Some(t) && r.recall == again && r.finished == h.finished
               case Ready(done) =>
                 r.current == None && t in r.outcome && r.outcome[t] == done && r.finished == h.finished + [t]
    ensures h.ProcessAgain(poll, Accepted(next)) == if next.Pending? then next.recall else true
  {
  }

  /** Nothing happens to it if it is empty, has no driver or is refused. */
  lemma IdleStays(h: History, poll: Poll, reply: Reply)
    requires h.current == None && (h.driver == Absent || h.waiting == [] || reply == Refused)
    ensures h.Process(poll, reply) == h && !h.ProcessAgain(poll, reply)
  {
  }

  /** What a handle shows: the driver's recall while a posting is with it, and the outcome once it has finished. */
  lemma StatusShows(h: History, t: nat)
    requires h.Inv() && t < h.posted
    ensures h.StatusOf(t) == if t in h.outcome then Ready(h.outcome[t])
                             else if h.current == Some(t) then Pending(h.recall) else Pending(false)
  {
    CurrentNotWaiting(h);
  }
}
