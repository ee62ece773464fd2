/** Handles of posted work items: polling, waiting and dropping. */
module Handles {
  import opened Wrappers
  import opened QueueHistory
  import opened QueueProgress
  import opened WorkQueue

  class Handle {
    const queue: Inner
    const item: WorkItem

    constructor (queue: Inner, item: WorkItem)
      ensures this.queue == queue && this.item == item
    {
      this.queue, this.item := queue, item;
    }

    /** `poll` and `post` are what the driver would answer, should the queue ask it. */
    method PollInner(poll: Poll, post: Reply) returns (status: Poll)
      requires queue.Valid() && item in queue.posted && item in queue.tickets
      modifies queue`head, queue`tail, queue`items, queue`current, queue`statuses, queue`history
      modifies queue.posted`next, queue.posted`status
      ensures queue.Valid()
      ensures queue.history == if old(queue.history).Pends(queue.tickets[item])
                               then old(queue.history).Process(poll, post) else old(queue.history)
      ensures status == item.status == queue.history.StatusOf(queue.tickets[item])
      ensures status.Pending? <==> queue.history.Pends(queue.tickets[item])
    {
      hide Inner.Valid, History.Process;
      StatusShown(queue, item);
      status := item.status;
      if status.Pending? {
        var _ := queue.Process(poll, post);
        StatusShown(queue, item);
        status := item.status;
      }
    }

    /** Busy-wait; `rounds` holds the driver's answers to successive polls, and at least as many as there is work. */
    method WaitBlocking(rounds: seq<Round>, ghost w: Work) returns (status: Status)
      requires queue.Valid() && item in queue.posted && item in queue.tickets
      requires Enough(queue.history, w, rounds, queue.tickets[item])
      modifies queue`head, queue`tail, queue`items, queue`current, queue`statuses, queue`history
      modifies queue.posted`next, queue.posted`status
      ensures queue.Valid() && item.status == Ready(status)
      ensures !queue.history.Pends(queue.tickets[item])
    {
      hide Inner.Valid, History.Process, Enough;
      var k := 0;
      ghost var v := w;
      while true
        invariant queue.Valid() && k <= |rounds| && Enough(queue.history, v, rounds[k..], queue.tickets[item])
        decreases |rounds| - k
      {
        var answers := Answers(rounds[k..]);
        EnoughLeft(queue, item, v, rounds[k..]);
        var polled := PollInner(answers.poll, answers.reply);
        if polled.Ready? {
          return polled.status;
        }
        v := rounds[k].left;
        assert rounds[k..][1..] == rounds[k + 1..];
        k := k + 1;
      }
    }

    /** Dropping the handle cancels the item, or waits for the driver to release it. */
    method Drop(rounds: seq<Round>, ghost w: Work)
      requires queue.Valid() && item in queue.posted && item in queue.tickets
      requires queue.current == item ==> Enough(queue.history, w, rounds, queue.tickets[item])
      modifies queue`head, queue`tail, queue`items, queue`current, queue`statuses, queue`history
      modifies queue.posted`next, queue.posted`status
      ensures queue.Valid() && item.status.Ready?
      ensures !queue.history.Pends(queue.tickets[item])
      ensures old(queue.current) != item ==> queue.history == old(queue.history).Cancel(queue.tickets[item])
    {
      hide Inner.Valid, History.Process, Enough;
      queue.Locates(item);
      var done := queue.Cancel(item);
      StatusShown(queue, item);
      if !done {
        var _ := WaitBlocking(rounds, w);
      }
    }
  }

  /** The driver's answers at the next poll. */
  function Answers(rounds: seq<Round>): (e: Event)
    ensures e.Processing?
  {
    if rounds != [] && rounds[0].event.Processing? then rounds[0].event else Processing(Pending(false), Refused)
  }

  /** A driver is installed, accepts everything, and `rounds` has as many polls as posting `t` has work ahead of it. */
  ghost predicate Enough(h: History, w: Work, rounds: seq<Round>, t: nat) {
    && h.driver != Absent
    && (forall r <- rounds :: r.event.Processing?)
    && DiligentRun(h, w, rounds)
    && Measure(h, w, t) <= |rounds|
  }

  lemma StatusShown(queue: Inner, item: WorkItem)
    requires queue.Valid()
    ensures item in queue.posted ==> item in queue.tickets && item.status == queue.history.StatusOf(queue.tickets[item])
    ensures item in queue.posted ==> (item.status.Pending? <==> queue.history.Pends(queue.tickets[item]))
  {
  }

  lemma EnoughLeft(queue: Inner, item: WorkItem, w: Work, rounds: seq<Round>)
    requires queue.Valid() && item in queue.posted && item in queue.tickets
    requires Enough(queue.history, w, rounds, queue.tickets[item])
    ensures var t, e := queue.tickets[item], Answers(rounds);
            queue.history.Pends(t) && queue.history.Process(e.poll, e.reply).Pends(t) ==>
              rounds != [] && Enough(queue.history.Process(e.poll, e.reply), rounds[0].left, rounds[1..], t)
  {
    if queue.history.Pends(queue.tickets[item]) {
      EnoughLeftFor(queue.history, w, rounds, queue.tickets[item]);
    }
  }

  lemma EnoughLeftFor(h: History, w: Work, rounds: seq<Round>, t: nat)
    requires h.Inv() && Enough(h, w, rounds, t) && h.Pends(t)
    ensures rounds != []
    ensures var g := h.Process(Answers(rounds).poll, Answers(rounds).reply);
            g.Pends(t) ==> Enough(g, rounds[0].left, rounds[1..], t)
  {
    MeasurePositive(h, w, t);
    var e := rounds[0].event;
    if Apply(h, e).Pends(t) {
      ProcessFalls(h, w, e, rounds[0].left, t);
    }
  }
}
