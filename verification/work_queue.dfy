/** The work queue itself: an intrusive list of work items, each operation one critical section. */
module WorkQueue {
  import opened Wrappers
  import opened QueueHistory

  class WorkItem {
    var next: WorkItem?
    var status: Poll
    constructor ()
      ensures next == null && status == Pending(false)
    {
      next, status := null, Pending(false);
    }

    method Complete(outcome: Status)
      modifies this`status
      ensures status == Ready(outcome)
    {
      status := Ready(outcome);
    }

    method Prepare()
      modifies this`next, this`status
      ensures next == null && status == Pending(false)
    {
      next := null;
      status := Pending(false);
    }
  }

  /** What the history speaks of: the list, the item in progress and the record of every posted item. */
  datatype Snapshot = Snapshot(
    items: seq<WorkItem>,
    current: WorkItem?,
    tickets: map<WorkItem, nat>,
    statuses: map<WorkItem, Poll>,
    installed: bool,
    suspends: nat)
  {
    ghost predicate Tracks(h: History) {
      && |h.waiting| == |items|
      && (forall k :: 0 <= k < |items| ==> items[k] in tickets && h.waiting[k] == tickets[items[k]])
      && (current != null ==> current in tickets)
      && h.current == (if current == null then None else Some(tickets[current]))
    }

    ghost predicate Reports(h: History) {
      && statuses.Keys == tickets.Keys
      && forall i <- tickets :: tickets[i] < h.posted && statuses[i] == h.StatusOf(tickets[i])
    }

    ghost predicate Numbered() {
      forall i <- tickets, j <- tickets :: tickets[i] == tickets[j] ==> i == j
    }
  }

  /** Pointers and statuses agree with the history. */
  ghost predicate Agrees(s: Snapshot, h: History) {
    s.Tracks(h) && s.Reports(h) && s.Numbered() && s.suspends == h.suspends && s.installed == (h.driver != Absent)
  }

  function AfterPost(s: Snapshot, h: History, item: WorkItem): (r: Snapshot) {
    s.(items := s.items + [item], tickets := s.tickets[item := h.posted],
        statuses := s.statuses[item := Pending(false)])
  }

  lemma PostAgrees(s: Snapshot, h: History, item: WorkItem)
    requires Agrees(s, h) && h.Inv() && item !in s.items && item != s.current
    ensures Agrees(AfterPost(s, h, item), h.Post())
  {
  }

  function AfterOffer(s: Snapshot, poll: Poll): (r: Snapshot)
    requires s.items != []
  {
    s.(items := s.items[1..], current := if poll.Pending? then s.items[0] else s.current,
    statuses := s.statuses[s.items[0] := poll])
  }

  lemma OfferReports(s: Snapshot, h: History, poll: Poll)
    requires Agrees(s, h) && h.Inv() && s.current == null && s.items != [] && s.installed
    ensures AfterOffer(s, poll).Reports(h.Offer(Accepted(poll)))
  {
    hide History.Inv;
    WaitingFacts(h);
  }

  lemma OfferAgrees(s: Snapshot, h: History, poll: Poll)
    requires Agrees(s, h) && h.Inv() && s.current == null && s.items != [] && s.installed
    ensures Agrees(AfterOffer(s, poll), h.Offer(Accepted(poll))) && h.Offer(Accepted(poll)).Inv()
    ensures h.OfferAgain(Accepted(poll)) == (poll.Pending? ==> poll.recall)
  {
    hide History.Inv, Snapshot.Reports;
    OfferReports(s, h, poll);
    OfferKeepsInv(h, Accepted(poll));
  }

  function AfterFinish(s: Snapshot, status: Status): (r: Snapshot)
    requires s.current != null
  {
    s.(current := null, statuses := s.statuses[s.current := Ready(status)])
  }

  lemma FinishAgrees(s: Snapshot, h: History, status: Status)
    requires Agrees(s, h) && h.Inv() && s.current != null
    ensures h.current != None
    ensures var r := h.Finish(h.current.value, status).(current := None); Agrees(AfterFinish(s, status), r) && r.Inv()
  {
    CompleteKeepsInv(h, status);
  }

  function AfterCancel(s: Snapshot, item: WorkItem): (r: Snapshot) {
    s.(items := Without(s.items, item), statuses := s.statuses[item := Ready(Cancelled)])
  }

  lemma CancelTracks(s: Snapshot, h: History, item: WorkItem)
    requires Agrees(s, h) && h.Inv() && item in s.items && Distinct(s.items)
    ensures s.tickets[item] in h.waiting && h.current != Some(s.tickets[item])
    ensures AfterCancel(s, item).Tracks(h.Cancel(s.tickets[item]))
  {
    hide History.Inv, Snapshot.Reports, Snapshot.Numbered, Without, Distinct;
    var k :| 0 <= k < |s.items| && s.items[k] == item;
    CurrentNotWaiting(h);
    WithoutSplits(s.items, k);
    WithoutSplits(h.waiting, k);
  }

  lemma CancelAgrees(s: Snapshot, h: History, item: WorkItem)
    requires Agrees(s, h) && h.Inv() && item in s.items && Distinct(s.items)
    ensures item in s.tickets
    ensures Agrees(AfterCancel(s, item), h.Cancel(s.tickets[item])) && h.Cancel(s.tickets[item]).Inv()
  {
    CancelTracks(s, h, item);
    CancelKeepsInv(h, s.tickets[item]);
    WaitingFacts(h);
    WithoutMembers(h.waiting, s.tickets[item]);
  }

  lemma StartAgrees(s: Snapshot, h: History)
    requires Agrees(s, h) && h.Inv() && h.driver == Absent
    ensures Agrees(s.(installed := true), h.Start()) && h.Start().Inv()
  {
  }

  lemma DropAgrees(s: Snapshot, h: History)
    requires Agrees(s, h) && h.Inv() && h.driver == Running
    ensures var r := if s.current == null then s.(installed := false) else s.(suspends := s.suspends + 1);
            Agrees(r, h.Drop()) && h.Drop().Inv() && r.installed == (s.current != null)
  {
  }

  lemma DropCheckAgrees(s: Snapshot, h: History)
    requires Agrees(s, h) && h.Inv() && h.driver == Stopping
    ensures s.current == null ==> s.suspends > 0
    ensures var r := if s.current != null then s else s.(installed := false, suspends := s.suspends - 1);
            Agrees(r, h.DropCheck()) && h.DropCheck().Inv() && r.installed == (s.current != null)
            && h.DropCheck().driver == if s.current == null then Absent else Stopping
  {
  }

  class Inner {
    var head: WorkItem?
    var tail: WorkItem?
    var current: WorkItem?
    /** The operation table is a driver's; otherwise it is the no-op table. */
    var installed: bool
    var suspendCount: nat
    ghost var items: seq<WorkItem>
    /** The items last posted here whose handle may still be alive. */
    ghost var posted: set<WorkItem>
    /** The number of the latest posting of each, and its status. */
    ghost var tickets: map<WorkItem, nat>
    ghost var statuses: map<WorkItem, Poll>
    ghost var history: History

    /** `items` is the list that starts at `head` and ends at `tail`. */
    ghost predicate Linked()
      reads this`head, this`tail, this`items, items`next
    {
      && Distinct(items)
      && (items == [] ==> head == null && tail == null)
      && (items != [] ==> head == items[0] && tail == items[|items| - 1] && tail.next == null)
      && forall i :: 0 <= i < |items| - 1 ==> items[i].next == items[i + 1]
    }

    ghost function Snap(): (s: Snapshot)
      reads this
    {
      Snapshot(items, current, tickets, statuses, installed, suspendCount)
    }

    ghost predicate Known()
      reads this, posted
    {
      && (forall i <- items :: i in posted) && posted == tickets.Keys == statuses.Keys
      && (forall i <- posted :: i.status == statuses[i])
    }

    ghost predicate Valid()
      reads this, posted
    {
      Known() && Linked() && Agrees(Snap(), history) && history.Inv()
    }

    /** Valid but for `item`, which was first in the list and has been taken out. */
    ghost predicate Lacks(item: WorkItem)
      reads this, posted
    {
      && Known() && Linked() && item in posted && item !in items && current == null
      && Agrees(Snap().(items := [item] + items), history) && history.Inv()
    }

    constructor ()
      ensures Valid() && items == [] && posted == {} && history == EMPTY
    {
      head, tail, current, installed, suspendCount := null, null, null, false, 0;
      items, posted, tickets, statuses, history := [], {}, map[], map[], EMPTY;
    }

    method Enqueue(item: WorkItem)
      requires Linked() && item !in items && item.next == null
      modifies this`head, this`tail, this`items, items`next
      ensures Linked() && items == old(items) + [item]
    {
      if tail != null {
        tail.next := item;
      } else {
        head := item;
      }
      tail := item;
      items := items + [item];
    }

    method EnqueueFront(item: WorkItem)
      requires Linked() && item !in items
      modifies this`head, this`tail, this`items, item`next
      ensures Linked() && items == [item] + old(items)
    {
      item.next := head;
      head := item;
      if tail == null {
        tail := item;
      }
      items := [item] + items;
    }

    method Dequeue() returns (item: WorkItem?)
      requires Linked()
      modifies this`head, this`tail, this`items
      ensures Linked()
      ensures if old(items) == [] then item == null && items == []
              else item == old(items[0]) && items == old(items[1..])
      ensures item !in items
    {
      item := head;
      if item == null {
        return;
      }
      head := item.next;
      if head == null {
        tail := null;
      }
      items := items[1..];
    }

    /** `prev` and `next` are the neighbours of item `k`. */
    method Unlink(prev: WorkItem?, item: WorkItem, next: WorkItem?, ghost k: nat)
      requires Linked() && k < |items| && item == items[k]
      requires prev == (if k == 0 then null else items[k - 1]) && next == item.next
      modifies this`head, this`tail, this`items, items`next
      ensures Linked() && items == old(items[..k] + items[k + 1..])
    {
      if item == head {
        head := next;
      } else {
        prev.next := next;
      }
      if item == tail {
        tail := prev;
      }
      items := items[..k] + items[k + 1..];
    }

    method Remove(item: WorkItem) returns (found: bool)
      requires Linked()
      modifies this`head, this`tail, this`items, items`next
      ensures Linked()
      ensures found <==> item in old(items)
      ensures items == Without(old(items), item) && (!found ==> items == old(items))
    {
      var prev: WorkItem?, cursor := null, head;
      ghost var k := 0;
      while cursor != null
        invariant 0 <= k <= |items|
        invariant cursor == if k < |items| then items[k] else null
        invariant prev == if k == 0 then null else items[k - 1]
        invariant item !in items[..k]
        decreases |items| - k
      {
        var next := cursor.next;
        if cursor != item {
          prev := cursor;
          cursor := next;
          k := k + 1;
          continue;
        }
        WithoutSplits(items, k);
        Unlink(prev, item, next, k);
        return true;
      }
      WithoutNothing(items, item);
      found := false;
    }

    /** The installed table's `poll`. The no-op table has none: calling it is unreachable. */
    method TablePoll(answer: Poll) returns (poll: Poll)
      requires installed
      ensures poll == answer
    {
      poll := answer;
    }

    /** The installed table's `post`; the no-op table takes nothing. */
    method TablePost(answer: Reply) returns (reply: Reply)
      ensures reply == if installed then answer else Refused
    {
      reply := if installed then answer else Refused;
    }

    /** The queue after `item` was linked behind `before` and before the posting is recorded. */
    ghost predicate Appended(item: WorkItem, before: seq<WorkItem>)
      reads this, posted, item
    {
      && items == before + [item] && item !in before && item != current && item.status == Pending(false)
      && (forall i <- before :: i in posted) && posted == tickets.Keys == statuses.Keys
      && (forall i <- posted :: i == item || i.status == statuses[i])
      && Agrees(Snap().(items := before), history) && history.Inv()
    }

    ghost method RecordPost(item: WorkItem, before: seq<WorkItem>)
      requires Linked() && Appended(item, before)
      modifies this`posted, this`tickets, this`statuses, this`history
      ensures Valid() && posted == old(posted) + {item} && tickets == old(tickets)[item := old(history.posted)]
      ensures history == old(history).Post()
    {
      hide Inner.Linked, Agrees, History.Inv, History.Post;
      PostAgrees(Snap().(items := before), history, item);
      PostKeepsInv(history);
      posted, tickets := posted + {item}, tickets[item := history.posted];
      statuses, history := statuses[item := Pending(false)], history.Post();
    }

    method PostWork(item: WorkItem)
      requires Valid() && item !in items && item != current
      modifies this`head, this`tail, this`items, this`posted, this`tickets, this`statuses, this`history
      modifies items`next, item`next, item`status
      ensures Valid() && posted == old(posted) + {item} && tickets == old(tickets)[item := old(history.posted)]
      ensures history == old(history).Post()
    {
      hide Inner.Linked, Agrees, History.Inv, History.Post;
      item.Prepare();
      Enqueue(item);
      assert Snap().(items := old(items)) == old(Snap());
      RecordPost(item, old(items));
    }

    method TakeFirst() returns (item: WorkItem?)
      requires Valid() && current == null
      modifies this`head, this`tail, this`items
      ensures item == null ==> Valid() && history.waiting == []
      ensures item != null ==> Lacks(item) && history.waiting != []
      ensures installed <==> history.driver != Absent
    {
      hide Inner.Linked, History.Inv;
      item := Dequeue();
      if item != null {
        assert [item] + items == old(items);
      }
    }

    method PutBack(item: WorkItem)
      requires Lacks(item)
      modifies this`head, this`tail, this`items, item`next
      ensures Valid()
    {
      hide Inner.Linked, Agrees, History.Inv;
      EnqueueFront(item);
    }

    method Accept(item: WorkItem, poll: Poll) returns (again: bool)
      requires Lacks(item) && installed
      modifies this`current, this`statuses, this`history, item`status
      ensures Valid()
      ensures history == old(history).Offer(Accepted(poll)) && again == old(history).OfferAgain(Accepted(poll))
    {
      hide Inner.Linked, Agrees, History.Inv, History.Offer, History.OfferAgain;
      OfferAgrees(Snap().(items := [item] + items), history, poll);
      assert ([item] + items)[1..] == items;
      match poll {
        case Pending(recall) =>
          item.status := Pending(recall);
          current := item;
          again := recall;
        case Ready(status) =>
          item.Complete(status);
          again := true;
      }
      statuses, history := statuses[item := poll], history.Offer(Accepted(poll));
    }

    /** `dequeue_and_post`. */
    method DequeueAndPost(answer: Reply) returns (again: bool)
      requires Valid() && current == null
      modifies this`head, this`tail, this`items, this`current, this`statuses, this`history, posted`next, posted`status
      ensures Valid()
      ensures history == old(history).Offer(answer) && again == old(history).OfferAgain(answer)
    {
      hide Inner.Linked, Agrees, History.Inv, Inner.Valid;
      var item := TakeFirst();
      if item == null {
        return false;
      }
      var reply := TablePost(answer);
      if reply == Refused {
        PutBack(item);
        again := false;
      } else {
        again := Accept(item, reply.poll);
      }
    }

    method FinishCurrent(status: Status)
      requires Valid() && current != null
      modifies this`current, this`statuses, this`history, posted`status
      ensures Valid() && current == null && old(history).current != None
      ensures history == old(history).Finish(old(history).current.value, status).(current := None)
    {
      hide Inner.Linked, Agrees, History.Inv, History.Finish;
      FinishAgrees(Snap(), history, status);
      KnowsCurrent();
      current.Complete(status);
      statuses := statuses[current := Ready(status)];
      history := history.Finish(history.current.value, status).(current := None);
      current := null;
    }

    lemma KnowsCurrent()
      requires Valid()
      ensures current != null ==> current in posted && history.current == Some(tickets[current]) && installed
      ensures current == null ==> history.current == None
      ensures suspendCount == history.suspends
    {
    }

    /** One processing iteration; `poll` and `post` are what the driver would answer. */
    method Process(poll: Poll, post: Reply) returns (again: bool)
      requires Valid()
      modifies this`head, this`tail, this`items, this`current, this`statuses, this`history, posted`next, posted`status
      ensures Valid()
      ensures history == old(history).Process(poll, post) && again == old(history).ProcessAgain(poll, post)
    {
      hide Inner.Valid, History.Offer;
      KnowsCurrent();
      if current != null {
        var result := TablePoll(poll);
        match result {
          case Ready(status) =>
            FinishCurrent(status);
            KnowsCurrent();
            if suspendCount > 0 {
              again := false;
            } else {
              again := DequeueAndPost(post);
            }
          case Pending(recall) =>
            again := recall;
        }
      } else {
        again := DequeueAndPost(post);
      }
    }

    /** `true` when the item was cancelled at once, or had nothing left to cancel. */
    method Cancel(item: WorkItem) returns (done: bool)
      requires Valid()
      modifies this`head, this`tail, this`items, this`statuses, this`history, posted`next, posted`status
      ensures Valid()
      ensures history == if item in posted then old(history).Cancel(tickets[item]) else old(history)
      ensures item in posted ==> done == (item != current) && (done ==> item.status.Ready?)
      ensures item !in posted ==> done == item.status.Ready?
    {
      hide Inner.Valid, History.Cancel;
      Locates(item);
      if current == item {
        return false;
      }
      if item.status.Ready? {
        return true;
      }
      done := RemoveCancelled(item);
    }

    /** A posted item is pending exactly when it is in the list or in progress. */
    lemma Locates(item: WorkItem)
      requires Valid()
      ensures item in posted ==> (item.status.Pending? <==> item in items || item == current)
      ensures item in items || item == current ==> item in posted
      ensures item in posted && item !in items ==> item in tickets && history.Cancel(tickets[item]) == history
      ensures item in posted ==> item in tickets && item.status == history.StatusOf(tickets[item])
      ensures item == current ==> item !in items
      ensures Distinct(items) && forall i <- items :: i in posted
    {
      CurrentNotWaiting(history);
    }

    /** The queue after `item` was plucked out of `before` and cancelled, before that is recorded. */
    ghost predicate Plucked(item: WorkItem, before: seq<WorkItem>)
      reads this, posted
    {
      && items == QueueHistory.Without(before, item) && item in before && Distinct(before)
      && (forall i <- before :: i in posted) && posted == tickets.Keys == statuses.Keys
      && (forall i <- posted :: i.status == if i == item then Ready(Cancelled) else statuses[i])
      && Agrees(Snap().(items := before), history) && history.Inv()
    }

    ghost method RecordCancel(item: WorkItem, before: seq<WorkItem>)
      requires Linked() && Plucked(item, before)
      modifies this`statuses, this`history
      ensures Valid() && item in posted && history == old(history).Cancel(tickets[item])
    {
      hide Inner.Linked, Agrees, History.Inv, History.Cancel, Distinct, QueueHistory.Without;
      CancelAgrees(Snap().(items := before), history, item);
      WithoutMembers(before, item);
      statuses, history := statuses[item := Ready(Cancelled)], history.Cancel(tickets[item]);
    }

    method RemoveCancelled(item: WorkItem) returns (found: bool)
      requires Valid()
      modifies this`head, this`tail, this`items, this`statuses, this`history, items`next, items`status
      ensures Valid()
      ensures found == (item in old(items)) && (found ==> item in posted && item.status == Ready(Cancelled))
      ensures history == if found then old(history).Cancel(tickets[item]) else old(history)
    {
      hide Inner.Linked, Agrees, History.Inv, History.Cancel, Distinct, QueueHistory.Without;
      Locates(item);
      found := Remove(item);
      assert Snap().(items := old(items)) == old(Snap());
      if found {
        item.Complete(Cancelled);
        RecordCancel(item, old(items));
      }
    }

    method Suspend()
      modifies this`suspendCount
      ensures suspendCount == old(suspendCount) + 1
    {
      suspendCount := suspendCount + 1;
    }

    method Resume()
      requires suspendCount > 0
      modifies this`suspendCount
      ensures suspendCount == old(suspendCount) - 1
    {
      suspendCount := suspendCount - 1;
    }

    method Configure(driver: bool)
      modifies this`installed
      ensures installed == driver
    {
      installed := driver;
    }

    /** `WorkQueueDriver::new`, when no other driver is there. */
    method StartDriver()
      requires Valid() && history.driver == Absent
      modifies this`installed, this`history
      ensures Valid() && history == old(history).Start() && installed
    {
      hide Inner.Linked, Agrees, History.Inv, History.Start, History.Drop, History.DropCheck;
      StartAgrees(Snap(), history);
      Configure(true);
      history := history.Start();
    }

    /** The first critical section of dropping a driver: shut down, or suspend and wait. */
    method DropDriver() returns (wait: bool)
      requires Valid() && history.driver == Running
      modifies this`installed, this`suspendCount, this`history
      ensures Valid() && history == old(history).Drop()
      ensures wait == (current != null) && installed == wait
      ensures suspendCount == old(suspendCount) + if wait then 1 else 0
    {
      hide Inner.Linked, Agrees, History.Inv, History.Start, History.Drop, History.DropCheck;
      DropAgrees(Snap(), history);
      if current != null {
        Suspend();
        wait := true;
      } else {
        Configure(false);
        wait := false;
      }
      history := history.Drop();
    }

    /** One turn of the loop that waits for the item in progress. */
    method FinishDrop() returns (done: bool)
      requires Valid() && history.driver == Stopping
      modifies this`installed, this`suspendCount, this`history
      ensures Valid() && history == old(history).DropCheck()
      ensures suspendCount == old(suspendCount) - if done then 1 else 0
      ensures done == (current == null) && installed == !done && history.driver == if done then Absent else Stopping
    {
      hide Inner.Linked, Agrees, History.Inv, History.Start, History.Drop, History.DropCheck;
      DropCheckAgrees(Snap(), history);
      if current != null {
        history := history.DropCheck();
        return false;
      }
      Configure(false);
      Resume();
      history := history.DropCheck();
      done := true;
    }
  }
}
