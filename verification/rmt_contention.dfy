/** Contention for channel RAM: clients that get in each other's way cannot all be refused. */
module RmtContention {
  import opened Rmt

  /** In an attempt that was not refused, or past it. */
  predicate Alive(me: Client) {
    me.pc.Claiming? || me.pc.Owner? || me.pc.Holding?
  }

  predicate AllIdle(s: System) {
    forall c :: 0 <= c < |s.clients| ==> s.clients[c].pc.Idle?
  }

  /** No range is being given back, and no block above `highest` was refused to a client that is rolling back. */
  predicate RefusedBelow(s: System, highest: int) {
    forall c :: 0 <= c < |s.clients| ==>
      var pc := s.clients[c].pc;
      !pc.Dropping? && !pc.Releasing? && (pc.RollingBack? ==> pc.upTo <= highest)
  }

  /** Client `d` is past every block that was ever refused to anyone. */
  predicate Ahead(s: System, highest: int, d: nat) {
    d < |s.clients| && Alive(s.clients[d]) && s.clients[d].End() > highest
  }

  ghost predicate SomeoneAhead(s: System, highest: int) {
    exists d: nat :: Ahead(s, highest, d)
  }

  /** Who owns a block above all that were refused so far is not rolling back. */
  lemma OwnerIsAlive(s: System, highest: int, k: nat)
    requires Inv(s) && RefusedBelow(s, highest) && highest <= k < |s.state| && s.state[k] != Unconfigured
    ensures 0 <= s.owner[k] < |s.clients| && Ahead(s, k, s.owner[k])
  {
    hide Recorded;
    var d := s.owner[k];
    assert s.state[k] == Content(s, k);
    assert s.clients[d].Owns(k);
  }

  /** A refusal above all others has an owner behind it who is ahead of it. */
  lemma RefusalKeeps(s: System, highest: int, c: nat, d: nat) returns (g: int, w: nat)
    requires Inv(s) && c < |s.clients| && s.clients[c].pc.Claiming? && s.state[s.clients[c].pc.next] != Unconfigured
    requires RefusedBelow(s, highest) && Ahead(s, highest, d)
    ensures var t := Step(s, c, Advance); g >= highest && RefusedBelow(t, g) && Ahead(t, g, w)
  {
    hide Inv, Recorded, Disjoint, Marked;
    InSize(s, c);
    var k := s.clients[c].pc.next;
    if k < highest {
      g, w := highest, d;
    } else {
      OwnerIsAlive(s, highest, k);
      g, w := k, s.owner[k];
    }
  }

  lemma InSize(s: System, c: nat)
    requires Inv(s) && c < |s.clients|
    ensures Sized(s) && s.clients[c].WellFormed(|s.state|)
  {
  }

  lemma StepKeepsAhead(s: System, highest: int, c: nat, a: Action, d: nat) returns (g: int, w: nat)
    requires Inv(s) && c < |s.clients| && a != Drop
    requires RefusedBelow(s, highest) && Ahead(s, highest, d)
    ensures var t := Step(s, c, a); RefusedBelow(t, g) && Ahead(t, g, w)
  {
    hide Inv, Recorded, Disjoint, Marked;
    InSize(s, c);
    g, w := highest, d;
    if a.Advance? && s.clients[c].pc.Claiming? && s.state[s.clients[c].pc.next] != Unconfigured {
      g, w := RefusalKeeps(s, highest, c, d);
    }
  }

  predicate NoDrops(run: seq<Turn>) {
    forall i :: 0 <= i < |run| ==> run[i].action != Drop
  }

  lemma {:induction false} AheadStays(s: System, highest: int, d: nat, run: seq<Turn>)
    requires Inv(s) && Schedule(run, |s.clients|) && NoDrops(run)
    requires RefusedBelow(s, highest) && Ahead(s, highest, d)
    ensures exists g: int :: RefusedBelow(Execute(s, run), g) && SomeoneAhead(Execute(s, run), g)
    decreases |run|
  {
    hide Disjoint, Marked, Recorded, RefusedBelow, Ahead;
    if run == [] {
      assert RefusedBelow(Execute(s, run), highest) && SomeoneAhead(Execute(s, run), highest);
    } else {
      var g, w := StepKeepsAhead(s, highest, run[0].client, run[0].action, d);
      StepKeepsInv(s, run[0].client, run[0].action);
      AheadStays(Step(s, run[0].client, run[0].action), g, w, run[1..]);
      assert Execute(s, run) == Execute(Step(s, run[0].client, run[0].action), run[1..]);
    }
  }

  /** Some attempt begins in the run, or is under way at its start. */
  predicate Begun(s: System, run: seq<Turn>)
    requires Inv(s) && Schedule(run, |s.clients|)
    decreases |run|
  {
    !AllIdle(s) || (run != [] && (StepKeepsInv(s, run[0].client, run[0].action);
                                  Begun(Step(s, run[0].client, run[0].action), run[1..])))
  }

  lemma {:induction false} FirstIsAhead(s: System, run: seq<Turn>)
    requires Inv(s) && Schedule(run, |s.clients|) && NoDrops(run) && AllIdle(s) && Begun(s, run)
    ensures exists g: int :: RefusedBelow(Execute(s, run), g) && SomeoneAhead(Execute(s, run), g)
    decreases |run|
  {
    hide Disjoint, Marked, Recorded;
    var c, a := run[0].client, run[0].action;
    var t := Step(s, c, a);
    StepKeepsInv(s, c, a);
    assert Execute(s, run) == Execute(t, run[1..]);
    if AllIdle(t) {
      FirstIsAhead(t, run[1..]);
    } else {
      assert RefusedBelow(t, -1) && Ahead(t, -1, c);
      AheadStays(t, -1, c, run[1..]);
    }
  }

  /**
   * If all blocks are free at first and no range is given back, then once an attempt has begun there is always one
   * that was not refused; when all attempts have ended, one of them has succeeded.
   */
  lemma SomeoneSucceeds(s: System, run: seq<Turn>)
    requires Initial(s) && Schedule(run, |s.clients|) && NoDrops(run)
    ensures Inv(s)
    ensures Begun(s, run) ==>
              var t := Execute(s, run);
              && (exists d: nat :: d < |t.clients| && Alive(t.clients[d]))
              && ((forall c :: 0 <= c < |t.clients| ==> t.clients[c].pc.Idle? || t.clients[c].pc.Holding?)
                    ==> exists d: nat :: d < |t.clients| && t.clients[d].pc.Holding?)
  {
    InitialInv(s);
    hide Inv;
    if Begun(s, run) {
      FirstIsAhead(s, run);
      var t := Execute(s, run);
      var g: int :| RefusedBelow(t, g) && SomeoneAhead(t, g);
      var d: nat :| Ahead(t, g, d);
      assert Alive(t.clients[d]);
    }
  }
}
