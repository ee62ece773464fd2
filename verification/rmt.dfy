/** Reservation of RMT channel RAM: the loop of compare-exchanges alone, and interleaved with any other clients. */
module Rmt {
  datatype BlockState = Unconfigured | Reserved | Rx | Tx

  datatype Error = InvalidMemsize | MemoryBlockNotAvailable

  datatype Result = Ok | Err(error: Error)

  /** What a reservation writes to block `k`. */
  function Mark(channel: nat, kind: BlockState, k: nat): BlockState {
    if k == channel then kind else Reserved
  }

  /** The state array with blocks `channel .. upTo` claimed. */
  function Claimed(s: seq<BlockState>, channel: nat, kind: BlockState, upTo: nat): (t: seq<BlockState>)
    requires channel <= upTo <= |s|
    ensures |t| == |s|
  {
    seq(|s|, k requires 0 <= k < |s| => if channel <= k < upTo then Mark(channel, kind, k) else s[k])
  }

  function Freed(s: seq<BlockState>, from: nat, upTo: nat): (t: seq<BlockState>)
    requires from <= upTo <= |s|
    ensures |t| == |s|
  {
    seq(|s|, k requires 0 <= k < |s| => if from <= k < upTo then Unconfigured else s[k])
  }

  predicate AllFree(s: seq<BlockState>, from: nat, upTo: nat)
    requires from <= upTo <= |s|
  {
    forall k :: from <= k < upTo ==> s[k] == Unconfigured
  }

  /** Giving back what was just taken restores the array. */
  lemma FreeUndoesClaim(s: seq<BlockState>, channel: nat, kind: BlockState, upTo: nat)
    requires channel <= upTo <= |s| && AllFree(s, channel, upTo)
    ensures Freed(Claimed(s, channel, kind, upTo), channel, upTo) == s
  {
    assert forall k :: 0 <= k < |s| ==> Freed(Claimed(s, channel, kind, upTo), channel, upTo)[k] == s[k];
  }

  method CompareExchange(state: array<BlockState>, k: nat, current: BlockState, next: BlockState) returns (ok: bool)
    requires k < state.Length
    modifies state
    ensures ok == (old(state[k]) == current)
    ensures state[..] == if ok then old(state[..])[k := next] else old(state[..])
  {
    ok := state[k] == current;
    if ok {
      state[k] := next;
    }
  }

  method StoreRangeRev(state: array<BlockState>, from: nat, upTo: nat)
    requires from <= upTo <= state.Length
    modifies state
    ensures state[..] == Freed(old(state[..]), from, upTo)
  {
    var k := upTo;
    while k > from
      invariant from <= k <= upTo
      invariant forall j :: 0 <= j < state.Length ==> state[j] == if k <= j < upTo then Unconfigured else old(state[j])
    {
      k := k - 1;
      state[k] := Unconfigured;
    }
  }

  /** `reserve_channel` with no one else at work: all of the range or nothing. */
  method ReserveChannel(state: array<BlockState>, channel: nat, kind: BlockState, blocks: nat) returns (r: Result)
    requires channel < state.Length && (kind == Rx || kind == Tx)
    modifies state
    ensures blocks == 0 || blocks > state.Length - channel ==> r == Err(InvalidMemsize) && state[..] == old(state[..])
    ensures 0 < blocks <= state.Length - channel ==>
              if AllFree(old(state[..]), channel, channel + blocks)
              then r == Ok && state[..] == Claimed(old(state[..]), channel, kind, channel + blocks)
              else r == Err(MemoryBlockNotAvailable) && state[..] == old(state[..])
    ensures r == Ok ==>
              && 0 < blocks && channel + blocks <= state.Length && state[channel] == kind
              && (forall k :: channel < k < channel + blocks ==> state[k] == Reserved)
              && (forall k :: 0 <= k < state.Length && !(channel <= k < channel + blocks) ==> state[k] == old(state[k]))
              && (forall k :: channel <= k < channel + blocks ==> old(state[k]) == Unconfigured)
  {
    if blocks == 0 || blocks > state.Length - channel {
      return Err(InvalidMemsize);
    }
    var next := kind;
    ghost var before := state[..];
    assert Claimed(before, channel, kind, channel) == before;
    for k := channel to channel + blocks
      invariant next == if k == channel then kind else Reserved
      invariant AllFree(before, channel, k) && state[..] == Claimed(before, channel, kind, k)
    {
      assert state[k] == before[k];
      var ok := CompareExchange(state, k, Unconfigured, next);
      if !ok {
        StoreRangeRev(state, channel, k);
        FreeUndoesClaim(before, channel, kind, k);
        return Err(MemoryBlockNotAvailable);
      }
      next := Reserved;
      assert state[..] == Claimed(before, channel, kind, k + 1);
    }
    r := Ok;
  }

  // The same code with any number of clients taking atomic steps in any order.

  /** Where a client is in `reserve_channel`, `configure_tx`/`configure_rx` or `Drop`. */
  datatype Pc =
    | Idle
    | Claiming(next: nat)
    | RollingBack(upTo: nat)
    | Owner
    | Holding
    | Dropping(count: nat)
    | Releasing(upTo: nat)

  /** `taken` and `freed` record what the current or last attempt did; the code does not keep them. */
  datatype Client = Client(pc: Pc, channel: nat, kind: BlockState, blocks: nat, taken: set<nat>, freed: set<nat>) {
    /** The end of the range of blocks this client owns; the range starts at its channel. */
    function End(): (e: nat) {
      match pc
      case Idle => channel
      case Claiming(next) => next
      case RollingBack(upTo) => upTo
      case Owner => channel + blocks
      case Holding => channel + blocks
      case Dropping(_) => channel + blocks
      case Releasing(upTo) => upTo
    }

    predicate Owns(k: nat) {
      channel <= k < End()
    }

    predicate WellFormed(n: nat) {
      && (pc != Idle ==> channel + blocks <= n && blocks > 0 && (kind == Rx || kind == Tx))
      && match pc
         case Idle => true
         case Claiming(next) => channel <= next < channel + blocks
         case RollingBack(upTo) => channel < upTo < channel + blocks
         case Owner => true
         case Holding => true
         case Dropping(count) => count == blocks
         case Releasing(upTo) => channel < upTo <= channel + blocks
    }

    /** Steps this client can still take before it is idle or holds its range, whatever others do. */
    function Rank(): (r: nat)
      requires pc.Claiming? ==> channel <= pc.next <= channel + blocks
      requires pc.RollingBack? || pc.Releasing? ==> channel <= pc.upTo
    {
      match pc
      case Idle => 0
      case Claiming(next) => 2 * blocks + 2 - (next - channel)
      case RollingBack(upTo) => upTo - channel
      case Owner => 1
      case Holding => 0
      case Dropping(count) => count + 1
      case Releasing(upTo) => upTo - channel
    }
  }

  /** `owner` records which client claimed a block; the code does not keep it. */
  datatype System = System(state: seq<BlockState>, memsize: seq<nat>, clients: seq<Client>, owner: seq<int>)

  /** Begin a reservation, take the next atomic step of what is under way, or begin to drop. */
  datatype Action = Begin(channel: nat, kind: BlockState, blocks: nat) | Advance | Drop

  predicate Sized(s: System) {
    |s.memsize| == |s.state| == |s.owner| && forall c :: 0 <= c < |s.clients| ==> s.clients[c].WellFormed(|s.state|)
  }

  function Range(from: nat, upTo: nat): (r: set<nat>)
    ensures forall k :: k in r <==> from <= k < upTo
    decreases upTo
  {
    if upTo <= from then {} else Range(from, upTo - 1) + {upTo - 1}
  }

  /** One atomic step of client `c`. */
  function Step(s: System, c: nat, a: Action): (t: System)
    requires Sized(s) && c < |s.clients|
  {
    var me := s.clients[c];
    match a
    case Begin(channel, kind, blocks) =>
      if me.pc != Idle || channel >= |s.state| || (kind != Rx && kind != Tx) then s
      else if blocks == 0 || blocks > |s.state| - channel then s
      else s.(clients := s.clients[c := Client(Claiming(channel), channel, kind, blocks, {}, {})])
    case Drop =>
      if me.pc != Holding then s
      else s.(clients := s.clients[c := me.(pc := Dropping(s.memsize[me.channel]))])
    case Advance =>
      match me.pc
      case Idle => s
      case Holding => s
      case Claiming(k) =>
        if s.state[k] == Unconfigured then
          s.(state := s.state[k := Mark(me.channel, me.kind, k)], owner := s.owner[k := c],
          clients := s.clients[c := me.(pc := if k + 1 == me.channel + me.blocks then Owner else Claiming(k + 1),
                                        taken := me.taken + {k})])
        else
          s.(clients := s.clients[c := me.(pc := if k == me.channel then Idle else RollingBack(k))])
      case RollingBack(upTo) => Free(s, c, upTo, if upTo - 1 == me.channel then Idle else RollingBack(upTo - 1))
      case Owner =>
        s.(memsize := s.memsize[me.channel := me.blocks], clients := s.clients[c := me.(pc := Holding)])
      case Dropping(count) =>
        s.(memsize := s.memsize[me.channel := 0],
        clients := s.clients[c := me.(pc := if count == 0 then Idle else Releasing(me.channel + count))])
      case Releasing(upTo) => Free(s, c, upTo, if upTo - 1 == me.channel then Idle else Releasing(upTo - 1))
  }

  /** One store of `store_range_rev`. */
  function Free(s: System, c: nat, upTo: nat, pc: Pc): (t: System)
    requires Sized(s) && c < |s.clients| && 0 < upTo <= |s.state|
  {
    var k := upTo - 1;
    s.(state := s.state[k := Unconfigured], owner := s.owner[k := -1],
    clients := s.clients[c := s.clients[c].(pc := pc, freed := s.clients[c].freed + {k})])
  }

  /** A client's record of its attempt agrees with what it owns. */
  predicate RecordOk(me: Client) {
    && (me.pc != Idle ==> me.freed !! Range(me.channel, me.End()) && me.taken == me.freed + Range(me.channel, me.End()))
    && (me.pc == Idle ==> me.freed == me.taken)
    && (me.pc.Claiming? || me.pc.Owner? || me.pc.Holding? || me.pc.Dropping? ==> me.freed == {})
    && (me.pc.Releasing? ==> me.taken == Range(me.channel, me.channel + me.blocks))
  }

  /** The memory-size register of a held channel is the size that was reserved. */
  predicate Registered(s: System, me: Client) {
    (me.pc.Holding? || me.pc.Dropping?) && me.channel < |s.memsize| ==> s.memsize[me.channel] == me.blocks
  }

  /** A block belongs to client `c` exactly when it lies in the contiguous range of `c`. */
  predicate Disjoint(s: System) {
    && (forall k :: 0 <= k < |s.owner| ==> -1 <= s.owner[k] < |s.clients|)
    && (forall c, k: nat :: 0 <= c < |s.clients| && k < |s.owner| ==> (s.clients[c].Owns(k) <==> s.owner[k] == c))
  }

  /** What the array holds for a block is settled by its owner. */
  predicate Marked(s: System)
    requires |s.state| == |s.owner|
  {
    forall k :: 0 <= k < |s.owner| ==> s.state[k] == Content(s, k)
  }

  function Content(s: System, k: nat): BlockState
    requires k < |s.owner|
  {
    if 0 <= s.owner[k] < |s.clients| then Mark(s.clients[s.owner[k]].channel, s.clients[s.owner[k]].kind, k)
    else Unconfigured
  }

  predicate Recorded(s: System) {
    forall c :: 0 <= c < |s.clients| ==> Registered(s, s.clients[c]) && RecordOk(s.clients[c])
  }

  /** Everything that holds in every reachable state. */
  predicate Inv(s: System) {
    Sized(s) && Disjoint(s) && Marked(s) && Recorded(s)
  }

  /** Power-on: every block free, every client idle; the size registers may hold anything. */
  predicate Initial(s: System) {
    && |s.memsize| == |s.state| == |s.owner|
    && (forall k :: 0 <= k < |s.state| ==> s.state[k] == Unconfigured && s.owner[k] == -1)
    && (forall c :: 0 <= c < |s.clients| ==> s.clients[c].pc == Idle && s.clients[c].taken == {} == s.clients[c].freed)
  }

  lemma InitialInv(s: System)
    requires Initial(s)
    ensures Inv(s)
  {
  }

  /** Two clients that own blocks are on different channels. */
  lemma ChannelsDiffer(s: System, c: nat, d: nat)
    requires Sized(s) && Disjoint(s) && c < |s.clients| && d < |s.clients| && c != d
    requires s.clients[c].channel < s.clients[c].End() && s.clients[d].channel < s.clients[d].End()
    ensures s.clients[c].channel != s.clients[d].channel
  {
    var k, j := s.clients[c].channel, s.clients[d].channel;
    assert s.clients[c].WellFormed(|s.state|) && s.clients[d].WellFormed(|s.state|);
    assert s.clients[c].Owns(k) && s.owner[k] == c;
    assert s.clients[d].Owns(j) && s.owner[j] == d;
  }

  lemma ClaimKeepsRanges(s: System, c: nat)
    requires Inv(s) && c < |s.clients| && s.clients[c].pc.Claiming?
    ensures var t := Step(s, c, Advance); Sized(t) && Disjoint(t) && Marked(t)
  {
    hide Recorded;
  }

  lemma ClaimKeepsRecords(s: System, c: nat)
    requires Inv(s) && c < |s.clients| && s.clients[c].pc.Claiming?
    ensures Recorded(Step(s, c, Advance))
  {
    hide Disjoint, Marked;
  }

  lemma FreeKeepsRanges(s: System, c: nat)
    requires Inv(s) && c < |s.clients| && (s.clients[c].pc.RollingBack? || s.clients[c].pc.Releasing?)
    ensures var t := Step(s, c, Advance); Sized(t) && Disjoint(t) && Marked(t)
  {
    hide Recorded;
    var t, upTo := Step(s, c, Advance), s.clients[c].pc.upTo;
    assert s.clients[c].WellFormed(|s.state|) && s.clients[c].Owns(upTo - 1);
    assert s.owner[upTo - 1] == c;
    forall d, k: nat | 0 <= d < |t.clients| && k < |t.owner| ensures t.clients[d].Owns(k) <==> t.owner[k] == d {
      assert s.clients[d].Owns(k) <==> s.owner[k] == d;
    }
    forall k: nat | k < |t.owner| ensures t.state[k] == Content(t, k) {
      assert s.state[k] == Content(s, k);
    }
  }

  lemma FreeKeepsRecords(s: System, c: nat)
    requires Inv(s) && c < |s.clients| && (s.clients[c].pc.RollingBack? || s.clients[c].pc.Releasing?)
    ensures Recorded(Step(s, c, Advance))
  {
    hide Disjoint, Marked;
  }

  lemma ResizeKeepsRecords(s: System, c: nat)
    requires Inv(s) && c < |s.clients| && (s.clients[c].pc.Owner? || s.clients[c].pc.Dropping?)
    ensures Recorded(Step(s, c, Advance))
  {
    hide Marked, Disjoint;
    var t := Step(s, c, Advance);
    forall d | 0 <= d < |s.clients| ensures Registered(t, t.clients[d]) && RecordOk(t.clients[d]) {
      assert Registered(s, s.clients[d]) && RecordOk(s.clients[d]) && s.clients[d].WellFormed(|s.state|);
      if d != c && (s.clients[d].pc.Holding? || s.clients[d].pc.Dropping?) {
        ChannelsDiffer(s, c, d);
      }
    }
  }

  lemma ResizeKeepsRanges(s: System, c: nat)
    requires Inv(s) && c < |s.clients| && (s.clients[c].pc.Owner? || s.clients[c].pc.Dropping?)
    ensures var t := Step(s, c, Advance); Sized(t) && Disjoint(t) && Marked(t)
  {
    hide Recorded;
  }

  lemma BeginKeepsInv(s: System, c: nat, a: Action)
    requires Inv(s) && c < |s.clients| && a.Begin?
    ensures Inv(Step(s, c, a))
  {
  }

  lemma RestKeepsInv(s: System, c: nat, a: Action)
    requires Inv(s) && c < |s.clients| && !a.Begin?
    requires a.Advance? ==> s.clients[c].pc.Idle? || s.clients[c].pc.Holding?
    ensures Inv(Step(s, c, a))
  {
  }

  /** No step of any client breaks the invariant. */
  lemma StepKeepsInv(s: System, c: nat, a: Action)
    requires Inv(s) && c < |s.clients|
    ensures Inv(Step(s, c, a))
  {
    hide Step, Disjoint, Marked, Recorded;
    if a.Advance? {
      match s.clients[c].pc {
        case Idle => RestKeepsInv(s, c, a);
        case Holding => RestKeepsInv(s, c, a);
        case Claiming(_) => ClaimKeepsRanges(s, c); ClaimKeepsRecords(s, c);
        case RollingBack(_) => FreeKeepsRanges(s, c); FreeKeepsRecords(s, c);
        case Owner => ResizeKeepsRanges(s, c); ResizeKeepsRecords(s, c);
        case Dropping(_) => ResizeKeepsRanges(s, c); ResizeKeepsRecords(s, c);
        case Releasing(_) => FreeKeepsRanges(s, c); FreeKeepsRecords(s, c);
      }
    } else if a.Begin? {
      BeginKeepsInv(s, c, a);
    } else {
      RestKeepsInv(s, c, a);
    }
  }

  /** Client `client` is scheduled and does `action`. */
  datatype Turn = Turn(client: nat, action: Action)

  predicate Schedule(run: seq<Turn>, clients: nat) {
    forall i :: 0 <= i < |run| ==> run[i].client < clients
  }

  function Execute(s: System, run: seq<Turn>): (t: System)
    requires Inv(s) && Schedule(run, |s.clients|)
    ensures Inv(t) && |t.clients| == |s.clients| && |t.state| == |s.state|
    decreases |run|
  {
    if run == [] then s
    else
      StepKeepsInv(s, run[0].client, run[0].action);
      Execute(Step(s, run[0].client, run[0].action), run[1..])
  }

  /** Whatever the schedule: one owner a block, and the array says exactly which blocks are owned and how. */
  lemma Safety(s: System, run: seq<Turn>, k: nat)
    requires Initial(s) && Schedule(run, |s.clients|) && k < |s.state|
    ensures Inv(s)
    ensures var t := Execute(s, run);
            && (forall c, d :: 0 <= c < d < |t.clients| ==> !(t.clients[c].Owns(k) && t.clients[d].Owns(k)))
            && (forall c :: 0 <= c < |t.clients| && t.clients[c].Owns(k) ==>
                  && t.state[k] == (if k == t.clients[c].channel then t.clients[c].kind else Reserved)
                  && t.state[k] != Unconfigured)
            && (t.state[k] == Rx || t.state[k] == Tx <==>
                  exists c :: 0 <= c < |t.clients| && t.clients[c].Owns(k) && t.clients[c].channel == k)
            && (t.state[k] == Reserved <==>
                  exists c :: 0 <= c < |t.clients| && t.clients[c].Owns(k) && t.clients[c].channel < k)
            && (t.state[k] != Unconfigured ==> exists c :: 0 <= c < |t.clients| && t.clients[c].Owns(k))
            && (forall c :: 0 <= c < |t.clients| && t.clients[c].pc.Holding?
                  ==> t.memsize[t.clients[c].channel] == t.clients[c].blocks)
  {
    InitialInv(s);
    var t := Execute(s, run);
    assert forall c :: 0 <= c < |t.clients| ==> t.clients[c].WellFormed(|t.state|) && Registered(t, t.clients[c]);
    if t.state[k] != Unconfigured {
      assert t.clients[t.owner[k]].Owns(k);
    }
  }

  /** An idle client may ask for any range within the blocks, and the attempt is for exactly that range. */
  lemma BeginStarts(s: System, c: nat, channel: nat, kind: BlockState, blocks: nat)
    requires Inv(s) && c < |s.clients| && s.clients[c].pc == Idle && (kind == Rx || kind == Tx)
    requires 0 < blocks && channel + blocks <= |s.state|
    ensures var t := Step(s, c, Begin(channel, kind, blocks));
            && t.clients[c].pc == Claiming(channel) && t.clients[c].channel == channel
            && t.clients[c].kind == kind && t.clients[c].blocks == blocks && t.clients[c].taken == {}
            && t.state == s.state && t.owner == s.owner && t.memsize == s.memsize
            && forall d :: 0 <= d < |s.clients| && d != c ==> t.clients[d] == s.clients[d]
  {
  }

  /** Nothing else begins an attempt. */
  lemma BeginRefused(s: System, c: nat, channel: nat, kind: BlockState, blocks: nat)
    requires Inv(s) && c < |s.clients|
    requires s.clients[c].pc != Idle || blocks == 0 || channel + blocks > |s.state| || (kind != Rx && kind != Tx)
    ensures Step(s, c, Begin(channel, kind, blocks)) == s
  {
  }

  /** Dropping a range first clears its size register, and then gives back the blocks from the last to the first. */
  lemma DropGivesBack(s: System, c: nat)
    requires Inv(s) && c < |s.clients|
    ensures s.clients[c].pc.Holding? ==>
              Step(s, c, Drop) == s.(clients := s.clients[c := s.clients[c].(pc := Dropping(s.clients[c].blocks))])
    ensures s.clients[c].pc.Dropping? ==>
              var me, t := s.clients[c], Step(s, c, Advance);
              && t.memsize == s.memsize[me.channel := 0] && t.state == s.state
              && t.clients[c].pc == Releasing(me.channel + me.blocks)
    ensures s.clients[c].pc.Releasing? ==>
              var me, t := s.clients[c], Step(s, c, Advance);
              && t.state == s.state[me.pc.upTo - 1 := Unconfigured] && t.memsize == s.memsize
              && t.clients[c].pc == if me.pc.upTo - 1 == me.channel then Idle else Releasing(me.pc.upTo - 1)
  {
    assert s.clients[c].WellFormed(|s.state|) && Registered(s, s.clients[c]);
  }

  /** A step touches no block that another client owns, and the blocks it frees were its own. */
  lemma StepIsLocal(s: System, c: nat, a: Action, k: nat)
    requires Inv(s) && c < |s.clients| && k < |s.state|
    ensures var t := Step(s, c, a);
            && (forall d :: 0 <= d < |s.clients| && d != c ==> t.clients[d] == s.clients[d])
            && (t.state[k] != s.state[k] || t.owner[k] != s.owner[k] ==> s.owner[k] == -1 || s.owner[k] == c)
            && (t.state[k] == Unconfigured != s.state[k] ==> s.clients[c].Owns(k) && k in s.clients[c].taken)
  {
    var me, t := s.clients[c], Step(s, c, a);
    assert me.WellFormed(|s.state|) && RecordOk(me);
    assert me.Owns(k) <==> s.owner[k] == c;
  }

  /** A refused compare-exchange means that someone else owns the block. */
  lemma RefusedByAnother(s: System, c: nat)
    requires Inv(s) && c < |s.clients| && s.clients[c].pc.Claiming?
    requires s.state[s.clients[c].pc.next] != Unconfigured
    ensures exists d :: 0 <= d < |s.clients| && d != c && s.clients[d].Owns(s.clients[c].pc.next)
  {
    var k := s.clients[c].pc.next;
    assert s.clients[s.owner[k]].Owns(k) && !s.clients[c].Owns(k);
  }

  /** An attempt that ended without the range gave back what it took; a drop gave back the range that was reserved. */
  lemma EndsClean(s: System, c: nat)
    requires Inv(s) && c < |s.clients| && Step(s, c, Advance).clients[c].pc.Idle? && !s.clients[c].pc.Idle?
    ensures var me := Step(s, c, Advance).clients[c];
            && me.freed == me.taken
            && (s.clients[c].pc.Releasing? ==> me.freed == Range(me.channel, me.channel + me.blocks))
            && !s.clients[c].pc.Dropping?
            && forall k: nat :: k < |s.owner| ==> Step(s, c, Advance).owner[k] != c
  {
    StepKeepsInv(s, c, Advance);
    var t := Step(s, c, Advance);
    assert RecordOk(s.clients[c]) && RecordOk(t.clients[c]) && s.clients[c].WellFormed(|s.state|);
    assert forall k: nat :: k < |t.owner| ==> !t.clients[c].Owns(k);
  }

  function Advances(run: seq<Turn>, c: nat): (n: nat) {
    if run == [] then 0
    else (if run[0].client == c && run[0].action.Advance? then 1 else 0) + Advances(run[1..], c)
  }

  /** Each step of its own brings a client nearer to the end of its attempt or drop; no step of another sets it back. */
  lemma RankFalls(s: System, c: nat, d: nat, a: Action)
    requires Inv(s) && c < |s.clients| && d < |s.clients| && !s.clients[c].pc.Idle? && !s.clients[c].pc.Holding?
    ensures Step(s, d, a).clients[c].WellFormed(|s.state|)
    ensures var t := Step(s, d, a);
            if d == c && a.Advance? then t.clients[c].Rank() < s.clients[c].Rank() else t.clients[c] == s.clients[c]
  {
    assert s.clients[c].WellFormed(|s.state|) && Registered(s, s.clients[c]);
  }

  /** An attempt or drop ends within `Rank` steps of its own client, whatever the others do in between. */
  lemma {:induction false} AttemptEnds(s: System, c: nat, run: seq<Turn>)
    requires Inv(s) && Schedule(run, |s.clients|) && c < |s.clients|
    requires s.clients[c].WellFormed(|s.state|) && s.clients[c].Rank() <= Advances(run, c)
    ensures exists n :: 0 <= n <= |run| && Schedule(run[..n], |s.clients|)
                        && var pc := Execute(s, run[..n]).clients[c].pc; pc.Idle? || pc.Holding?
    decreases |run|
  {
    hide Disjoint, Marked, Recorded;
    if s.clients[c].pc.Idle? || s.clients[c].pc.Holding? {
      assert Execute(s, run[..0]) == s;
    } else {
      var t := Step(s, run[0].client, run[0].action);
      StepKeepsInv(s, run[0].client, run[0].action);
      RankFalls(s, c, run[0].client, run[0].action);
      AttemptEnds(t, c, run[1..]);
      var n :| 0 <= n <= |run[1..]| && Schedule(run[1..][..n], |t.clients|)
               && var pc := Execute(t, run[1..][..n]).clients[c].pc; pc.Idle? || pc.Holding?;
      assert run[..n + 1][1..] == run[1..][..n];
      assert Execute(s, run[..n + 1]) == Execute(t, run[1..][..n]);
    }
  }

  /** `n` steps of client `c` with nobody in between. */
  function Alone(s: System, c: nat, n: nat): (t: System)
    requires Inv(s) && c < |s.clients|
    ensures Inv(t) && |t.clients| == |s.clients| && |t.state| == |s.state|
    decreases n
  {
    if n == 0 then s else StepKeepsInv(s, c, Advance); Alone(Step(s, c, Advance), c, n - 1)
  }

  lemma OwnMarks(s: System, c: nat)
    requires Inv(s) && c < |s.clients|
    ensures forall k: nat :: k < |s.state| && s.clients[c].Owns(k)
              ==> s.state[k] == Mark(s.clients[c].channel, s.clients[c].kind, k)
  {
    hide Recorded;
  }

  lemma {:induction false} AloneClaims(s: System, c: nat, n: nat)
    requires Inv(s) && c < |s.clients| && s.clients[c].pc.Claiming?
    requires var me := s.clients[c];
             me.pc.next + n == me.channel + me.blocks <= |s.state| && AllFree(s.state, me.pc.next, me.pc.next + n)
    ensures var t, me := Alone(s, c, n), s.clients[c];
            t.clients[c].pc == Owner && t.state == Claimed(s.state, me.channel, me.kind, me.channel + me.blocks)
    decreases n
  {
    hide Disjoint, Marked, Recorded;
    var me := s.clients[c];
    var t := Step(s, c, Advance);
    assert me.WellFormed(|s.state|);
    StepKeepsInv(s, c, Advance);
    OwnMarks(s, c);
    if n == 1 {
      assert Alone(t, c, 0) == t;
      assert t.state == Claimed(s.state, me.channel, me.kind, me.channel + me.blocks);
    } else {
      AloneClaims(t, c, n - 1);
      assert Claimed(t.state, me.channel, me.kind, me.channel + me.blocks)
          == Claimed(s.state, me.channel, me.kind, me.channel + me.blocks);
    }
  }

  lemma {:induction false} AloneRollsBack(s: System, c: nat, n: nat)
    requires Inv(s) && c < |s.clients| && s.clients[c].pc.RollingBack?
    requires s.clients[c].channel + n == s.clients[c].pc.upTo <= |s.state|
    ensures var t, me := Alone(s, c, n), s.clients[c];
            t.clients[c].pc == Idle && t.state == Freed(s.state, me.channel, me.channel + n)
    decreases n
  {
    hide Disjoint, Marked, Recorded;
    var me := s.clients[c];
    var t := Step(s, c, Advance);
    assert me.WellFormed(|s.state|);
    StepKeepsInv(s, c, Advance);
    if n == 1 {
      assert Alone(t, c, 0) == t;
      assert t.state == Freed(s.state, me.channel, me.channel + 1);
    } else {
      AloneRollsBack(t, c, n - 1);
      assert Freed(t.state, me.channel, me.channel + n - 1) == Freed(s.state, me.channel, me.channel + n);
    }
  }

  lemma {:induction false} AloneFails(s: System, c: nat, j: nat)
    requires Inv(s) && c < |s.clients| && s.clients[c].pc.Claiming?
    requires var me := s.clients[c]; me.pc.next <= j < me.channel + me.blocks <= |s.state|
    requires AllFree(s.state, s.clients[c].pc.next, j) && s.state[j] != Unconfigured
    ensures s.clients[c].channel <= s.clients[c].pc.next
    ensures var me := s.clients[c]; var t := Alone(s, c, 2 * j + 1 - me.pc.next - me.channel);
            t.clients[c].pc == Idle && t.state == Freed(s.state, me.channel, j)
    decreases j - s.clients[c].pc.next
  {
    hide Disjoint, Marked, Recorded;
    var me := s.clients[c];
    var t := Step(s, c, Advance);
    assert me.WellFormed(|s.state|);
    StepKeepsInv(s, c, Advance);
    if j == me.pc.next {
      if j == me.channel {
        assert Alone(t, c, 0) == t;
        assert Freed(s.state, j, j) == s.state;
      } else {
        AloneRollsBack(t, c, j - me.channel);
      }
    } else {
      AloneFails(t, c, j);
      assert Freed(t.state, me.channel, j) == Freed(s.state, me.channel, j);
    }
  }

  lemma {:induction false} FirstTaken(s: seq<BlockState>, from: nat, upTo: nat) returns (j: nat)
    requires from <= upTo <= |s| && !AllFree(s, from, upTo)
    ensures from <= j < upTo && s[j] != Unconfigured && AllFree(s, from, j)
    decreases upTo
  {
    if AllFree(s, from, upTo - 1) {
      j := upTo - 1;
    } else {
      j := FirstTaken(s, from, upTo - 1);
    }
  }

  /** Run without interruption, the atomic steps do what the loop of `ReserveChannel` does. */
  lemma AloneIsReserveChannel(s: System, c: nat)
    requires Inv(s) && c < |s.clients| && s.clients[c].pc == Claiming(s.clients[c].channel)
    ensures s.clients[c].channel + s.clients[c].blocks <= |s.state|
    ensures var me := s.clients[c];
            if AllFree(s.state, me.channel, me.channel + me.blocks)
            then Alone(s, c, me.blocks).clients[c].pc == Owner
                 && Alone(s, c, me.blocks).state == Claimed(s.state, me.channel, me.kind, me.channel + me.blocks)
            else exists n: nat :: Alone(s, c, n).clients[c].pc == Idle && Alone(s, c, n).state == s.state
  {
    hide Step, Disjoint, Marked, Recorded;
    var me := s.clients[c];
    assert me.WellFormed(|s.state|);
    if AllFree(s.state, me.channel, me.channel + me.blocks) {
      AloneClaims(s, c, me.blocks);
    } else {
      var j := FirstTaken(s.state, me.channel, me.channel + me.blocks);
      AloneFails(s, c, j);
      assert Freed(s.state, me.channel, j) == s.state;
      assert Alone(s, c, 2 * j + 1 - me.pc.next - me.channel).state == s.state;
    }
  }
}
