/** `ExceptNode` on a cluster: exact on clusters of intervals, and bounded by the hull on all. */
module ExceptOnClusters {
  import opened GoStrings
  import opened ClusterNodes
  import opened NodeLines
  import opened SlotPlans
  import opened SlotSets
  import opened SlotCluster

  /** Slots without a gap. */
  ghost predicate Contiguous(slots: set<int>) {
    slots == {} || exists lo, hi :: lo <= hi && slots == Interval(lo, hi)
  }

  ghost predicate AllContiguous(c: Owners) {
    forall id | id in c :: Contiguous(c[id])
  }

  function First(n: ClusterNode): int requires n.slots != [] { n.slots[0] }
  function Last(n: ClusterNode): int requires n.slots != [] { n.slots[|n.slots| - 1] }

  /** What a parsed node says of its owner: the ends of the interval it owns. */
  ghost predicate NamesInterval(n: ClusterNode, c: Owners) {
    OwnsSlots(n) ==> n.id != "" && n.id in c && First(n) <= Last(n) && c[n.id] == Interval(First(n), Last(n))
  }

  ghost predicate NamesOwner(nodes: seq<ClusterNode>, id: string) {
    exists n | n in nodes :: IsExcepted(n, id)
  }

  /** Parsed nodes that name, for every owner of slots, the ends of its interval. */
  ghost predicate NamesIntervals(nodes: seq<ClusterNode>, c: Owners) {
    (forall n | n in nodes :: NamesInterval(n, c)) && (forall id | id in c && c[id] != {} :: NamesOwner(nodes, id))
  }

  lemma IntervalOfTokens(tokens: seq<SlotToken>)
    requires tokens != [] && TokensAscend(tokens) && Contiguous(SlotSet(tokens))
    ensures var slots := Flatten(tokens);
            slots != [] && slots[0] <= slots[|slots| - 1]
            && SlotSet(tokens) == Interval(slots[0], slots[|slots| - 1])
  {
    FlattenEnds(tokens);
    SlotSetInHull(tokens);
    var lo, hi :| lo <= hi && SlotSet(tokens) == Interval(lo, hi);
    assert lo in Interval(lo, hi) && hi in Interval(lo, hi);
  }

  lemma RecordNamesInterval(n: ClusterNode, r: NodeRecord, c: Owners)
    requires Agrees(n, r) && r.id != "" && !IsReplica(r) && r.id in c && TokensAscend(r.tokens)
    requires SlotSet(r.tokens) == c[r.id] && Contiguous(c[r.id])
    ensures NamesInterval(n, c) && (c[r.id] != {} ==> IsExcepted(n, r.id))
  {
    hide Flatten, SlotSet;
    EmptyTokens();
    if r.tokens != [] {
      IntervalOfTokens(r.tokens);
    }
  }

  /** The parsed reply of an interval cluster names its intervals, with any number of replicas. */
  lemma RepliesNameIntervals(items: seq<Item>, c: Owners)
    requires PrintableReply(items) && Shows(Records(items), c) && AllContiguous(c)
    ensures NamesIntervals(ParseReply(Lines(Texts(items))), c)
  {
    hide ParseReply, Flatten, SlotSet, TokensAscend, NamesInterval, Contiguous, PrintableReply;
    var records, nodes := Records(items), ParseReply(Lines(Texts(items)));
    ReplyAgrees(items);
    forall n | n in nodes ensures NamesInterval(n, c) {
      var k :| 0 <= k < |nodes| && nodes[k] == n;
      assert Agrees(n, records[k]);
      if IsReplica(records[k]) {
        ReplicaNamesNothing(n, c);
      } else {
        RecordNamesInterval(n, records[k], c);
      }
    }
    forall id | id in c && c[id] != {} ensures NamesOwner(nodes, id) {
      var k :| 0 <= k < |records| && records[k].id == id;
      assert Agrees(nodes[k], records[k]);
      RecordNamesInterval(nodes[k], records[k], c);
      assert nodes[k] in nodes;
    }
  }

  lemma ReplicaNamesNothing(n: ClusterNode, c: Owners)
    requires "slave" in n.flags
    ensures NamesInterval(n, c)
  {
  }

  // ---------------------------------------------------------------- ExceptNode

  /** An owner whose slots touch neither end of the slot range. */
  ghost predicate Interior(c: Owners, x: string) {
    x in c && c[x] != {} && 0 !in c[x] && MAX_SLOT_COUNT - 1 !in c[x]
  }

  /** The other node that holds the slot next to those of `x`, above or below. */
  ghost predicate Neighbour(c: Owners, x: string, above: bool, t: string) {
    t != x && exists s :: Holds(c, x, s) && Holds(c, t, if above then s + 1 else s - 1)
  }

  /** The node that `id` names. */
  lemma NodeOf(nodes: seq<ClusterNode>, c: Owners, id: string) returns (n: ClusterNode)
    requires NamesIntervals(nodes, c) && id in c && c[id] != {}
    ensures n in nodes && IsExcepted(n, id) && First(n) <= Last(n) && c[id] == Interval(First(n), Last(n))
  {
    assert NamesOwner(nodes, id);
    n :| n in nodes && IsExcepted(n, id);
    assert NamesInterval(n, c);
  }

  lemma IntervalEnds(c: Owners, id: string, lo: int, hi: int)
    requires id in c && c[id] == Interval(lo, hi) && lo <= hi
    ensures Holds(c, id, lo) && Holds(c, id, hi)
    ensures forall s :: Holds(c, id, s) <==> lo <= s <= hi
  {
  }

  /** A condition on one end of a node's slots: beginning or ending at `s`. */
  function AtEnd(above: bool, s: int): ClusterNode -> bool {
    if above then Beginning(s) else Ending(s)
  }

  /** The loop over the borders finds the owner of the slot next to [lo, hi], if there is such a slot. */
  lemma BorderFound(nodes: seq<ClusterNode>, c: Owners, x: string, lo: int, hi: int, above: bool)
    requires Partition(c) && NamesIntervals(nodes, c)
    requires x in c && lo <= hi && c[x] == Interval(lo, hi)
    ensures var s := if above then hi + 1 else lo - 1;
            var found := LastWhere(nodes, AtEnd(above, s));
            && (found.Some? <==> IsSlot(s))
            && (found.Some? ==> found.value.id != "" && Holds(c, found.value.id, s))
  {
    var s := if above then hi + 1 else lo - 1;
    LastWhereFinds(nodes, AtEnd(above, s));
    IntervalEnds(c, x, lo, hi);
    if IsSlot(s) {
      var t :| Holds(c, t, s);
      var n := NodeOf(nodes, c, t);
      IntervalEnds(c, t, First(n), Last(n));
      assert !Holds(c, t, lo) && !Holds(c, t, hi);
      assert AtEnd(above, s)(n);
    }
    var found := LastWhere(nodes, AtEnd(above, s));
    if found.Some? {
      var m := found.value;
      assert NamesInterval(m, c) && OwnsSlots(m);
      IntervalEnds(c, m.id, First(m), Last(m));
    }
  }

  /** The slot next to an interval decides its neighbour. */
  lemma NeighbourAt(c: Owners, x: string, lo: int, hi: int, above: bool, t: string)
    requires Partition(c) && x in c && lo <= hi && c[x] == Interval(lo, hi)
    requires Holds(c, t, if above then hi + 1 else lo - 1)
    ensures forall u :: Neighbour(c, x, above, u) <==> u == t
  {
    IntervalEnds(c, x, lo, hi);
    var s := if above then hi else lo;
    assert Holds(c, x, s) && Holds(c, t, if above then s + 1 else s - 1);
    forall u | Neighbour(c, x, above, u) ensures u == t {
      var b :| Holds(c, x, b) && Holds(c, u, if above then b + 1 else b - 1);
      assert !Holds(c, x, if above then b + 1 else b - 1);
    }
  }

  /** On a cluster of intervals `ExceptNode` reshards exactly the interior ones, to the neighbour on
      the drawn side and so never to the node itself, and asks for exactly the node's slots. */
  lemma ExceptOnIntervals(nodes: seq<ClusterNode>, c: Owners, x: string, pick: bool)
    requires Partition(c) && NamesIntervals(nodes, c)
    ensures var plan := ExceptPlan(nodes, x, pick);
            && (plan.Reshard? <==> Interior(c, x))
            && (!plan.Reshard? ==> plan == Refused)
            && (plan.Reshard? ==>
                  && plan.source == x && plan.slots == |c[x]|
                  && forall t :: Neighbour(c, x, pick, t) <==> t == plan.target)
  {
    hide LastWhere, Neighbour;
    var found := LastWhere(nodes, Excepted(x));
    LastWhereFinds(nodes, Excepted(x));
    if found.None? {
      NothingExcepted(nodes, c, x);
    } else {
      var n := found.value;
      assert NamesInterval(n, c);
      var lo, hi := First(n), Last(n);
      IntervalEnds(c, x, lo, hi);
      IntervalSize(lo, hi);
      BorderFound(nodes, c, x, lo, hi, true);
      BorderFound(nodes, c, x, lo, hi, false);
      assert IsSlot(lo) && IsSlot(hi);
      assert Interior(c, x) <==> IsSlot(lo - 1) && IsSlot(hi + 1);
      var plan := ExceptPlan(nodes, x, pick);
      if plan.Reshard? {
        NeighbourAt(c, x, lo, hi, pick, plan.target);
      }
    }
  }

  lemma NothingExcepted(nodes: seq<ClusterNode>, c: Owners, x: string)
    requires Partition(c) && NamesIntervals(nodes, c) && LastWhere(nodes, Excepted(x)).None?
    ensures ExceptPlan(nodes, x, true) == ExceptPlan(nodes, x, false) == Refused && !Interior(c, x)
  {
    LastWhereFinds(nodes, Excepted(x));
    forall n | n in nodes ensures !IsExcepted(n, x) {
      assert !Excepted(x)(n);
    }
    if x in c && c[x] != {} {
      var n := NodeOf(nodes, c, x);
      assert false;
    }
    forall n | n in nodes ensures !Ending(-1)(n) {
      assert NamesInterval(n, c);
      if OwnsSlots(n) {
        IntervalEnds(c, n.id, First(n), Last(n));
      }
    }
    LastWhereFinds(nodes, Ending(-1));
  }

  /** ... and when that reshard succeeds the node is empty, the neighbour has its slots, and the
      owners are intervals partitioning the slots again. */
  lemma ExceptKeepsIntervals(nodes: seq<ClusterNode>, c: Owners, c2: Owners, x: string, pick: bool)
    requires Partition(c) && AllContiguous(c) && NamesIntervals(nodes, c)
    requires var plan := ExceptPlan(nodes, x, pick); plan.Reshard? && x != ALL && ReshardStep(c, c2, plan)
    ensures Interior(c, x)
    ensures var t := ExceptPlan(nodes, x, pick).target;
            && t in c && t != x && c2 == c[x := {}][t := c[t] + c[x]]
            && Partition(c2) && AllContiguous(c2)
  {
    hide ExceptPlan, Partition, NamesIntervals;
    ExceptOnIntervals(nodes, c, x, pick);
    var plan := ExceptPlan(nodes, x, pick);
    assert Neighbour(c, x, pick, plan.target);
    FullMoveToNeighbour(c, c2, plan, pick);
  }

  lemma FullMoveToNeighbour(c: Owners, c2: Owners, plan: Plan, above: bool)
    requires Partition(c) && AllContiguous(c)
    requires plan.Reshard? && plan.source in c && plan.source != ALL && plan.slots == |c[plan.source]|
    requires Neighbour(c, plan.source, above, plan.target) && ReshardStep(c, c2, plan)
    ensures c2 == c[plan.source := {}][plan.target := c[plan.target] + c[plan.source]]
    ensures Partition(c2) && AllContiguous(c2)
  {
    hide Partition, Contiguous;
    FullMove(c, c2, plan);
    NeighboursJoin(c, plan.source, above, plan.target);
    NothingIsContiguous();
  }

  lemma NothingIsContiguous()
    ensures Contiguous({})
  {
  }

  lemma NeighboursJoin(c: Owners, x: string, above: bool, t: string)
    requires Partition(c) && AllContiguous(c) && Neighbour(c, x, above, t)
    ensures Contiguous(c[t] + c[x])
  {
    var s :| Holds(c, x, s) && Holds(c, t, if above then s + 1 else s - 1);
    var lo, hi :| lo <= hi && c[x] == Interval(lo, hi);
    var lo2, hi2 :| lo2 <= hi2 && c[t] == Interval(lo2, hi2);
    IntervalEnds(c, x, lo, hi);
    IntervalEnds(c, t, lo2, hi2);
    assert !Holds(c, x, if above then s + 1 else s - 1);
    assert !Holds(c, t, hi) && !Holds(c, t, lo);
    if above {
      assert lo2 == hi + 1;
      assert c[t] + c[x] == Interval(lo, hi2);
    } else {
      assert hi2 == lo - 1;
      assert c[t] + c[x] == Interval(lo2, hi);
    }
  }

  /** `ExceptNode` from the printed reply to the cluster after the reshard, with any number of replicas
      in the reply. */
  lemma ExceptNodeOnCluster(items: seq<Item>, c: Owners, x: string, pick: bool)
    requires PrintableReply(items) && Shows(Records(items), c) && Partition(c) && AllContiguous(c) && x != ALL
    ensures var plan := ExceptPlan(ParseReply(Lines(Texts(items))), x, pick);
            && (plan.Reshard? <==> Interior(c, x)) && (!plan.Reshard? ==> plan == Refused)
            && (plan.Reshard? ==>
                  && plan.source == x && plan.slots == |c[x]|
                  && (forall t :: Neighbour(c, x, pick, t) <==> t == plan.target)
                  && (exists c2 :: ReshardStep(c, c2, plan))
                  && forall c2 | ReshardStep(c, c2, plan) ::
                       x in c2 && c2[x] == {} && Partition(c2) && AllContiguous(c2))
  {
    hide ParseReply, Shows, Partition, AllContiguous, ExceptPlan, NamesIntervals, Interior;
    var nodes := ParseReply(Lines(Texts(items)));
    RepliesNameIntervals(items, c);
    ExceptOnIntervals(nodes, c, x, pick);
    var plan := ExceptPlan(nodes, x, pick);
    if Interior(c, x) { InteriorOwns(c, x); }
    if plan.Reshard? {
      assert Neighbour(c, x, pick, plan.target);
      NeighbourCanTakeAll(c, plan, pick);
      forall c2 | ReshardStep(c, c2, plan) ensures x in c2 && c2[x] == {} && Partition(c2) && AllContiguous(c2) {
        ExceptKeepsIntervals(nodes, c, c2, x, pick);
      }
    }
  }

  lemma NeighbourCanTakeAll(c: Owners, plan: Plan, above: bool)
    requires plan.Reshard? && plan.source in c && plan.source != ALL && plan.slots == |c[plan.source]|
    requires Neighbour(c, plan.source, above, plan.target)
    ensures exists c2 :: ReshardStep(c, c2, plan)
  {
    hide ReshardStep;
    CanSucceed(c, plan);
  }

  lemma InteriorOwns(c: Owners, x: string)
    requires Interior(c, x)
    ensures x in c
  {
  }

  // ---------------------------------------------------------------- clusters with gaps

  lemma HullFits(tokens: seq<SlotToken>)
    requires tokens != [] && TokensAscend(tokens) && SlotSet(tokens) <= AllSlots()
    ensures var slots := Flatten(tokens);
            slots != [] && Int64(slots[|slots| - 1] - slots[0] + 1) == slots[|slots| - 1] - slots[0] + 1
  {
    FlattenEnds(tokens);
    SlotSetInHull(tokens);
    assert Lo(tokens[0]) in AllSlots() && Hi(tokens[|tokens| - 1]) in AllSlots();
  }

  lemma GapOrNot(tokens: seq<SlotToken>)
    requires tokens != [] && TokensAscend(tokens)
    ensures var slots := Flatten(tokens);
            var first, last := slots[0], slots[|slots| - 1];
            slots != [] && (Contiguous(SlotSet(tokens)) <==> |SlotSet(tokens)| == last - first + 1)
            && |SlotSet(tokens)| <= last - first + 1
  {
    HullBound(tokens);
    FlattenEnds(tokens);
    SlotSetInHull(tokens);
    var slots := Flatten(tokens);
    var first, last := slots[0], slots[|slots| - 1];
    if |SlotSet(tokens)| == last - first + 1 {
      assert SlotSet(tokens) == Interval(first, last);
    }
    if Contiguous(SlotSet(tokens)) {
      IntervalOfTokens(tokens);
    }
  }

  /** A reshard is asked for only when the loop finds the node, and then for its hull. */
  lemma ExceptPlanOf(reply: string, x: string, pick: bool)
    ensures var plan, found := ExceptPlan(ParseReply(reply), x, pick), LastWhere(ParseReply(reply), Excepted(x));
            plan.Reshard? ==>
              && plan.source == x && found.Some? && IsExcepted(found.value, x) && found.value in ParseReply(reply)
              && plan.slots == Int64(Last(found.value) - First(found.value) + 1)
  {
    hide ParseReply, LastWhere, Int64;
    if LastWhere(ParseReply(reply), Excepted(x)).None? {
      NothingToExcept(reply, x, pick);
    }
  }

  /** The size of the hull, read from the node's line. */
  lemma HullOfNode(n: ClusterNode, r: NodeRecord, c: Owners, x: string)
    requires Agrees(n, r) && IsExcepted(n, x) && Partition(c) && !IsReplica(r)
    requires x in c && TokensAscend(r.tokens) && SlotSet(r.tokens) == c[x]
    ensures var count := Int64(Last(n) - First(n) + 1);
            count >= |c[x]| && (count == |c[x]| <==> Contiguous(c[x]))
  {
    hide Flatten, SlotSet, TokensAscend, Contiguous, Partition, Int64;
    EmptyTokens();
    OwnedSlots(c, x);
    HullFits(r.tokens);
    GapOrNot(r.tokens);
  }

  /** On any cluster, with gaps or without, `ExceptNode` asks for at least the slots of the node, for
      exactly those when they have no gap, and otherwise for more than any reshard can take. */
  lemma ExceptAsksForHull(items: seq<Item>, c: Owners, x: string, pick: bool)
    requires PrintableReply(items) && Shows(Records(items), c) && Partition(c)
    ensures var plan := ExceptPlan(ParseReply(Lines(Texts(items))), x, pick);
            plan.Reshard? ==>
              && plan.source == x && x in c && plan.slots >= |c[x]|
              && (plan.slots == |c[x]| <==> Contiguous(c[x]))
              && (x != ALL && !Contiguous(c[x]) ==> forall c2 :: !ReshardStep(c, c2, plan))
  {
    hide LastWhere, PrintableReply, Contiguous, Partition, ParseReply, Lines, Texts, Records, ExceptPlan, Int64;
    hide TokensAscend, SlotSet, Flatten, ReshardStep;
    var reply := Lines(Texts(items));
    var nodes, records, plan := ParseReply(reply), Records(items), ExceptPlan(ParseReply(reply), x, pick);
    ReplyAgrees(items);
    ExceptPlanOf(reply, x, pick);
    if plan.Reshard? {
      var n := LastWhere(nodes, Excepted(x)).value;
      var k :| 0 <= k < |nodes| && nodes[k] == n;
      assert Agrees(nodes[k], records[k]);
      HullOfNode(n, records[k], c, x);
      if x != ALL && !Contiguous(c[x]) {
        AsksTooMuch(c, plan);
      }
    }
  }

  lemma AsksTooMuch(c: Owners, plan: Plan)
    requires plan.Reshard? && plan.source in c && plan.source != ALL && plan.slots > |c[plan.source]|
    ensures forall c2 :: !ReshardStep(c, c2, plan)
  {
    if plan.target in c {
      CanSucceed(c, plan);
    }
  }
}
