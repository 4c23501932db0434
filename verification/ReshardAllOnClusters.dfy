/** `ReshardAll` on a cluster. */
module ReshardAllOnClusters {
  import opened GoStrings
  import opened ClusterNodes
  import opened NodeLines
  import opened SlotPlans
  import opened SlotSets
  import opened SlotCluster

  /** The slots held by a group of nodes. */
  ghost function Held(c: Owners, group: set<string>): set<int> {
    set s | s in AllSlots() && exists id :: id in group && Holds(c, id, s)
  }

  ghost function EmptyNodes(c: Owners): set<string> { set id | id in c && c[id] == {} }

  lemma {:induction false} NoSlotIDsOf(nodes: seq<ClusterNode>, id: string)
    ensures id in NoSlotIDs(nodes) <==> exists n :: n in nodes && n.id == id && n.slots == []
  {
    if nodes != [] {
      var init, last := nodes[..|nodes| - 1], nodes[|nodes| - 1];
      NoSlotIDsOf(init, id);
      assert nodes == init + [last];
    }
  }

  predicate Distinct(ids: seq<string>) {
    forall j, k | 0 <= j < k < |ids| :: ids[j] != ids[k]
  }

  lemma {:induction false} NoSlotIDsDistinct(nodes: seq<ClusterNode>)
    requires forall j, k | 0 <= j < k < |nodes| :: nodes[j].id != nodes[k].id
    ensures Distinct(NoSlotIDs(nodes))
  {
    if nodes != [] {
      var n := |nodes| - 1;
      NoSlotIDsDistinct(nodes[..n]);
      NoSlotIDsOf(nodes[..n], nodes[n].id);
    }
  }

  lemma {:induction false} DistinctCount(ids: seq<string>, group: set<string>)
    requires Distinct(ids) && forall id :: id in ids <==> id in group
    ensures |ids| == |group|
  {
    if ids == [] {
      assert group == {};
    } else {
      var n := |ids| - 1;
      var rest := group - {ids[n]};
      forall id ensures id in ids[..n] <==> id in rest {
        assert id in ids[..n] ==> id in ids;
        assert id in ids && id != ids[n] ==> id in ids[..n];
      }
      DistinctCount(ids[..n], rest);
    }
  }

  /** The states passed through while all of `ids` receive `q` slots each from all other nodes. */
  ghost predicate GivesAll(cs: seq<Owners>, ids: seq<string>, q: int) {
    |cs| == |ids| + 1 && forall i | 0 <= i < |ids| :: ReshardStep(cs[i], cs[i + 1], Reshard(ids[i], q, ALL))
  }

  /** One "all" reshard: the target gains q slots ... */
  lemma TargetGains(c: Owners, c2: Owners, target: string, moved: set<int>)
    requires target in c && moved <= AllSlots() - c[target] && c2 == AfterMove(c, target, moved)
    ensures |c2[target]| == |c[target]| + |moved|
    ensures forall id | id in c && id != target && c[id] == {} :: c2[id] == {}
  {
  }

  /** ... and the others lose no more than that between them. */
  lemma GroupLoses(c: Owners, c2: Owners, target: string, moved: set<int>, group: set<string>)
    requires target in c && target !in group && c2 == AfterMove(c, target, moved)
    ensures |Held(c2, group)| >= |Held(c, group)| - |moved|
  {
    var before, after := Held(c, group), Held(c2, group);
    forall s | s in before - moved ensures s in after {
      var id :| id in group && Holds(c, id, s);
      assert Holds(c2, id, s);
    }
    SubsetSize(before - moved, after);
    SubsetSize(before * moved, moved);
    assert before == (before - moved) + (before * moved);
  }

  lemma GiveOne(c: Owners, c2: Owners, target: string, q: int, group: set<string>)
    requires Partition(c) && ReshardStep(c, c2, Reshard(target, q, ALL)) && target !in group
    ensures Partition(c2) && c2.Keys == c.Keys && |c2[target]| == |c[target]| + q
    ensures |Held(c2, group)| >= |Held(c, group)| - q
    ensures forall id | id in c && id != target && c[id] == {} :: c2[id] == {}
  {
    hide Partition, AfterMove, Held;
    var moved :| Moves(c, c2, Reshard(target, q, ALL), moved) && |moved| == q;
    MoveKeepsPartition(c, target, moved);
    TargetGains(c, c2, target, moved);
    GroupLoses(c, c2, target, moved, group);
  }

  /** The nodes `ids[from..]` own nothing. */
  ghost predicate EmptyFrom(c: Owners, ids: seq<string>, from: nat) {
    forall k | from <= k < |ids| :: ids[k] in c && c[ids[k]] == {}
  }

  lemma {:induction false} GiveMany(cs: seq<Owners>, ids: seq<string>, q: int, group: set<string>, i: nat)
    requires GivesAll(cs, ids, q) && Partition(cs[0]) && Distinct(ids) && i <= |ids|
    requires EmptyFrom(cs[0], ids, 0) && forall k | 0 <= k < |ids| :: ids[k] !in group
    ensures Partition(cs[i]) && cs[i].Keys == cs[0].Keys && EmptyFrom(cs[i], ids, i)
    ensures |Held(cs[i], group)| >= |Held(cs[0], group)| - i * q
    ensures 0 < i ==> |cs[i][ids[i - 1]]| == q
  {
    hide Partition, Held, ReshardStep;
    if 0 < i {
      GiveMany(cs, ids, q, group, i - 1);
      GiveOne(cs[i - 1], cs[i], ids[i - 1], q, group);
      assert i * q == (i - 1) * q + q;
    }
  }

  lemma HeldByOwners(c: Owners)
    requires Partition(c)
    ensures Held(c, c.Keys - EmptyNodes(c)) == AllSlots()
  {
    forall s | s in AllSlots() ensures s in Held(c, c.Keys - EmptyNodes(c)) {
      assert IsSlot(s);
      var id :| Holds(c, id, s);
      assert id in c.Keys - EmptyNodes(c);
    }
  }

  /** The nodes read without slots, and so served: the empty primaries, and of the replicas the first
      one and those behind it whose master ID has no letter. */
  ghost predicate ReadSlotless(records: seq<NodeRecord>, k: nat)
    requires k < |records|
  {
    records[k].tokens == []
    && (IsReplica(records[k]) && ReplicaCount(records[..k]) > 0 ==> NoLetters(records[k].master))
  }

  ghost predicate ServedId(records: seq<NodeRecord>, id: string) {
    exists k :: 0 <= k < |records| && ReadSlotless(records, k) && records[k].id == id
  }

  /** The order of `ids` is that of the lines of the reply. */
  ghost predicate InReplyOrder(records: seq<NodeRecord>, ids: seq<string>) {
    forall i, j, a, b | 0 <= i < j < |ids| && 0 <= a < |records| && 0 <= b < |records| ::
      records[a].id == ids[i] && records[b].id == ids[j] ==> a < b
  }

  lemma NoSlotIDsKeepOrder(nodes: seq<ClusterNode>, records: seq<NodeRecord>)
    requires |nodes| == |records| && forall k | 0 <= k < |nodes| :: nodes[k].id == records[k].id
    requires forall j, k | 0 <= j < k < |records| :: records[j].id != records[k].id
    ensures InReplyOrder(records, NoSlotIDs(nodes))
  {
    var at := NoSlotIDsInOrder(nodes);
    PositionsInOrder(nodes, records, NoSlotIDs(nodes), at);
  }

  lemma PositionsInOrder(nodes: seq<ClusterNode>, records: seq<NodeRecord>, ids: seq<string>, at: seq<nat>)
    requires |nodes| == |records| && forall k | 0 <= k < |nodes| :: nodes[k].id == records[k].id
    requires forall j, k | 0 <= j < k < |records| :: records[j].id != records[k].id
    requires NoSlotsAt(nodes, at, ids)
    ensures InReplyOrder(records, ids)
  {
    forall i, k | 0 <= i < |ids| && 0 <= k < |records| && records[k].id == ids[i] ensures k == at[i] {
      assert records[at[i]].id == records[k].id;
    }
  }

  /** What `ReshardAll` plans on any printed reply: each such node is served once, with 16384 divided by
      the number of all nodes listed. */
  lemma ReshardAllPlan(items: seq<Item>, c: Owners) returns (ids: seq<string>)
    requires PrintableReply(items) && Shows(Records(items), c) && c != map[]
    ensures var records := Records(items);
            && Distinct(ids) && InReplyOrder(records, ids)
            && (forall id :: id in ids <==> ServedId(records, id))
            && records != []
            && ReshardAllPlans(ParseReply(Lines(Texts(items)))) == ReshardsTo(ids, MAX_SLOT_COUNT / |records|)
  {
    hide ParseReply, PrintableReply, Flatten, SlotSet, TokensAscend, NoSlotIDs, Misread, Expected;
    hide InReplyOrder, Lines, Texts, Records, ReshardsTo;
    var nodes, records := ParseReply(Lines(Texts(items))), Records(items);
    ReplyExact(items);
    PrimariesExist(records, c);
    ReplyNodesAgree(records, false);
    ids := NoSlotIDs(nodes);
    forall k | 0 <= k < |nodes|
      ensures nodes[k].id == records[k].id && (nodes[k].slots == [] <==> ReadSlotless(records, k))
    {
      assert Agrees(nodes[k], records[k]);
      ReadWithoutSlots(records, k);
    }
    NoSlotIDsDistinct(nodes);
    NoSlotIDsKeepOrder(nodes, records);
    forall id ensures id in ids <==> ServedId(records, id) {
      NoSlotIDsOf(nodes, id);
      if k :| 0 <= k < |records| && ReadSlotless(records, k) && records[k].id == id {
        assert nodes[k] in nodes;
      }
    }
  }

  lemma ReadWithoutSlots(records: seq<NodeRecord>, k: nat)
    requires k < |records|
    ensures |ReplyNodes(records, false)| == |records|
    ensures ReplyNodes(records, false)[k].slots == [] <==> ReadSlotless(records, k)
  {
    hide Flatten;
    ReplyNodeAt(records, false, k);
    FlattenIsEmpty(records[k].tokens);
  }

  lemma FlattenIsEmpty(tokens: seq<SlotToken>)
    ensures Flatten(tokens) == [] <==> tokens == []
  {
    if tokens != [] {
      FlattenEnds(tokens);
    }
  }

  lemma PrimariesExist(records: seq<NodeRecord>, c: Owners)
    requires Shows(records, c) && c != map[]
    ensures records != []
  {
    assert |c.Keys| > 0;
    var id :| id in c.Keys;
  }

  /** With primaries only, those served are the owners of nothing, and all nodes are counted. */
  lemma PrimariesServed(records: seq<NodeRecord>, c: Owners)
    requires Shows(records, c) && ReplicaCount(records) == 0
    ensures forall id :: ServedId(records, id) <==> id in EmptyNodes(c)
    ensures |records| == |c|
  {
    hide SlotSet, TokensAscend, Flatten, ReplicaCount;
    NoReplicas(records);
    forall k | 0 <= k < |records| ensures ReadSlotless(records, k) <==> c[records[k].id] == {} {
      SlotsOfTokens(records[k].tokens);
      FlattenIsEmpty(records[k].tokens);
    }
    CountsOwners(records, c);
  }

  lemma CountsOwners(records: seq<NodeRecord>, c: Owners)
    requires Shows(records, c) && forall k | 0 <= k < |records| :: !IsReplica(records[k])
    ensures |records| == |c|
  {
    hide SlotSet, TokensAscend, IsReplica;
    var all := seq(|records|, k requires 0 <= k < |records| => records[k].id);
    forall id ensures id in all <==> id in c.Keys {
      if id in c {
        var k :| 0 <= k < |records| && records[k].id == id;
        assert all[k] == id;
      }
    }
    DistinctCount(all, c.Keys);
  }

  lemma FirstReplicaIsServed(records: seq<NodeRecord>, c: Owners) returns (id: string)
    requires Shows(records, c) && ReplicaCount(records) > 0
    ensures ServedId(records, id) && id !in c
  {
    hide SlotSet, TokensAscend;
    var k := FirstReplica(records);
    assert ReadSlotless(records, k);
    id := records[k].id;
  }

  /** `ReshardAll` asks for slots to be given to a replica exactly when the reply lists a replica. */
  lemma ReshardAllServesReplicas(items: seq<Item>, c: Owners)
    requires PrintableReply(items) && Shows(Records(items), c) && c != map[]
    ensures var plans := ReshardAllPlans(ParseReply(Lines(Texts(items))));
            (exists plan :: plan in plans && plan.Reshard? && plan.target !in c) <==> ReplicaCount(Records(items)) > 0
  {
    hide PrintableReply, Shows, Lines, Texts, Records, ParseReply, ReshardAllPlans, ServedId, ReplicaCount;
    var records := Records(items);
    var ids := ReshardAllPlan(items, c);
    var plans := ReshardsTo(ids, MAX_SLOT_COUNT / |records|);
    if ReplicaCount(records) > 0 {
      var id := FirstReplicaIsServed(records, c);
      assert id in ids;
      var j :| 0 <= j < |ids| && ids[j] == id;
      assert plans[j].target == id;
    } else {
      PrimariesServed(records, c);
      forall plan | plan in plans ensures plan.Reshard? && plan.target in c {
        var j :| 0 <= j < |plans| && plans[j] == plan;
        var id := ids[j];
        assert id in ids;
      }
    }
  }

  lemma SlotsOfTokens(tokens: seq<SlotToken>)
    requires TokensAscend(tokens)
    ensures Flatten(tokens) == [] <==> SlotSet(tokens) == {}
  {
    if tokens != [] {
      FlattenEnds(tokens);
      SlotSetInHull(tokens);
    }
  }

  lemma {:induction false} NoReplicas(records: seq<NodeRecord>)
    requires ReplicaCount(records) == 0
    ensures forall k | 0 <= k < |records| :: !IsReplica(records[k])
  {
    if records != [] {
      NoReplicas(records[1..]);
    }
  }

  /** The run of those plans on n primaries, whichever slots each reshard picks: each step finds its
      target empty and so at least 16384/n slots elsewhere, the latest target has exactly 16384/n, and
      after i steps the nodes that had slots keep at least (n - i) * (16384/n) between them. */
  lemma ReshardAllBound(c: Owners, ids: seq<string>, cs: seq<Owners>, i: nat)
    requires Partition(c) && c != map[]
    requires Distinct(ids) && forall id :: id in ids <==> id in EmptyNodes(c)
    requires GivesAll(cs, ids, MAX_SLOT_COUNT / |c|) && cs[0] == c && i <= |ids|
    ensures var q := MAX_SLOT_COUNT / |c|;
            && Partition(cs[i])
            && (i < |ids| ==> ids[i] in cs[i] && cs[i][ids[i]] == {} && |Available(cs[i], ids[i], ALL)| >= q)
            && (0 < i ==> ids[i - 1] in cs[i] && |cs[i][ids[i - 1]]| == q)
            && |Held(cs[i], c.Keys - EmptyNodes(c))| >= (|c| - i) * q
  {
    hide Partition, Held, GivesAll;
    var q, group := MAX_SLOT_COUNT / |c|, c.Keys - EmptyNodes(c);
    assert |cs| == |ids| + 1 by { GivesLength(cs, ids, q); }
    forall k | 0 <= k < |ids| ensures ids[k] in EmptyNodes(c) {
      assert ids[k] in ids;
    }
    GiveMany(cs, ids, q, group, i);
    HeldByOwners(c);
    IntervalSize(0, MAX_SLOT_COUNT - 1);
    EnoughSlots(|c|, i, q);
    assert AllSlots() - {} == AllSlots();
  }

  lemma GivesLength(cs: seq<Owners>, ids: seq<string>, q: int)
    requires GivesAll(cs, ids, q)
    ensures |cs| == |ids| + 1
  {
  }

  lemma EnoughSlots(n: nat, i: nat, q: nat)
    requires 0 < n && q == MAX_SLOT_COUNT / n
    ensures MAX_SLOT_COUNT - i * q >= (n - i) * q
  {
  }

  // ---------------------------------------------------------------- from the reply to the final owners

  /** Every reshard of the plans succeeds. */
  ghost predicate Completes(c: Owners, c2: Owners, plans: seq<Plan>)
    decreases |plans|
  {
    if plans == [] then c2 == c
    else plans[0].Reshard? && exists mid :: ReshardStep(c, mid, plans[0]) && Completes(mid, c2, plans[1..])
  }

  lemma StepKeepsNodes(c: Owners, c2: Owners, plan: Plan)
    requires plan.Reshard? && ReshardStep(c, c2, plan)
    ensures plan.target in c && c2.Keys == c.Keys
  {
    var moved :| Moves(c, c2, plan, moved) && |moved| == plan.slots;
  }

  lemma {:induction false} CompletingPerforms(c: Owners, c2: Owners, plans: seq<Plan>)
    requires Completes(c, c2, plans)
    ensures Performs(c, c2, plans) && forall k | 0 <= k < |plans| :: plans[k].Reshard? && plans[k].target in c
    decreases |plans|
  {
    hide ReshardFailure, ReshardStep;
    if plans != [] {
      var mid :| ReshardStep(c, mid, plans[0]) && Completes(mid, c2, plans[1..]);
      StepKeepsNodes(c, mid, plans[0]);
      CompletingPerforms(mid, c2, plans[1..]);
      forall k | 0 <= k < |plans| ensures plans[k].Reshard? && plans[k].target in c {
        if k > 0 {
          assert plans[k] == plans[1..][k - 1];
        }
      }
    }
  }

  lemma FirstReshard(ids: seq<string>, q: int)
    requires ids != []
    ensures ReshardsTo(ids, q) == [Reshard(ids[0], q, ALL)] + ReshardsTo(ids[1..], q)
  {
  }

  lemma {:induction false} StatesOfCompletion(c: Owners, c2: Owners, ids: seq<string>, q: int) returns (cs: seq<Owners>)
    requires Completes(c, c2, ReshardsTo(ids, q))
    ensures GivesAll(cs, ids, q) && cs[0] == c && cs[|ids|] == c2
    decreases |ids|
  {
    hide ReshardStep, ReshardsTo;
    if ids == [] {
      assert ReshardsTo(ids, q) == [] by { NoReshards(q); }
      cs := [c];
    } else {
      var plans := ReshardsTo(ids, q);
      FirstReshard(ids, q);
      var mid :| ReshardStep(c, mid, plans[0]) && Completes(mid, c2, plans[1..]);
      var later := StatesOfCompletion(mid, c2, ids[1..], q);
      cs := [c] + later;
      forall i | 0 <= i < |ids| ensures ReshardStep(cs[i], cs[i + 1], Reshard(ids[i], q, ALL)) {
        if i > 0 {
          assert ReshardStep(later[i - 1], later[i], Reshard(ids[1..][i - 1], q, ALL));
        }
      }
    }
  }

  lemma NoReshards(q: int)
    ensures ReshardsTo([], q) == []
  {
  }

  /** An empty node can be given any number of slots, and the empty nodes behind it stay empty. */
  lemma CanGive(c: Owners, ids: seq<string>, q: nat) returns (mid: Owners)
    requires Partition(c) && Distinct(ids) && ids != [] && EmptyFrom(c, ids, 0) && q <= MAX_SLOT_COUNT
    ensures ReshardStep(c, mid, Reshard(ids[0], q, ALL)) && Partition(mid) && EmptyFrom(mid, ids[1..], 0)
  {
    hide Partition, ReshardStep, Held;
    IntervalSize(0, MAX_SLOT_COUNT - 1);
    assert AllSlots() - {} == AllSlots();
    CanSucceed(c, Reshard(ids[0], q, ALL));
    mid :| ReshardStep(c, mid, Reshard(ids[0], q, ALL));
    GiveOne(c, mid, ids[0], q, {});
    forall k | 0 <= k < |ids| - 1 ensures ids[1..][k] in mid && mid[ids[1..][k]] == {} {
      assert ids[1..][k] == ids[k + 1] != ids[0];
    }
  }

  lemma {:induction false} CanComplete(c: Owners, ids: seq<string>, q: nat) returns (c2: Owners)
    requires Partition(c) && Distinct(ids) && EmptyFrom(c, ids, 0) && q <= MAX_SLOT_COUNT
    ensures Completes(c, c2, ReshardsTo(ids, q))
    decreases |ids|
  {
    hide Partition, ReshardStep, ReshardsTo, EmptyFrom;
    if ids == [] {
      NoReshards(q);
      c2 := c;
    } else {
      FirstReshard(ids, q);
      var mid := CanGive(c, ids, q);
      c2 := CanComplete(mid, ids[1..], q);
    }
  }

  /** What a completed `ReshardAll` leaves: a partition, in which the nodes that had slots keep at least
      16384/n each on average, and, if any node was empty, one of these has exactly 16384/n. */
  ghost predicate EvenedOut(c: Owners, c2: Owners)
    requires c != map[]
  {
    var q, empty := MAX_SLOT_COUNT / |c|, EmptyNodes(c);
    && Partition(c2) && c2.Keys == c.Keys
    && |Held(c2, c.Keys - empty)| >= (|c| - |empty|) * q
    && (empty != {} ==> exists id :: id in empty && id in c2 && |c2[id]| == q)
  }

  lemma CompletionEvensOut(c: Owners, c2: Owners, ids: seq<string>)
    requires Partition(c) && c != map[] && Distinct(ids) && forall id :: id in ids <==> id in EmptyNodes(c)
    requires Completes(c, c2, ReshardsTo(ids, MAX_SLOT_COUNT / |c|))
    ensures EvenedOut(c, c2)
  {
    hide Partition, Held, ReshardsTo, Completes, Performs, GivesAll, EmptyNodes, Available;
    var q := MAX_SLOT_COUNT / |c|;
    var cs := StatesOfCompletion(c, c2, ids, q);
    ReshardAllBound(c, ids, cs, |ids|);
    DistinctCount(ids, EmptyNodes(c));
    CompletingPerforms(c, c2, ReshardsTo(ids, q));
    PlansKeepPartition(c, c2, ReshardsTo(ids, q));
    if ids != [] {
      var id := ids[|ids| - 1];
      assert id in ids;
    }
  }

  /** `ReshardAll` from the printed reply to the final owners: all its reshards can succeed exactly when
      the reply lists no replica, and whenever they do, whichever slots each picks, the cluster is
      evened out. */
  lemma ReshardAllOnCluster(items: seq<Item>, c: Owners)
    requires PrintableReply(items) && Shows(Records(items), c) && Partition(c) && c != map[]
    ensures var plans := ReshardAllPlans(ParseReply(Lines(Texts(items))));
            && ((exists c2 :: Completes(c, c2, plans)) <==> ReplicaCount(Records(items)) == 0)
            && (forall c2 | Completes(c, c2, plans) :: Performs(c, c2, plans) && EvenedOut(c, c2))
  {
    hide PrintableReply, Shows, Partition, Lines, Texts, Records, ParseReply, ReshardAllPlans;
    hide Completes, Performs, EvenedOut, ReshardsTo, ServedId;
    var records := Records(items);
    var plans := ReshardAllPlans(ParseReply(Lines(Texts(items))));
    var ids := ReshardAllPlan(items, c);
    ReshardAllServesReplicas(items, c);
    forall c2 | Completes(c, c2, plans) ensures Performs(c, c2, plans) && ReplicaCount(records) == 0 {
      CompletingPerforms(c, c2, plans);
    }
    if ReplicaCount(records) == 0 {
      PrimariesServed(records, c);
      EmptyIDs(c, ids);
      var c2 := CanComplete(c, ids, MAX_SLOT_COUNT / |c|);
      forall c2 | Completes(c, c2, plans) ensures EvenedOut(c, c2) {
        CompletionEvensOut(c, c2, ids);
      }
    }
  }

  lemma EmptyIDs(c: Owners, ids: seq<string>)
    requires forall id :: id in ids <==> id in EmptyNodes(c)
    ensures EmptyFrom(c, ids, 0)
  {
    forall k | 0 <= k < |ids| ensures ids[k] in c && c[ids[k]] == {} {
      var id := ids[k];
      assert id in ids;
    }
  }
}
