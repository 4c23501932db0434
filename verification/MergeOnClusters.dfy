/** `MergeNode` on a cluster. */
module MergeOnClusters {
  import opened GoStrings
  import opened ClusterNodes
  import opened NodeLines
  import opened SlotPlans
  import opened SlotSets
  import opened SlotCluster

  lemma {:induction false} LastWhereId(nodes: seq<ClusterNode>, k: nat)
    requires k < |nodes| && forall j | 0 <= j < |nodes| && j != k :: nodes[j].id != nodes[k].id
    ensures LastWhere(nodes, WithId(nodes[k].id)) == Some(nodes[k])
  {
    if k < |nodes| - 1 {
      LastWhereId(nodes[..|nodes| - 1], k);
    }
  }

  /** The node `MergeNode` finds for a listed ID. */
  lemma MergeFinds(items: seq<Item>, c: Owners, k: nat)
    requires PrintableReply(items) && Shows(Records(items), c) && k < |Records(items)|
    ensures var nodes, records := ParseReply(Lines(Texts(items))), Records(items);
            && |nodes| == |ReplyNodes(records, false)| == |records|
            && LastWhere(nodes, WithId(records[k].id)) == Some(ReplyNodes(records, false)[k])
            && Agrees(ReplyNodes(records, false)[k], records[k])
  {
    hide ParseReply, LastWhere, PrintableReply, TokensAscend, SlotSet, Misread, Expected;
    var nodes, records := ParseReply(Lines(Texts(items))), Records(items);
    ReplyExact(items);
    ReplyNodesAgree(records, false);
    forall j | 0 <= j < |nodes| ensures nodes[j].id == records[j].id {
      assert Agrees(nodes[j], records[j]);
    }
    LastWhereId(nodes, k);
  }

  /** The plan it then makes. */
  lemma MergePlanOf(items: seq<Item>, c: Owners, t: nat, s: nat)
    requires PrintableReply(items) && Shows(Records(items), c) && t < |Records(items)| && s < |Records(items)|
    ensures var nodes, records := ParseReply(Lines(Texts(items))), Records(items);
            && |ReplyNodes(records, false)| == |records|
            && var slots := ReplyNodes(records, false)[s].slots;
               && Agrees(ReplyNodes(records, false)[s], records[s])
               && MergePlan(nodes, records[t].id, records[s].id) ==
                    if |slots| % 2 == 1 then Panicked else Reshard(records[t].id, PairSum(slots), records[s].id)
  {
    hide ParseReply, LastWhere, PairSum, Shows, PrintableReply, Lines, Texts, Records, ReplyNodes, Agrees;
    MergeFinds(items, c, t);
    MergeFinds(items, c, s);
  }

  /** `MergeNode` on a primary `source` of the reply: it panics exactly when an odd number of its
      tokens are single slots; otherwise it asks for the source's slots plus the miscount, which is
      zero when all tokens are ranges. The reshard can succeed exactly when the miscount is not
      positive, and it then leaves the source with as many slots as the miscount is below zero. When
      it is zero, the source is empty and the target has the union. */
  lemma MergeNodeOnCluster(items: seq<Item>, c: Owners, t: nat, s: nat)
    requires PrintableReply(items) && Shows(Records(items), c) && Partition(c)
    requires t < |Records(items)| && s < |Records(items)| && !IsReplica(Records(items)[s])
    ensures var target, source := Records(items)[t].id, Records(items)[s].id;
            var tokens := Records(items)[s].tokens;
            var plan := MergePlan(ParseReply(Lines(Texts(items))), target, source);
            && source in c
            && (plan == Panicked <==> SingleCount(tokens) % 2 == 1)
            && (plan != Panicked ==> plan == Reshard(target, |c[source]| + Miscount(tokens), source))
            && (SingleCount(tokens) == 0 ==> plan == Reshard(target, |c[source]|, source))
            && (plan != Panicked && target in c && target != source && source != ALL ==>
                  MergeOutcome(c, plan, Miscount(tokens)))
  {
    hide ParseReply, Flatten, PrintableReply, Partition, PairSum, SlotSet, Records, Lines, Texts, Miscount;
    hide MergePlan, MergeOutcome, ReplyNodes, SingleCount, TokensAscend;
    var records := Records(items);
    var tokens := records[s].tokens;
    MergePlanOf(items, c, t, s);
    SinglesBreakPairs(tokens);
    OwnedSlots(c, records[s].id);
    if SingleCount(tokens) % 2 == 0 {
      MergeCountExact(tokens);
      if records[t].id in c && records[t].id != records[s].id && records[s].id != ALL {
        MergeHasOutcome(c, Reshard(records[t].id, PairSum(Flatten(tokens)), records[s].id), Miscount(tokens));
      }
    }
    if SingleCount(tokens) == 0 {
      RangesAreNotMiscounted(tokens);
    }
  }

  /** What a reshard of the source's slots plus `miscount` can come to. */
  ghost predicate MergeOutcome(c: Owners, plan: Plan, miscount: int)
    requires plan.Reshard? && plan.source in c && plan.target in c
  {
    && ((exists c2 :: ReshardStep(c, c2, plan)) <==> miscount <= 0)
    && (forall c2 | ReshardStep(c, c2, plan) ::
          && plan.source in c2 && |c2[plan.source]| == 0 - miscount && Partition(c2)
          && (miscount == 0 ==> c2 == c[plan.source := {}][plan.target := c[plan.target] + c[plan.source]]))
  }

  lemma MergeHasOutcome(c: Owners, plan: Plan, miscount: int)
    requires Partition(c) && plan.Reshard? && plan.source in c && plan.target in c
    requires plan.source != ALL && plan.target != plan.source && plan.slots == |c[plan.source]| + miscount >= 0
    ensures MergeOutcome(c, plan, miscount)
  {
    hide Partition;
    CanSucceed(c, plan);
    forall c2 | ReshardStep(c, c2, plan)
      ensures plan.source in c2 && |c2[plan.source]| == 0 - miscount && Partition(c2)
      ensures miscount == 0 ==> c2 == c[plan.source := {}][plan.target := c[plan.target] + c[plan.source]]
    {
      SourceKeepsRest(c, c2, plan);
      var moved :| Moves(c, c2, plan, moved) && |moved| == plan.slots;
      AvailableIsSlots(c, plan.target, plan.source);
      MoveKeepsPartition(c, plan.target, moved);
      if miscount == 0 {
        FullMove(c, c2, plan);
      }
    }
  }

  // ---------------------------------------------------------------- a replica as source

  /** The slots read for the record at k when it is a replica: none, unless it comes behind another one
      and its master ID has a letter; then its times, its epoch and its link state are taken for slots. */
  lemma ReplicaSlots(records: seq<NodeRecord>, k: nat)
    requires k < |records| && WellFormed(records[k]) && IsReplica(records[k]) && records[k].tokens == []
    ensures |ReplyNodes(records, false)| == |records|
    ensures var r, slots := records[k], ReplyNodes(records, false)[k].slots;
            slots == if ReplicaCount(records[..k]) > 0 && !NoLetters(r.master)
                     then [Clamp(r.ping), Clamp(r.pong), Clamp(r.epoch)] + TokenNumbers(r.linkState) else []
    ensures '-' !in records[k].linkState ==> TokenNumbers(records[k].linkState) == [0]
  {
    hide TokenNumbers;
    if '-' !in records[k].linkState {
      LinkStateIsSlotZero(records[k].linkState);
    }
    ReplyNodeAt(records, false, k);
    EmptyTokens();
  }

  /** The count `MergeNode` makes of a misread replica whose link state holds no '-'. */
  function TimesCount(r: NodeRecord): int {
    Int64(Int64(Clamp(r.pong) - Clamp(r.ping) + 1) + Int64(0 - Clamp(r.epoch) + 1))
  }

  lemma PairSumOfTimes(a: int, b: int, c: int, d: int)
    ensures PairSum([a, b, c, d]) == Int64(Int64(b - a + 1) + Int64(d - c + 1))
  {
    var slots := [a, b, c, d];
    assert slots[..2] == [a, b] && slots[..2][..0] == [];
    assert PairSum([]) == 0;
    assert PairSum(slots[..2]) == Int64(0 + Int64(b - a + 1));
  }

  /** `MergeNode` on a replica: it asks for no slots, or, for a replica behind another one whose master
      ID has a letter, for a number made of its ping and pong times and its epoch. In no case does a
      reshard that succeeds change anything. A link state is "connected" or "disconnected". */
  lemma MergeNodeFromReplica(items: seq<Item>, c: Owners, t: nat, s: nat)
    requires PrintableReply(items) && Shows(Records(items), c) && Partition(c)
    requires t < |Records(items)| && s < |Records(items)| && IsReplica(Records(items)[s])
    requires '-' !in Records(items)[s].linkState
    ensures var records := Records(items);
            var target, r := records[t].id, records[s];
            var misread := ReplicaCount(records[..s]) > 0 && !NoLetters(r.master);
            var plan := MergePlan(ParseReply(Lines(Texts(items))), target, r.id);
            && plan == Reshard(target, if misread then TimesCount(r) else 0, r.id)
            && (r.id != ALL ==> forall c2 | ReshardStep(c, c2, plan) :: c2 == c)
  {
    hide ParseReply, PrintableReply, Partition, PairSum, Records, Lines, Texts, TokenNumbers, MergePlan, ReplyNodes;
    hide ReplicaCount, NoLetters, Clamp, Int64, WellFormed;
    var records := Records(items);
    var target, r := records[t].id, records[s];
    AllRecordsWellFormed(items);
    MergePlanOf(items, c, t, s);
    ReplicaSlots(records, s);
    PairSumOfTimes(Clamp(r.ping), Clamp(r.pong), Clamp(r.epoch), 0);
    NoPairSum();
    assert [Clamp(r.ping), Clamp(r.pong), Clamp(r.epoch)] + [0] == [Clamp(r.ping), Clamp(r.pong), Clamp(r.epoch), 0];
    var plan := MergePlan(ParseReply(Lines(Texts(items))), target, r.id);
    if r.id != ALL {
      forall c2 | ReshardStep(c, c2, plan) ensures c2 == c {
        NothingToTake(c, c2, plan);
      }
    }
  }

  /** A source that owns nothing has nothing to give. */
  lemma NothingToTake(c: Owners, c2: Owners, plan: Plan)
    requires plan.Reshard? && plan.source !in c && plan.source != ALL && ReshardStep(c, c2, plan)
    ensures c2 == c
  {
    var moved :| Moves(c, c2, plan, moved) && |moved| == plan.slots;
    assert moved == {};
    assert forall id | id in c :: c2[id] == c[id];
    assert c2 == c;
  }

  lemma NoPairSum()
    ensures PairSum([]) == 0
  {
  }

  lemma AllRecordsWellFormed(items: seq<Item>)
    requires PrintableReply(items)
    ensures forall k | 0 <= k < |Records(items)| :: WellFormed(Records(items)[k])
  {
    RecordsWellFormed(items);
  }
}
