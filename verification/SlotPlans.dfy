/** The slot arithmetic of `ReshardAll`, `ExceptNode` and `MergeNode`: which reshard each of them asks
    for, given the reply of `CLUSTER NODES`. A missing reply is the command having failed. */
module SlotPlans {
  import opened GoStrings
  import opened ClusterNodes

  const MAX_SLOT_COUNT := 16384

  /** Go's `int` on 64-bit platforms. */
  function Int64(n: int): (w: int)
    ensures -MAX_INT64 - 1 <= n <= MAX_INT64 ==> w == n
  {
    (n + MAX_INT64 + 1) % (MAX_UINT64 + 1) - MAX_INT64 - 1
  }

  /** How an operation ends: with an error before any reshard, in a run-time panic, or by asking for
      `slots` slots to be moved from `source` to `target`. */
  datatype Plan = Refused | Panicked | Reshard(target: string, slots: int, source: string)

  const ALL := "all"

  // ---------------------------------------------------------------- specifications

  /** The last node a loop over `nodes` would remember when it keeps the nodes satisfying `p`. */
  function LastWhere(nodes: seq<ClusterNode>, p: ClusterNode -> bool): (r: Option<ClusterNode>)
    ensures r.Some? ==> p(r.value) && r.value in nodes
  {
    if nodes == [] then None
    else if p(nodes[|nodes| - 1]) then Some(nodes[|nodes| - 1])
    else LastWhere(nodes[..|nodes| - 1], p)
  }

  lemma {:induction false} LastWhereFinds(nodes: seq<ClusterNode>, p: ClusterNode -> bool)
    ensures LastWhere(nodes, p).None? <==> forall n | n in nodes :: !p(n)
  {
    if nodes != [] {
      var init := nodes[..|nodes| - 1];
      LastWhereFinds(init, p);
      assert nodes == init + [nodes[|nodes| - 1]];
    }
  }

  /** It is the last one. */
  lemma {:induction false} LastWhereIsLast(nodes: seq<ClusterNode>, p: ClusterNode -> bool, k: nat)
    requires k < |nodes| && p(nodes[k]) && forall j | k < j < |nodes| :: !p(nodes[j])
    ensures LastWhere(nodes, p) == Some(nodes[k])
  {
    if k < |nodes| - 1 {
      LastWhereIsLast(nodes[..|nodes| - 1], p, k);
    }
  }

  predicate OwnsSlots(n: ClusterNode) { n.slots != [] && "slave" !in n.flags }
  predicate HasId(n: ClusterNode, id: string) { n.id == id }
  predicate IsExcepted(n: ClusterNode, id: string) { OwnsSlots(n) && n.id == id }
  predicate Begins(n: ClusterNode, slot: int) { OwnsSlots(n) && n.slots[0] == slot }
  predicate Ends(n: ClusterNode, slot: int) { OwnsSlots(n) && n.slots[|n.slots| - 1] == slot }

  // The conditions of the loops, as functions of a node.
  function WithId(id: string): ClusterNode -> bool { n => HasId(n, id) }
  function Excepted(id: string): ClusterNode -> bool { n => IsExcepted(n, id) }
  function Beginning(slot: int): ClusterNode -> bool { n => Begins(n, slot) }
  function Ending(slot: int): ClusterNode -> bool { n => Ends(n, slot) }

  function IdOf(n: Option<ClusterNode>): string {
    match n case None => "" case Some(node) => node.id
  }

  /** `pick` is the outcome of `rand.Intn(2)`: the neighbour above rather than the one below. */
  function ExceptPlan(nodes: seq<ClusterNode>, id: string, pick: bool): Plan {
    var x := LastWhere(nodes, Excepted(id));
    var under := if x.Some? then x.value.slots[0] else 0;
    var over := if x.Some? then x.value.slots[|x.value.slots| - 1] else 0;
    var count := if x.Some? then Int64(over - under + 1) else 0;
    var overID := IdOf(LastWhere(nodes, Beginning(Int64(over + 1))));
    var underID := IdOf(LastWhere(nodes, Ending(Int64(under - 1))));
    if underID == "" || overID == "" then Refused
    else Reshard(if pick then overID else underID, count, id)
  }

  /** The sum over `(slots[0], slots[1]), (slots[2], slots[3]), ...` of last - first + 1. */
  function PairSum(slots: seq<int>): int {
    var n := |slots|;
    if n < 2 then 0 else Int64(PairSum(slots[..n - 2]) + Int64(slots[n - 1] - slots[n - 2] + 1))
  }

  function MergePlan(nodes: seq<ClusterNode>, targetID: string, sourceID: string): Plan {
    var target := LastWhere(nodes, WithId(targetID));
    var source := LastWhere(nodes, WithId(sourceID));
    if target.None? || source.None? then Refused
    else if |source.value.slots| % 2 == 1 then Panicked
    else Reshard(targetID, PairSum(source.value.slots), sourceID)
  }

  /** The IDs `GetNoSlotNodes` collects, in the order of the reply. */
  function NoSlotIDs(nodes: seq<ClusterNode>): seq<string> {
    if nodes == [] then [] else
    var n := nodes[|nodes| - 1];
    NoSlotIDs(nodes[..|nodes| - 1]) + if n.slots == [] then [n.id] else []
  }

  function ReshardsTo(ids: seq<string>, slots: int): seq<Plan> {
    seq(|ids|, i requires 0 <= i < |ids| => Reshard(ids[i], slots, ALL))
  }

  /** An empty reply makes `ReshardAll` divide by zero. */
  function ReshardAllPlans(nodes: seq<ClusterNode>): seq<Plan> {
    if nodes == [] then [Panicked] else ReshardsTo(NoSlotIDs(nodes), MAX_SLOT_COUNT / |nodes|)
  }

  // ---------------------------------------------------------------- the operations

  method GetNoSlotNodes(nodes: seq<ClusterNode>) returns (noSlotNodes: seq<string>, count: nat)
    ensures noSlotNodes == NoSlotIDs(nodes) && count == |nodes|
  {
    noSlotNodes := [];
    for k := 0 to |nodes|
      invariant noSlotNodes == NoSlotIDs(nodes[..k])
    {
      assert nodes[..k + 1][..k] == nodes[..k];
      if |nodes[k].slots| == 0 {
        noSlotNodes := noSlotNodes + [nodes[k].id];
      }
    }
    assert nodes[..|nodes|] == nodes;
    count := |nodes|;
  }

  method ReshardAll(reply: Option<string>) returns (plans: seq<Plan>)
    ensures plans == if reply.None? then [Refused] else ReshardAllPlans(ParseReply(reply.value))
  {
    if reply.None? {
      return [Refused];
    }
    var nodes := GetClusterNodes(reply.value);
    var noSlotNodes, allNodeCount := GetNoSlotNodes(nodes);
    if allNodeCount == 0 {
      return [Panicked];
    }
    var slotCount := MAX_SLOT_COUNT / allNodeCount;
    plans := [];
    for k := 0 to |noSlotNodes|
      invariant plans == ReshardsTo(noSlotNodes[..k], slotCount)
    {
      assert noSlotNodes[..k + 1][..k] == noSlotNodes[..k];
      plans := plans + [Reshard(noSlotNodes[k], slotCount, ALL)];
    }
    assert noSlotNodes[..|noSlotNodes|] == noSlotNodes;
  }

  /** The first loop of `ExceptNode`. */
  method BorderSlots(nodes: seq<ClusterNode>, exceptionNode: string) returns (under: int, over: int, slotCount: int)
    ensures var x := LastWhere(nodes, Excepted(exceptionNode));
            if x.None? then under == over == slotCount == 0
            else
              && under == x.value.slots[0]
              && over == x.value.slots[|x.value.slots| - 1]
              && slotCount == Int64(over - under + 1)
  {
    under, over, slotCount := 0, 0, 0;
    for k := 0 to |nodes|
      invariant var x := LastWhere(nodes[..k], Excepted(exceptionNode));
                if x.None? then under == over == slotCount == 0
                else
                  && under == x.value.slots[0]
                  && over == x.value.slots[|x.value.slots| - 1]
                  && slotCount == Int64(over - under + 1)
    {
      var node := nodes[k];
      assert nodes[..k + 1][..k] == nodes[..k];
      if |node.slots| == 0 {
        continue;
      }
      var slave := HasSlaveFlag(node.flags);
      if slave {
        continue;
      }
      if node.id == exceptionNode {
        under := node.slots[0];
        over := node.slots[|node.slots| - 1];
        slotCount := Int64(node.slots[|node.slots| - 1] - node.slots[0] + 1);
      }
    }
    assert nodes[..|nodes|] == nodes;
  }

  /** The second loop of `ExceptNode`. */
  method BorderIDs(nodes: seq<ClusterNode>, under: int, over: int) returns (underID: string, overID: string)
    ensures overID == IdOf(LastWhere(nodes, Beginning(Int64(over + 1))))
    ensures underID == IdOf(LastWhere(nodes, Ending(Int64(under - 1))))
  {
    underID, overID := "", "";
    for k := 0 to |nodes|
      invariant overID == IdOf(LastWhere(nodes[..k], Beginning(Int64(over + 1))))
      invariant underID == IdOf(LastWhere(nodes[..k], Ending(Int64(under - 1))))
    {
      var node := nodes[k];
      assert nodes[..k + 1][..k] == nodes[..k];
      if |node.slots| == 0 {
        continue;
      }
      var slave := HasSlaveFlag(node.flags);
      if slave {
        continue;
      }
      if node.slots[0] == Int64(over + 1) {
        overID := node.id;
      }
      if node.slots[|node.slots| - 1] == Int64(under - 1) {
        underID := node.id;
      }
    }
    assert nodes[..|nodes|] == nodes;
  }

  method ExceptNode(reply: Option<string>, exceptionNode: string, pick: bool) returns (plan: Plan)
    ensures plan == if reply.None? then Refused else ExceptPlan(ParseReply(reply.value), exceptionNode, pick)
  {
    hide ParseReply, LastWhere;
    if reply.None? {
      return Refused;
    }
    var nodes := GetClusterNodes(reply.value);
    var underBorderSlot, overBorderSlot, slotCount := BorderSlots(nodes, exceptionNode);
    var underBorderID, overBorderID := BorderIDs(nodes, underBorderSlot, overBorderSlot);
    if underBorderID == "" || overBorderID == "" {
      return Refused;
    }
    var selectedBorderNode := "";
    if underBorderID == "" {
      selectedBorderNode := overBorderID;
    }
    if overBorderID == "" {
      selectedBorderNode := underBorderID;
    }
    if underBorderID != "" && overBorderID != "" {
      selectedBorderNode := if pick then overBorderID else underBorderID;
    }
    plan := Reshard(selectedBorderNode, slotCount, exceptionNode);
  }

  /** The counting loop of `MergeNode`: it panics on the missing end of an odd list. */
  method CountPairs(slots: seq<int>) returns (slotCount: int, panicked: bool)
    ensures panicked <==> |slots| % 2 == 1
    ensures !panicked ==> slotCount == PairSum(slots)
  {
    slotCount, panicked := 0, false;
    var i := 0;
    while i < |slots|
      invariant 0 <= i <= |slots| && i % 2 == 0
      invariant slotCount == PairSum(slots[..i])
    {
      if i + 1 == |slots| {
        return slotCount, true; // index out of range
      }
      var start := slots[i];
      var end := slots[i + 1];
      assert slots[..i + 2][..i] == slots[..i];
      slotCount := Int64(slotCount + Int64(end - start + 1));
      i := i + 2;
    }
    assert slots[..|slots|] == slots;
  }

  method MergeNode(reply: Option<string>, targetNodeID: string, sourceNodeID: string) returns (plan: Plan)
    ensures plan == if reply.None? then Refused else MergePlan(ParseReply(reply.value), targetNodeID, sourceNodeID)
  {
    hide ParseReply;
    if reply.None? {
      return Refused;
    }
    var nodes := GetClusterNodes(reply.value);
    var targetNode: Option<ClusterNode>, sourceNode: Option<ClusterNode> := None, None;
    for k := 0 to |nodes|
      invariant targetNode == LastWhere(nodes[..k], WithId(targetNodeID))
      invariant sourceNode == LastWhere(nodes[..k], WithId(sourceNodeID))
    {
      assert nodes[..k + 1][..k] == nodes[..k];
      if nodes[k].id == targetNodeID {
        targetNode := Some(nodes[k]);
      }
      if nodes[k].id == sourceNodeID {
        sourceNode := Some(nodes[k]);
      }
    }
    assert nodes[..|nodes|] == nodes;
    if targetNode.None? || sourceNode.None? {
      return Refused;
    }
    var slotCount, panicked := CountPairs(sourceNode.value.slots);
    if panicked {
      return Panicked;
    }
    plan := Reshard(targetNode.value.id, slotCount, sourceNode.value.id);
  }

  // ---------------------------------------------------------------- the plans on any nodes whatsoever

  /** 64-bit integers wrap around. */
  lemma Int64Wraps(n: int)
    ensures -9223372036854775808 <= Int64(n) <= 9223372036854775807
    ensures (Int64(n) - n) % 18446744073709551616 == 0
  {
    var m := n + 9223372036854775808;
    assert m == m / 18446744073709551616 * 18446744073709551616 + m % 18446744073709551616;
    assert Int64(n) - n == (0 - m / 18446744073709551616) * 18446744073709551616;
  }

  lemma Int64Shifts(n: int, k: int)
    ensures Int64(n + k * 18446744073709551616) == Int64(n)
  {
    var m, b := n + 9223372036854775808, 18446744073709551616;
    var q, r := m / b, m % b;
    assert m + k * b == (q + k) * b + r;
    RemainderIs(m + k * b, q + k, r);
  }

  lemma RemainderIs(m: int, q: int, r: int)
    requires 0 <= r < 18446744073709551616 && m == q * 18446744073709551616 + r
    ensures m % 18446744073709551616 == r
  {
  }

  /** Wrapping around in between makes no difference. */
  lemma Int64OfSum(a: int, b: int)
    ensures Int64(Int64(a) + b) == Int64(a + b)
  {
    var k := (a + 9223372036854775808) / 18446744073709551616;
    assert Int64(a) == a - k * 18446744073709551616;
    Int64Shifts(a + b, 0 - k);
  }

  /** The sum, pair by pair from the front. */
  lemma {:induction false} PairSumOfMore(first: int, last: int, slots: seq<int>)
    requires |slots| % 2 == 0
    ensures PairSum([]) == 0
    ensures PairSum([first, last] + slots) == Int64(last - first + 1 + PairSum(slots))
  {
    hide Int64;
    var n, all, d := |slots|, [first, last] + slots, last - first + 1;
    if n == 0 {
      assert all[..0] == [] && all[0] == first && all[1] == last;
      assert PairSum([]) == 0 && PairSum(slots) == 0;
      Int64OfSum(d, 0);
    } else {
      var front, e := slots[..n - 2], slots[n - 1] - slots[n - 2] + 1;
      assert all[..n] == [first, last] + front && all[n] == slots[n - 2] && all[n + 1] == slots[n - 1];
      PairSumOfMore(first, last, front);
      Int64OfSum(d + PairSum(front), Int64(e));
      Int64OfSum(PairSum(front) + Int64(e), d);
      assert PairSum(slots) == Int64(PairSum(front) + Int64(e));
      assert PairSum(all) == Int64(PairSum(all[..n]) + Int64(e));
    }
  }

  /** `ExceptNode` written out: the last slot-owning primary with the ID, the last one that begins right
      behind its last slot, and the last one that ends right before its first. */
  lemma ExceptPlanWrittenOut(nodes: seq<ClusterNode>, id: string, pick: bool, x: nat, over: nat, under: nat)
    requires x < |nodes| && over < |nodes| && under < |nodes|
    requires Owner(nodes[x]) && nodes[x].id == id
    requires forall j | x < j < |nodes| :: !(Owner(nodes[j]) && nodes[j].id == id)
    requires var first, last := nodes[x].slots[0], nodes[x].slots[|nodes[x].slots| - 1];
             && 0 <= first < 9223372036854775807 && 0 <= last < 9223372036854775807
             && Owner(nodes[over]) && nodes[over].slots[0] == last + 1
             && (forall j | over < j < |nodes| :: !(Owner(nodes[j]) && nodes[j].slots[0] == last + 1))
             && Owner(nodes[under]) && nodes[under].slots[|nodes[under].slots| - 1] == first - 1
             && (forall j | under < j < |nodes| ::
                   !(Owner(nodes[j]) && nodes[j].slots[|nodes[j].slots| - 1] == first - 1))
    requires nodes[over].id != "" && nodes[under].id != ""
    ensures var first, last := nodes[x].slots[0], nodes[x].slots[|nodes[x].slots| - 1];
            ExceptPlan(nodes, id, pick) == Reshard(nodes[if pick then over else under].id, last - first + 1, id)
  {
    hide LastWhere;
    LastWhereIsLast(nodes, Excepted(id), x);
    var first, last := nodes[x].slots[0], nodes[x].slots[|nodes[x].slots| - 1];
    LastWhereIsLast(nodes, Beginning(last + 1), over);
    LastWhereIsLast(nodes, Ending(first - 1), under);
  }

  /** ... and refused when one of the three is missing, or one of the two borders has no ID. */
  lemma ExceptRefused(nodes: seq<ClusterNode>, id: string, pick: bool, x: nat)
    requires x < |nodes| && Owner(nodes[x]) && nodes[x].id == id
    requires forall j | x < j < |nodes| :: !(Owner(nodes[j]) && nodes[j].id == id)
    requires var first, last := nodes[x].slots[0], nodes[x].slots[|nodes[x].slots| - 1];
             && 0 <= first < 9223372036854775807 && 0 <= last < 9223372036854775807
             && ((forall n | n in nodes && Owner(n) && n.slots[0] == last + 1 :: n.id == "")
                 || (forall n | n in nodes && Owner(n) && n.slots[|n.slots| - 1] == first - 1 :: n.id == ""))
    ensures ExceptPlan(nodes, id, pick) == Refused
  {
    hide LastWhere;
    LastWhereIsLast(nodes, Excepted(id), x);
    var first, last := nodes[x].slots[0], nodes[x].slots[|nodes[x].slots| - 1];
    var over, under := LastWhere(nodes, Beginning(last + 1)), LastWhere(nodes, Ending(first - 1));
    assert over.Some? ==> Owner(over.value) && over.value.slots[0] == last + 1;
    assert under.Some? ==> Owner(under.value) && under.value.slots[|under.value.slots| - 1] == first - 1;
  }

  /** A primary that owns slots. */
  predicate Owner(n: ClusterNode) { |n.slots| > 0 && !exists f | f in n.flags :: f == "slave" }

  /** `MergeNode` written out: the last nodes with the two IDs, and refused when there is none. */
  lemma MergePlanWrittenOut(nodes: seq<ClusterNode>, target: string, source: string, t: nat, s: nat)
    requires t < |nodes| && nodes[t].id == target && forall j | t < j < |nodes| :: nodes[j].id != target
    requires s < |nodes| && nodes[s].id == source && forall j | s < j < |nodes| :: nodes[j].id != source
    ensures MergePlan(nodes, target, source) ==
              if |nodes[s].slots| % 2 == 1 then Panicked else Reshard(target, PairSum(nodes[s].slots), source)
  {
    hide LastWhere;
    LastWhereIsLast(nodes, WithId(target), t);
    LastWhereIsLast(nodes, WithId(source), s);
  }

  lemma MergeRefused(nodes: seq<ClusterNode>, target: string, source: string)
    requires (forall n | n in nodes :: n.id != target) || (forall n | n in nodes :: n.id != source)
    ensures MergePlan(nodes, target, source) == Refused
  {
    LastWhereFinds(nodes, WithId(target));
    LastWhereFinds(nodes, WithId(source));
  }

  /** `GetNoSlotNodes` written out: the nodes without slots, each once and in the order of the reply. */
  lemma {:induction false} NoSlotIDsInOrder(nodes: seq<ClusterNode>) returns (at: seq<nat>)
    ensures NoSlotsAt(nodes, at, NoSlotIDs(nodes))
  {
    if nodes == [] {
      at := [];
    } else {
      var n := |nodes| - 1;
      var init := NoSlotIDsInOrder(nodes[..n]);
      at := if nodes[n].slots == [] then init + [n] else init;
      hide NoSlotIDs;
      NoSlotsAtEnd(nodes, init, NoSlotIDs(nodes[..n]));
    }
  }

  ghost predicate NoSlotsAt(nodes: seq<ClusterNode>, at: seq<nat>, ids: seq<string>) {
    && |at| == |ids|
    && (forall i | 0 <= i < |at| :: at[i] < |nodes| && nodes[at[i]].slots == [] && ids[i] == nodes[at[i]].id)
    && (forall i, j | 0 <= i < j < |at| :: at[i] < at[j])
    && (forall k | 0 <= k < |nodes| && nodes[k].slots == [] :: k in at)
  }

  lemma NoSlotsAtEnd(nodes: seq<ClusterNode>, at: seq<nat>, ids: seq<string>)
    requires nodes != [] && NoSlotsAt(nodes[..|nodes| - 1], at, ids)
    ensures var n := |nodes| - 1;
            if nodes[n].slots == [] then NoSlotsAt(nodes, at + [n], ids + [nodes[n].id]) else NoSlotsAt(nodes, at, ids)
  {
    var n := |nodes| - 1;
    forall k | 0 <= k < n && nodes[k].slots == [] ensures k in at {
      assert nodes[..n][k] == nodes[k];
    }
    assert forall i | 0 <= i < |at| :: at[i] < n && nodes[..n][at[i]] == nodes[at[i]];
  }

  // ---------------------------------------------------------------- any reply whatsoever

  /** Whatever the reply: a node that is unknown, a replica, without slots, or whose slots begin at 0
      is never excepted. */
  lemma NotExcepted(reply: string, id: string, pick: bool)
    requires var nodes := ParseReply(reply);
             forall n | n in nodes && n.id == id :: !OwnsSlots(n) || n.slots[0] == 0
    ensures ExceptPlan(ParseReply(reply), id, pick) == Refused
  {
    hide ParseLines, ScanLines;
    var nodes := ParseReply(reply);
    SlotsAreNonNegative(ScanLines(reply), FRESH);
    forall n | n in nodes ensures !Ending(-1)(n) && (IsExcepted(n, id) ==> n.slots[0] == 0) {
      assert NonNegative(n.slots);
    }
    LastWhereFinds(nodes, Ending(-1));
    assert Int64(0 - 1) == -1;
  }
}
