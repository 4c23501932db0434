/** The cluster the plans act on: which primary owns which of the 16384 slots. */
module SlotCluster {
  import opened GoStrings
  import opened ClusterNodes
  import opened NodeLines
  import opened SlotPlans
  import opened SlotSets

  type Owners = map<string, set<int>>

  predicate Holds(c: Owners, id: string, s: int) { id in c && s in c[id] }

  predicate IsSlot(s: int) { 0 <= s < MAX_SLOT_COUNT }

  /** Every slot is held by exactly one node, and nothing but slots is held. */
  ghost predicate Partition(c: Owners) {
    && (forall s | IsSlot(s) :: exists id :: Holds(c, id, s))
    && (forall id, s | Holds(c, id, s) :: IsSlot(s))
    && (forall a, b, s | Holds(c, a, s) && Holds(c, b, s) :: a == b)
  }

  lemma OwnedSlots(c: Owners, id: string)
    requires Partition(c) && id in c
    ensures c[id] <= AllSlots()
  {
    forall s | s in c[id] ensures s in AllSlots() {
      assert Holds(c, id, s);
    }
  }

  lemma OwnedCount(c: Owners, id: string)
    requires Partition(c) && id in c
    ensures |c[id]| <= 16384
  {
    OwnedSlots(c, id);
    IntervalSize(0, MAX_SLOT_COUNT - 1);
    SubsetSize(c[id], AllSlots());
  }

  // ---------------------------------------------------------------- the reshard command

  function AfterMove(c: Owners, target: string, moved: set<int>): Owners {
    map id | id in c :: if id == target then c[id] + moved else c[id] - moved
  }

  /** The slots a reshard may take: those of the source, or for "all" those of all other nodes. */
  function Available(c: Owners, target: string, source: string): set<int>
    requires target in c
  {
    if source == ALL then AllSlots() - c[target] else if source in c then c[source] else {}
  }

  ghost predicate Moves(c: Owners, c2: Owners, plan: Plan, moved: set<int>)
    requires plan.Reshard? && plan.target in c
  {
    moved <= Available(c, plan.target, plan.source) && c2 == AfterMove(c, plan.target, moved)
  }

  /** A reshard that succeeds moves exactly as many slots as it was asked to. */
  ghost predicate ReshardStep(c: Owners, c2: Owners, plan: Plan)
    requires plan.Reshard?
  {
    plan.target in c && exists moved :: Moves(c, c2, plan, moved) && |moved| == plan.slots
  }

  /** A reshard that fails may have moved any part of what it may take, or nothing. */
  ghost predicate ReshardFailure(c: Owners, c2: Owners, plan: Plan)
    requires plan.Reshard?
  {
    c2 == c || (plan.target in c && exists moved :: Moves(c, c2, plan, moved))
  }

  lemma MoveKeepsPartition(c: Owners, target: string, moved: set<int>)
    requires Partition(c) && target in c && moved <= AllSlots()
    ensures Partition(AfterMove(c, target, moved)) && AfterMove(c, target, moved).Keys == c.Keys
  {
    var c2 := AfterMove(c, target, moved);
    assert forall id, s :: Holds(c2, id, s) <==> if s in moved then id == target else Holds(c, id, s);
    forall s | IsSlot(s) ensures exists id :: Holds(c2, id, s) {
      var id :| Holds(c, id, s);
      assert Holds(c2, target, s) || Holds(c2, id, s);
    }
  }

  lemma AvailableIsSlots(c: Owners, target: string, source: string)
    requires Partition(c) && target in c
    ensures Available(c, target, source) <= AllSlots()
  {
    if source != ALL && source in c {
      OwnedSlots(c, source);
    }
  }

  lemma TakesAll(c: Owners, x: string, t: string)
    requires Partition(c) && x in c && t in c && t != x
    ensures AfterMove(c, t, c[x]) == c[x := {}][t := c[t] + c[x]]
  {
    forall id | id in c && id != x ensures c[id] - c[x] == c[id] {
      forall s | s in c[id] ensures s !in c[x] {
        assert Holds(c, id, s);
        assert !Holds(c, x, s);
      }
    }
    assert c[x] - c[x] == {};
  }

  /** A reshard asked for as many slots as its source owns takes them all. */
  lemma FullMove(c: Owners, c2: Owners, plan: Plan)
    requires Partition(c) && plan.Reshard? && plan.source in c && plan.source != ALL
    requires plan.slots == |c[plan.source]| && plan.target != plan.source && ReshardStep(c, c2, plan)
    ensures c2 == c[plan.source := {}][plan.target := c[plan.target] + c[plan.source]] && Partition(c2)
  {
    hide Partition;
    var x, t := plan.source, plan.target;
    var moved :| Moves(c, c2, plan, moved) && |moved| == plan.slots;
    SubsetSize(moved, c[x]);
    OwnedSlots(c, x);
    MoveKeepsPartition(c, t, moved);
    TakesAll(c, x, t);
  }

  /** Any other successful reshard leaves the source with what it was not asked for. */
  lemma SourceKeepsRest(c: Owners, c2: Owners, plan: Plan)
    requires plan.Reshard? && plan.source in c && plan.source != ALL && plan.target != plan.source
    requires ReshardStep(c, c2, plan)
    ensures plan.source in c2 && |c2[plan.source]| == |c[plan.source]| - plan.slots
  {
    var moved :| Moves(c, c2, plan, moved) && |moved| == plan.slots;
    var owned := c[plan.source];
    assert owned == (owned - moved) + moved;
    assert |owned| == |owned - moved| + |moved|;
  }

  lemma {:induction false} SubsetOfSize<T>(s: set<T>, n: nat) returns (part: set<T>)
    requires n <= |s|
    ensures part <= s && |part| == n
  {
    if n == 0 {
      part := {};
    } else {
      var x :| x in s;
      var rest := SubsetOfSize(s - {x}, n - 1);
      part := rest + {x};
    }
  }

  /** A reshard can succeed exactly when it asks for a number of slots that are there to be taken. */
  lemma CanSucceed(c: Owners, plan: Plan)
    requires plan.Reshard? && plan.target in c
    ensures (exists c2 :: ReshardStep(c, c2, plan)) <==> 0 <= plan.slots <= |Available(c, plan.target, plan.source)|
  {
    var available := Available(c, plan.target, plan.source);
    if 0 <= plan.slots <= |available| {
      var moved := SubsetOfSize(available, plan.slots);
      var c2 := AfterMove(c, plan.target, moved);
      assert Moves(c, c2, plan, moved);
      assert ReshardStep(c, c2, plan);
    }
    if exists c2 :: ReshardStep(c, c2, plan) {
      var c2 :| ReshardStep(c, c2, plan);
      var moved :| Moves(c, c2, plan, moved) && |moved| == plan.slots;
      SubsetSize(moved, available);
    }
  }

  // ---------------------------------------------------------------- whole runs

  datatype Operation =
    | RunReshardAll(reply: Option<string>)
    | RunExceptNode(reply: Option<string>, id: string, pick: bool)
    | RunMergeNode(reply: Option<string>, target: string, source: string)

  function PlansOf(op: Operation): seq<Plan> {
    match op
    case RunReshardAll(None) => [Refused]
    case RunReshardAll(Some(reply)) => ReshardAllPlans(ParseReply(reply))
    case RunExceptNode(None, _, _) => [Refused]
    case RunExceptNode(Some(reply), id, pick) => [ExceptPlan(ParseReply(reply), id, pick)]
    case RunMergeNode(None, _, _) => [Refused]
    case RunMergeNode(Some(reply), target, source) => [MergePlan(ParseReply(reply), target, source)]
  }

  /** Carrying out plans one after the other; the first error ends the operation. */
  ghost predicate Performs(c: Owners, c2: Owners, plans: seq<Plan>)
    decreases |plans|
  {
    if plans == [] || !plans[0].Reshard? then c2 == c
    else
      || ReshardFailure(c, c2, plans[0])
      || exists mid :: ReshardStep(c, mid, plans[0]) && Performs(mid, c2, plans[1..])
  }

  ghost predicate IsHistory(cs: seq<Owners>, ops: seq<Operation>) {
    |cs| == |ops| + 1 && forall i | 0 <= i < |ops| :: Performs(cs[i], cs[i + 1], PlansOf(ops[i]))
  }

  lemma {:induction false} PlansKeepPartition(c: Owners, c2: Owners, plans: seq<Plan>)
    requires Partition(c) && Performs(c, c2, plans)
    ensures Partition(c2) && c2.Keys == c.Keys
    decreases |plans|
  {
    hide Partition, AfterMove, Available;
    if plans != [] && plans[0].Reshard? {
      var plan := plans[0];
      if ReshardFailure(c, c2, plan) {
        if c2 != c {
          var moved :| Moves(c, c2, plan, moved);
          AvailableIsSlots(c, plan.target, plan.source);
          MoveKeepsPartition(c, plan.target, moved);
        }
      } else {
        var mid :| ReshardStep(c, mid, plan) && Performs(mid, c2, plans[1..]);
        var moved :| Moves(c, mid, plan, moved) && |moved| == plan.slots;
        AvailableIsSlots(c, plan.target, plan.source);
        MoveKeepsPartition(c, plan.target, moved);
        PlansKeepPartition(mid, c2, plans[1..]);
      }
    }
  }

  /** Conservation: whatever operations are run on whatever replies, with reshards that succeed or
      fail half-way, every slot stays owned by exactly one of the same nodes. */
  lemma {:induction false} Conservation(cs: seq<Owners>, ops: seq<Operation>, i: nat)
    requires IsHistory(cs, ops) && Partition(cs[0]) && i < |cs|
    ensures Partition(cs[i]) && cs[i].Keys == cs[0].Keys
  {
    if 0 < i {
      Conservation(cs, ops, i - 1);
      PlansKeepPartition(cs[i - 1], cs[i], PlansOf(ops[i - 1]));
    }
  }

  predicate NamesNode(nodes: seq<ClusterNode>, id: string) {
    exists n | n in nodes :: n.id == id
  }

  /** A border node is found, with an ID to name it by. */
  predicate HasBorder(nodes: seq<ClusterNode>, p: ClusterNode -> bool) {
    IdOf(LastWhere(nodes, p)) != ""
  }

  /** The error and panic exits before any reshard. */
  predicate ErrorExit(op: Operation) {
    match op
    case RunReshardAll(None) => true
    case RunReshardAll(Some(reply)) => ParseReply(reply) == []
    case RunExceptNode(None, _, _) => true
    case RunExceptNode(Some(reply), id, _) =>
      var nodes := ParseReply(reply);
      var x := LastWhere(nodes, Excepted(id));
      || x.None?
      || !HasBorder(nodes, Ending(Int64(x.value.slots[0] - 1)))
      || !HasBorder(nodes, Beginning(Int64(x.value.slots[|x.value.slots| - 1] + 1)))
    case RunMergeNode(None, _, _) => true
    case RunMergeNode(Some(reply), target, source) =>
      var nodes := ParseReply(reply);
      var x := LastWhere(nodes, WithId(source));
      !NamesNode(nodes, target) || !NamesNode(nodes, source) || (x.Some? && |x.value.slots| % 2 == 1)
  }

  lemma LastWhereNames(nodes: seq<ClusterNode>, id: string)
    ensures LastWhere(nodes, WithId(id)).Some? <==> NamesNode(nodes, id)
  {
    LastWhereFinds(nodes, WithId(id));
    assert forall n | n in nodes :: WithId(id)(n) <==> HasId(n, id);
  }

  lemma NothingToExcept(reply: string, id: string, pick: bool)
    requires LastWhere(ParseReply(reply), Excepted(id)).None?
    ensures ExceptPlan(ParseReply(reply), id, pick) == Refused
  {
    hide ParseReply, ExceptPlan;
    var nodes := ParseReply(reply);
    LastWhereFinds(nodes, Excepted(id));
    forall n | n in nodes && n.id == id ensures !OwnsSlots(n) {
      assert !Excepted(id)(n);
    }
    NotExcepted(reply, id, pick);
  }

  lemma ExceptErrors(reply: string, id: string, pick: bool)
    ensures ErrorExit(RunExceptNode(Some(reply), id, pick)) <==> !ExceptPlan(ParseReply(reply), id, pick).Reshard?
    ensures (forall n | n in ParseReply(reply) && n.id == id :: !OwnsSlots(n) || n.slots[0] == 0) ==>
              !ExceptPlan(ParseReply(reply), id, pick).Reshard?
  {
    hide ParseReply, LastWhere;
    var nodes := ParseReply(reply);
    if LastWhere(nodes, Excepted(id)).None? {
      NothingToExcept(reply, id, pick);
    }
    if forall n | n in nodes && n.id == id :: !OwnsSlots(n) || n.slots[0] == 0 {
      NotExcepted(reply, id, pick);
    }
  }

  /** These are all the ways to end before a reshard, on any reply whatsoever, and each leaves the
      cluster alone. Excepting a node that is unknown, a replica, without slots, or whose slots begin
      at 0 is one of them. */
  lemma ErrorsChangeNothing(c: Owners, c2: Owners, op: Operation)
    requires Performs(c, c2, PlansOf(op))
    ensures ErrorExit(op) <==> PlansOf(op) != [] && !PlansOf(op)[0].Reshard?
    ensures ErrorExit(op) ==> c2 == c
    ensures op.RunReshardAll? && op.reply.Some? && ParseReply(op.reply.value) == [] ==> PlansOf(op) == [Panicked]
    ensures op.RunExceptNode? && op.reply.Some?
            && (forall n | n in ParseReply(op.reply.value) && n.id == op.id :: !OwnsSlots(n) || n.slots[0] == 0) ==>
              ErrorExit(op)
  {
    hide ParseReply, LastWhere, ExceptPlan, HasBorder;
    match op
    case RunReshardAll(_) =>
    case RunMergeNode(reply, target, source) =>
      if reply.Some? {
        LastWhereNames(ParseReply(reply.value), target);
        LastWhereNames(ParseReply(reply.value), source);
      }
    case RunExceptNode(reply, id, pick) =>
      if reply.Some? {
        ExceptErrors(reply.value, id, pick);
      }
  }

  // ---------------------------------------------------------------- what a reply shows

  /** The records of a reply taken from cluster `c`: distinct IDs, one line for every primary with its
      slots in ascending tokens, and replicas without slots. */
  ghost predicate Shows(records: seq<NodeRecord>, c: Owners) {
    && (forall j, k | 0 <= j < k < |records| :: records[j].id != records[k].id)
    && (forall k | 0 <= k < |records| ::
          var r := records[k];
          && r.id != ""
          && (IsReplica(r) ==> r.tokens == [] && r.id !in c)
          && (!IsReplica(r) ==> r.id in c && TokensAscend(r.tokens) && SlotSet(r.tokens) == c[r.id]))
    && (forall id | id in c :: exists k | 0 <= k < |records| :: records[k].id == id)
  }

  lemma EmptyTokens()
    ensures Flatten([]) == [] && SlotSet([]) == {}
  {
  }
}
