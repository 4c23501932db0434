/** `ExceptNode` on clusters whose nodes own slots with gaps between them, and how `ReshardAll` opens
    such gaps. */
module GapsOnClusters {
  import opened GoStrings
  import opened ClusterNodes
  import opened NodeLines
  import opened SlotPlans
  import opened SlotSets
  import opened SlotCluster
  import opened ExceptOnClusters
  import opened ReshardAllOnClusters

  ghost predicate FirstSlot(c: Owners, id: string, s: int) {
    Holds(c, id, s) && forall u | Holds(c, id, u) :: s <= u
  }

  ghost predicate LastSlot(c: Owners, id: string, s: int) {
    Holds(c, id, s) && forall u | Holds(c, id, u) :: u <= s
  }

  /** The slots of `t` begin right behind the last one of `x`. */
  ghost predicate Follows(c: Owners, x: string, t: string) {
    exists s :: LastSlot(c, x, s) && FirstSlot(c, t, s + 1)
  }

  /** What a parsed node says of its owner: its first and its last slot. */
  ghost predicate NamesEnds(n: ClusterNode, c: Owners) {
    OwnsSlots(n) ==> n.id != "" && FirstSlot(c, n.id, First(n)) && LastSlot(c, n.id, Last(n))
  }

  ghost predicate NamesAllEnds(nodes: seq<ClusterNode>, c: Owners) {
    (forall n | n in nodes :: NamesEnds(n, c)) && (forall id | id in c && c[id] != {} :: NamesOwner(nodes, id))
  }

  lemma RecordNamesEnds(n: ClusterNode, r: NodeRecord, c: Owners)
    requires Agrees(n, r) && r.id != "" && !IsReplica(r) && r.id in c && TokensAscend(r.tokens)
    requires SlotSet(r.tokens) == c[r.id]
    ensures NamesEnds(n, c) && (c[r.id] != {} ==> IsExcepted(n, r.id))
  {
    hide Flatten, SlotSet, TokensAscend;
    EmptyTokens();
    if r.tokens != [] {
      FlattenEnds(r.tokens);
      SlotSetInHull(r.tokens);
    }
  }

  /** The parsed reply of any cluster names the ends of every owner's slots. */
  lemma RepliesNameEnds(items: seq<Item>, c: Owners)
    requires PrintableReply(items) && Shows(Records(items), c)
    ensures NamesAllEnds(ParseReply(Lines(Texts(items))), c)
  {
    hide ParseReply, Flatten, SlotSet, TokensAscend, NamesEnds, PrintableReply;
    var records, nodes := Records(items), ParseReply(Lines(Texts(items)));
    ReplyAgrees(items);
    forall n | n in nodes ensures NamesEnds(n, c) {
      var k :| 0 <= k < |nodes| && nodes[k] == n;
      assert Agrees(n, records[k]);
      if IsReplica(records[k]) {
        ReplicaNamesNoEnds(n, c);
      } else {
        RecordNamesEnds(n, records[k], c);
      }
    }
    forall id | id in c && c[id] != {} ensures NamesOwner(nodes, id) {
      var k :| 0 <= k < |records| && records[k].id == id;
      assert Agrees(nodes[k], records[k]);
      RecordNamesEnds(nodes[k], records[k], c);
      assert nodes[k] in nodes;
    }
  }

  lemma ReplicaNamesNoEnds(n: ClusterNode, c: Owners)
    requires "slave" in n.flags
    ensures NamesEnds(n, c)
  {
  }

  ghost predicate EndsAt(c: Owners, above: bool, t: string, s: int) {
    if above then FirstSlot(c, t, s) else LastSlot(c, t, s)
  }

  /** The loop over the borders finds a node that begins (or ends) at a slot exactly when there is one. */
  lemma EndFound(nodes: seq<ClusterNode>, c: Owners, above: bool, s: int)
    requires NamesAllEnds(nodes, c)
    ensures var found := LastWhere(nodes, AtEnd(above, s));
            && (found.Some? <==> exists t :: EndsAt(c, above, t, s))
            && (found.Some? ==> found.value.id != "" && EndsAt(c, above, found.value.id, s))
  {
    hide LastWhere;
    var found := LastWhere(nodes, AtEnd(above, s));
    LastWhereFinds(nodes, AtEnd(above, s));
    if t :| EndsAt(c, above, t, s) {
      assert NamesOwner(nodes, t);
      var n :| n in nodes && IsExcepted(n, t);
      assert NamesEnds(n, c);
      assert AtEnd(above, s)(n);
    }
    if found.Some? {
      var n := found.value;
      assert NamesEnds(n, c) && OwnsSlots(n);
      assert if above then Begins(n, s) else Ends(n, s);
      assert EndsAt(c, above, n.id, s);
    }
  }

  lemma EndsAreSlots(c: Owners, x: string, lo: int, hi: int)
    requires Partition(c) && FirstSlot(c, x, lo) && LastSlot(c, x, hi)
    ensures IsSlot(lo) && IsSlot(hi) && lo <= hi
    ensures forall a :: OnSide(c, x, true, a) <==> EndsAt(c, true, a, hi + 1)
    ensures forall b :: OnSide(c, x, false, b) <==> EndsAt(c, false, b, lo - 1)
  {
    forall b | LastSlot(c, b, lo - 1) ensures Follows(c, b, x) {
      assert FirstSlot(c, x, lo - 1 + 1);
    }
  }

  lemma OneHolder(c: Owners, s: int, above: bool)
    requires Partition(c)
    ensures forall a, b | EndsAt(c, above, a, s) && EndsAt(c, above, b, s) :: a == b
  {
    forall a, b | EndsAt(c, above, a, s) && EndsAt(c, above, b, s) ensures a == b {
      assert Holds(c, a, s) && Holds(c, b, s);
    }
  }

  /** The node on the drawn side: one that begins behind the last slot, or ends before the first. */
  ghost predicate OnSide(c: Owners, x: string, above: bool, t: string) {
    if above then Follows(c, x, t) else Follows(c, t, x)
  }

  /** On any cluster, with gaps or without, and from the printed reply, `ExceptNode` reshards exactly when
      some node begins behind the last slot of the node and some node ends before its first slot; it asks
      for the whole range between these two, to be given to the one on the drawn side. */
  lemma ExceptPlansExactly(items: seq<Item>, c: Owners, x: string, pick: bool)
    requires PrintableReply(items) && Shows(Records(items), c) && Partition(c)
    ensures var plan := ExceptPlan(ParseReply(Lines(Texts(items))), x, pick);
            && (plan.Reshard? <==> (exists a :: OnSide(c, x, true, a)) && (exists b :: OnSide(c, x, false, b)))
            && (!plan.Reshard? ==> plan == Refused)
            && (plan.Reshard? ==>
                  && plan.source == x && (forall t :: OnSide(c, x, pick, t) <==> t == plan.target)
                  && forall lo, hi | FirstSlot(c, x, lo) && LastSlot(c, x, hi) :: plan.slots == hi - lo + 1)
  {
    hide ParseReply, LastWhere, Partition, PrintableReply, Shows, Lines, Texts, Records;
    hide FirstSlot, LastSlot, Follows, EndsAt, OnSide;
    var reply := Lines(Texts(items));
    var nodes := ParseReply(reply);
    RepliesNameEnds(items, c);
    var found := LastWhere(nodes, Excepted(x));
    if found.None? {
      NothingToExcept(reply, x, pick);
      NoEnds(nodes, c, x);
    } else {
      var lo, hi := First(found.value), Last(found.value);
      assert NamesEnds(found.value, c);
      EndsAreSlots(c, x, lo, hi);
      OnlyEnds(c, x, lo, hi);
      EndFound(nodes, c, true, hi + 1);
      EndFound(nodes, c, false, lo - 1);
      OneHolder(c, hi + 1, true);
      OneHolder(c, lo - 1, false);
      var over, under := LastWhere(nodes, Beginning(hi + 1)), LastWhere(nodes, Ending(lo - 1));
      assert AtEnd(true, hi + 1) == Beginning(hi + 1) && AtEnd(false, lo - 1) == Ending(lo - 1);
      assert over.Some? ==> OnSide(c, x, true, over.value.id);
      assert under.Some? ==> OnSide(c, x, false, under.value.id);
    }
  }

  lemma OnlyEnds(c: Owners, x: string, lo: int, hi: int)
    requires FirstSlot(c, x, lo) && LastSlot(c, x, hi)
    ensures forall s :: (FirstSlot(c, x, s) <==> s == lo) && (LastSlot(c, x, s) <==> s == hi)
  {
  }

  lemma NoEnds(nodes: seq<ClusterNode>, c: Owners, x: string)
    requires NamesAllEnds(nodes, c) && LastWhere(nodes, Excepted(x)).None?
    ensures forall t, above :: !OnSide(c, x, above, t)
  {
    LastWhereFinds(nodes, Excepted(x));
    forall n | n in nodes ensures !IsExcepted(n, x) {
      assert !Excepted(x)(n);
    }
    assert !NamesOwner(nodes, x);
  }

  // ---------------------------------------------------------------- a gap

  const HOST := "10.0.0.1:6379"

  function Primary(id: string, tokens: seq<SlotToken>): NodeRecord {
    NodeRecord(id, HOST, 16379, "", ["master"], "-", 0, 0, 1, "connected", tokens)
  }

  /** The lines of a reply without blanks. */
  function AsItems(records: seq<NodeRecord>): seq<Item> {
    if records == [] then [] else [Node(records[0], false)] + AsItems(records[1..])
  }

  lemma {:induction false} ItemsOfRecords(records: seq<NodeRecord>)
    requires forall k | 0 <= k < |records| :: WellFormed(records[k]) && PlainRecord(records[k])
    ensures Records(AsItems(records)) == records
    ensures forall k | 0 <= k < |AsItems(records)| ::
              var item := AsItems(records)[k];
              item.Node? && WellFormed(item.record) && PlainRecord(item.record)
  {
    hide WellFormed, PlainRecord;
    if records != [] {
      ItemsOfRecords(records[1..]);
      assert AsItems(records)[1..] == AsItems(records[1..]);
    }
  }

  /** The records of a cluster of four primaries, and their owners. */
  function FourRecords(y: seq<SlotToken>, x: seq<SlotToken>, z: seq<SlotToken>, w: seq<SlotToken>): seq<NodeRecord> {
    [Primary("y", y), Primary("x", x), Primary("z", z), Primary("w", w)]
  }

  function FourOwners(y: set<int>, x: set<int>, z: set<int>, w: set<int>): Owners {
    map["y" := y, "x" := x, "z" := z, "w" := w]
  }

  predicate GoodTokens(tokens: seq<SlotToken>) {
    TokensAscend(tokens) && forall k | 0 <= k < |tokens| :: TokenFits(tokens[k])
  }

  lemma LiteralsAreGood()
    ensures Avoids(["master"], ',') && Avoids(["master"], ' ') && "slave" !in ["master"] && Plain("master")
    ensures NoLetters("-") && Plain("-") && IsLinkState("connected") && Plain("connected")
    ensures '@' !in HOST && Plain(HOST)
  {
    assert |"slave"| != |"master"|;
  }

  lemma PrimaryIsGood(id: string, tokens: seq<SlotToken>)
    requires |id| == 1 && 'a' <= id[0] <= 'z' && GoodTokens(tokens)
    ensures WellFormed(Primary(id, tokens)) && PlainRecord(Primary(id, tokens))
  {
    hide TokensAscend, TokenFits, NoLetters, IsLinkState, Avoids;
    LiteralsAreGood();
    assert id == [id[0]];
    assert |"txt:"| > |id|;
  }

  lemma FourNodesPrint(y: seq<SlotToken>, x: seq<SlotToken>, z: seq<SlotToken>, w: seq<SlotToken>)
    requires GoodTokens(y) && GoodTokens(x) && GoodTokens(z) && GoodTokens(w)
    ensures var items := AsItems(FourRecords(y, x, z, w));
            PrintableReply(items) && Records(items) == FourRecords(y, x, z, w)
  {
    hide GoodTokens, WellFormed, PlainRecord, PrintableReply, Primary, Records, AsItems;
    PrimaryIsGood("y", y);
    PrimaryIsGood("x", x);
    PrimaryIsGood("z", z);
    PrimaryIsGood("w", w);
    ItemsOfRecords(FourRecords(y, x, z, w));
    PlainRepliesArePrintable(AsItems(FourRecords(y, x, z, w)));
  }

  lemma FourNodesShow(y: seq<SlotToken>, x: seq<SlotToken>, z: seq<SlotToken>, w: seq<SlotToken>)
    requires GoodTokens(y) && GoodTokens(x) && GoodTokens(z) && GoodTokens(w)
    ensures Shows(FourRecords(y, x, z, w), FourOwners(SlotSet(y), SlotSet(x), SlotSet(z), SlotSet(w)))
  {
    hide SlotSet, TokensAscend, TokenFits;
    var records := FourRecords(y, x, z, w);
    assert records[0].id == "y" && records[1].id == "x" && records[2].id == "z" && records[3].id == "w";
  }

  lemma OneToken(t: SlotToken)
    ensures SlotSet([t]) == TokenSet(t) && (TokenFits(t) && Lo(t) <= Hi(t) ==> GoodTokens([t]))
  {
    assert [t][..0] == [];
  }

  lemma TwoTokens(t: SlotToken, u: SlotToken)
    ensures SlotSet([t, u]) == TokenSet(t) + TokenSet(u)
    ensures TokenFits(t) && TokenFits(u) && Lo(t) <= Hi(t) < Lo(u) <= Hi(u) ==> GoodTokens([t, u])
  {
    assert [t, u][..1] == [t];
    OneToken(t);
  }

  // An even cluster with an empty node, and what a "ReshardAll" can make of it: the empty node z is given
  // slot 2 and the last 4095.

  const BEFORE := FourRecords([Single(0)], [Range(1, 3)], [], [Range(4, 16383)])
  const AFTER := FourRecords([Single(0)], [Single(1), Single(3)], [Single(2), Range(12289, 16383)], [Range(4, 12288)])

  function OwnersBefore(): Owners {
    FourOwners({0}, Interval(1, 3), {}, Interval(4, 16383))
  }

  function OwnersAfter(): Owners {
    FourOwners({0}, {1, 3}, {2} + Interval(12289, 16383), Interval(4, 12288))
  }

  lemma BeforeIsShown()
    ensures PrintableReply(AsItems(BEFORE)) && Records(AsItems(BEFORE)) == BEFORE && Shows(BEFORE, OwnersBefore())
  {
    hide Shows, PrintableReply, Records, AsItems, GoodTokens, Flatten;
    OneToken(Single(0));
    OneToken(Range(1, 3));
    OneToken(Range(4, 16383));
    EmptyTokens();
    NoTokensAreGood();
    assert TokenSet(Single(0)) == {0};
    FourNodesPrint([Single(0)], [Range(1, 3)], [], [Range(4, 16383)]);
    FourNodesShow([Single(0)], [Range(1, 3)], [], [Range(4, 16383)]);
  }

  lemma NoTokensAreGood()
    ensures GoodTokens([])
  {
  }

  lemma AfterIsShown()
    ensures PrintableReply(AsItems(AFTER)) && Records(AsItems(AFTER)) == AFTER && Shows(AFTER, OwnersAfter())
  {
    hide Shows, PrintableReply, Records, AsItems, GoodTokens, Flatten;
    var y, x, z, w := [Single(0)], [Single(1), Single(3)], [Single(2), Range(12289, 16383)], [Range(4, 12288)];
    OneToken(Single(0));
    TwoTokens(Single(1), Single(3));
    TwoTokens(Single(2), Range(12289, 16383));
    OneToken(Range(4, 12288));
    assert SlotSet(y) == {0};
    assert SlotSet(x) == {1, 3} by {
      assert TokenSet(Single(1)) == {1} && TokenSet(Single(3)) == {3};
    }
    assert SlotSet(z) == {2} + Interval(12289, 16383) by {
      assert TokenSet(Single(2)) == {2};
    }
    FourNodesPrint(y, x, z, w);
    FourNodesShow(y, x, z, w);
  }

  lemma BeforeIsPartition()
    ensures Partition(OwnersBefore()) && AllContiguous(OwnersBefore())
  {
    var c := OwnersBefore();
    forall s | IsSlot(s) ensures exists id :: Holds(c, id, s) {
      assert Holds(c, if s == 0 then "y" else if s <= 3 then "x" else "w", s);
    }
    assert {0} == Interval(0, 0);
  }

  /** The move from one to the other is one the plans of `ReshardAll` allow. */
  lemma GapMove()
    ensures ReshardStep(OwnersBefore(), OwnersAfter(), Reshard("z", 4096, ALL))
  {
    var c, moved := OwnersBefore(), {2} + Interval(12289, 16383);
    IntervalSize(12289, 16383);
    assert Interval(1, 3) - moved == {1, 3};
    assert Interval(4, 16383) - moved == Interval(4, 12288);
    assert {0} - moved == {0} && {} + moved == moved;
    assert AfterMove(c, "z", moved) == OwnersAfter();
    assert Moves(c, OwnersAfter(), Reshard("z", 4096, ALL), moved);
  }

  lemma PlansBefore()
    ensures ReshardAllPlans(ParseReply(Lines(Texts(AsItems(BEFORE))))) == [Reshard("z", 4096, ALL)]
  {
    hide ParseReply, Lines, Texts, Shows, PrintableReply, Records, AsItems, ReshardAllPlans;
    BeforeIsShown();
    assert "z" in OwnersBefore();
    var ids := ReshardAllPlan(AsItems(BEFORE), OwnersBefore());
    OnlyOneServed();
    assert ServedId(BEFORE, "z");
    assert "z" in ids;
    DistinctCount(ids, {"z"});
    assert ids[0] in ids;
    assert ids == ["z"];
  }

  lemma OnlyOneServed()
    ensures forall id :: ServedId(BEFORE, id) <==> id == "z"
  {
    assert ReadSlotless(BEFORE, 2);
  }

  /** `ReshardAll` on a cluster of intervals can leave a cluster with gaps, on which `ExceptNode`, from
      the printed reply and to either side, asks for the three slots of a range of which the node owns
      two, so that its reshard can never succeed. */
  lemma ReshardAllOpensGaps(pick: bool)
    ensures var c, c2, items := OwnersBefore(), OwnersAfter(), AsItems(BEFORE);
            && PrintableReply(items) && Shows(Records(items), c) && Partition(c) && AllContiguous(c)
            && Completes(c, c2, ReshardAllPlans(ParseReply(Lines(Texts(items)))))
    ensures var c, items := OwnersAfter(), AsItems(AFTER);
            && PrintableReply(items) && Shows(Records(items), c) && Partition(c)
            && var plan := ExceptPlan(ParseReply(Lines(Texts(items))), "x", pick);
               plan == Reshard(if pick then "w" else "y", 3, "x") && |c["x"]| == 2 && !Contiguous(c["x"])
               && forall c3 :: !ReshardStep(c, c3, plan)
  {
    hide ParseReply, Lines, Texts, Shows, PrintableReply, Records, AsItems, ReshardAllPlans, ExceptPlan, ReshardStep;
    hide Partition, AllContiguous, Contiguous, OnSide, FirstSlot, LastSlot;
    BeforeIsShown();
    AfterIsShown();
    BeforeIsPartition();
    PlansBefore();
    GapMove();
    var plans := [Reshard("z", 4096, ALL)];
    assert plans[1..] == [] && Completes(OwnersAfter(), OwnersAfter(), plans[1..]);
    assert Completes(OwnersBefore(), OwnersAfter(), plans);
    CompletingPerforms(OwnersBefore(), OwnersAfter(), plans);
    PlansKeepPartition(OwnersBefore(), OwnersAfter(), plans);
    SidesAfter();
    ExceptPlansExactly(AsItems(AFTER), OwnersAfter(), "x", pick);
    ExceptAsksForHull(AsItems(AFTER), OwnersAfter(), "x", pick);
    assert |{1, 3}| == 2;
  }

  lemma SidesAfter()
    ensures OnSide(OwnersAfter(), "x", true, "w") && OnSide(OwnersAfter(), "x", false, "y")
    ensures FirstSlot(OwnersAfter(), "x", 1) && LastSlot(OwnersAfter(), "x", 3)
  {
    var c := OwnersAfter();
    assert LastSlot(c, "x", 3) && FirstSlot(c, "w", 3 + 1);
    assert LastSlot(c, "y", 0) && FirstSlot(c, "x", 0 + 1);
  }
}
