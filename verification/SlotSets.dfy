/** What the slot lists stand for: the set of slots a node's tokens denote, and how the counts that
    `ExceptNode` and `MergeNode` compute relate to the size of that set. */
module SlotSets {
  import opened GoStrings
  import opened NodeLines
  import opened SlotPlans

  predicate Between(s: int, lo: int, hi: int) { lo <= s <= hi }

  function Interval(lo: int, hi: int): set<int> { set s | lo <= s <= hi && Between(s, lo, hi) }

  lemma {:induction false} IntervalSize(lo: int, hi: int)
    requires lo <= hi + 1
    ensures |Interval(lo, hi)| == hi - lo + 1
    decreases hi - lo + 1
  {
    if lo <= hi {
      IntervalSize(lo, hi - 1);
      var init := Interval(lo, hi - 1);
      assert hi !in init;
      assert forall s :: s in Interval(lo, hi) <==> s in init || s == hi;
      assert Interval(lo, hi) == init + {hi};
    } else {
      assert forall s :: s !in Interval(lo, hi);
      assert Interval(lo, hi) == {};
    }
  }

  function AllSlots(): set<int> { Interval(0, MAX_SLOT_COUNT - 1) }

  lemma SubsetSize<T>(a: set<T>, b: set<T>)
    requires a <= b
    ensures |a| <= |b| && (|a| == |b| <==> a == b)
  {
    assert b == a + (b - a);
  }

  function Lo(t: SlotToken): int { if t.Single? then t.slot else t.first }
  function Hi(t: SlotToken): int { if t.Single? then t.slot else t.last }
  function TokenSet(t: SlotToken): set<int> { Interval(Lo(t), Hi(t)) }

  function SlotSet(tokens: seq<SlotToken>): set<int> {
    if tokens == [] then {} else SlotSet(tokens[..|tokens| - 1]) + TokenSet(tokens[|tokens| - 1])
  }

  predicate TokensAscend(tokens: seq<SlotToken>) {
    && (forall k | 0 <= k < |tokens| :: Lo(tokens[k]) <= Hi(tokens[k]))
    && (forall j, k | 0 <= j < k < |tokens| :: Hi(tokens[j]) < Lo(tokens[k]))
  }

  lemma {:induction false} FlattenEnds(tokens: seq<SlotToken>)
    requires tokens != []
    ensures var slots := Flatten(tokens);
            slots != [] && slots[0] == Lo(tokens[0]) && slots[|slots| - 1] == Hi(tokens[|tokens| - 1])
  {
    if |tokens| > 1 {
      FlattenEnds(tokens[..|tokens| - 1]);
    }
  }

  lemma {:induction false} SlotSetInHull(tokens: seq<SlotToken>)
    requires tokens != [] && TokensAscend(tokens)
    ensures var first, last := Lo(tokens[0]), Hi(tokens[|tokens| - 1]);
            && first <= last && first in SlotSet(tokens) && last in SlotSet(tokens)
            && SlotSet(tokens) <= Interval(first, last)
  {
    if |tokens| > 1 {
      SlotSetInHull(tokens[..|tokens| - 1]);
    } else {
      assert SlotSet(tokens[..0]) == {};
    }
  }

  /** The count of `ExceptNode` is the size of the hull of the node's slots: at least the number of
      slots owned, and exactly that when there is no gap between them. */
  lemma HullBound(tokens: seq<SlotToken>)
    requires tokens != [] && TokensAscend(tokens)
    ensures var slots := Flatten(tokens);
            var first, last := slots[0], slots[|slots| - 1];
            && |SlotSet(tokens)| <= last - first + 1
            && (|SlotSet(tokens)| == last - first + 1 <==> forall s | first <= s <= last :: s in SlotSet(tokens))
  {
    FlattenEnds(tokens);
    SlotSetInHull(tokens);
    var first, last := Lo(tokens[0]), Hi(tokens[|tokens| - 1]);
    IntervalSize(first, last);
    SubsetSize(SlotSet(tokens), Interval(first, last));
  }

  // ---------------------------------------------------------------- the count of MergeNode

  predicate AllRanges(tokens: seq<SlotToken>) {
    forall k | 0 <= k < |tokens| :: tokens[k].Range? && tokens[k].first <= tokens[k].last
  }

  predicate PairwiseDisjoint(tokens: seq<SlotToken>) {
    forall j, k | 0 <= j < k < |tokens| :: TokenSet(tokens[j]) !! TokenSet(tokens[k])
  }

  function SingleCount(tokens: seq<SlotToken>): nat {
    if tokens == [] then 0
    else SingleCount(tokens[..|tokens| - 1]) + if tokens[|tokens| - 1].Single? then 1 else 0
  }

  lemma {:induction false} DisjointFromRest(tokens: seq<SlotToken>, t: SlotToken)
    requires forall k | 0 <= k < |tokens| :: TokenSet(tokens[k]) !! TokenSet(t)
    ensures SlotSet(tokens) !! TokenSet(t)
  {
    if tokens != [] {
      DisjointFromRest(tokens[..|tokens| - 1], t);
    }
  }

  /** Disjoint ranges: the list is even, so no index is out of range, and the sum is the number of
      slots, free of any 64-bit wrap. */
  lemma {:induction false} MergeCountIsCardinality(tokens: seq<SlotToken>)
    requires AllRanges(tokens) && PairwiseDisjoint(tokens) && SlotSet(tokens) <= AllSlots()
    ensures |Flatten(tokens)| == 2 * |tokens| && PairSum(Flatten(tokens)) == |SlotSet(tokens)|
  {
    if tokens != [] {
      var init, t := tokens[..|tokens| - 1], tokens[|tokens| - 1];
      MergeCountIsCardinality(init);
      DisjointFromRest(init, t);
      IntervalSize(t.first, t.last);
      IntervalSize(0, MAX_SLOT_COUNT - 1);
      SubsetSize(SlotSet(tokens), AllSlots());
      var slots := Flatten(tokens);
      assert slots[..|slots| - 2] == Flatten(init);
      assert |SlotSet(tokens)| == |SlotSet(init)| + |TokenSet(t)|;
    }
  }

  /** The list of a node is read pair by pair as the node's own tokens exactly when no token is a
      single slot, and reading it panics exactly when the number of single slots is odd. */
  lemma {:induction false} SinglesBreakPairs(tokens: seq<SlotToken>)
    ensures |Flatten(tokens)| == 2 * |tokens| - SingleCount(tokens)
    ensures SingleCount(tokens) == 0 <==> forall k | 0 <= k < |tokens| :: tokens[k].Range?
    ensures |Flatten(tokens)| % 2 == 1 <==> SingleCount(tokens) % 2 == 1
  {
    if tokens != [] {
      SinglesBreakPairs(tokens[..|tokens| - 1]);
    }
  }

  /** With an even number of single slots there is no panic, but the count can be wrong: two slots
      0 and 2 are counted as the three slots 0..2. */
  lemma MergeMiscountsSingles()
    ensures var tokens := [Single(0), Single(2)];
            && TokensAscend(tokens) && SingleCount(tokens) % 2 == 0
            && PairSum(Flatten(tokens)) == 3 && |SlotSet(tokens)| == 2
  {
    var tokens := [Single(0), Single(2)];
    assert tokens[..1] == [Single(0)] && tokens[..1][..0] == [];
    assert SlotSet(tokens) == {0, 2};
    assert Flatten(tokens) == [0, 2];
    assert [0, 2][..0] == [];
  }

  // ---------------------------------------------------------------- how far the count is off

  /** Between an odd and the next even single slot the pairs are out of step with the tokens: the gaps
      are counted and the insides of the ranges are not. */
  function Miscount(tokens: seq<SlotToken>): int {
    if tokens == [] then 0 else
    var n := |tokens| - 1;
    var t := tokens[n];
    Miscount(tokens[..n])
    + (if SingleCount(tokens[..n]) % 2 == 0 then 0
       else (Lo(t) - Hi(tokens[n - 1]) - 1) - (if t.Single? then 0 else Hi(t) - Lo(t) - 1))
  }

  /** The sum over the whole pairs of a list. */
  function WholePairs(slots: seq<int>): int {
    if |slots| % 2 == 0 then PairSum(slots) else PairSum(slots[..|slots| - 1])
  }

  lemma Int64Small(n: int)
    requires 0 <= n <= MAX_SLOT_COUNT * MAX_SLOT_COUNT + MAX_SLOT_COUNT
    ensures Int64(n) == n
  {
  }

  /** One number more, and two numbers more: an even list begins a pair, an odd one ends its last. */
  lemma WholePairsOfMore(slots: seq<int>, a: int, b: int)
    ensures |slots| % 2 == 0 ==>
              && WholePairs(slots + [a]) == WholePairs(slots)
              && WholePairs(slots + [a, b]) == Int64(WholePairs(slots) + Int64(b - a + 1))
    ensures |slots| % 2 == 1 ==>
              && WholePairs(slots + [a]) == Int64(WholePairs(slots) + Int64(a - slots[|slots| - 1] + 1))
              && WholePairs(slots + [a, b]) == WholePairs(slots + [a])
  {
    hide Int64;
    var one, two := slots + [a], slots + [a, b];
    if |slots| % 2 == 0 {
      assert one[..|slots|] == slots && two[..|slots|] == slots;
    } else {
      assert two[..|slots| + 1] == one;
      assert one[..|slots| - 1] == slots[..|slots| - 1];
    }
  }

  lemma AllButLast(tokens: seq<SlotToken>)
    requires tokens != [] && TokensAscend(tokens) && SlotSet(tokens) <= AllSlots()
    ensures var n := |tokens| - 1;
            && TokensAscend(tokens[..n]) && SlotSet(tokens[..n]) <= AllSlots() && Lo(tokens[n]) <= Hi(tokens[n])
            && (n > 0 ==> Hi(tokens[n - 1]) < Lo(tokens[n]))
  {
  }

  lemma {:induction false} AscendingBounds(tokens: seq<SlotToken>)
    requires TokensAscend(tokens) && SlotSet(tokens) <= AllSlots()
    ensures tokens != [] ==> |tokens| <= Hi(tokens[|tokens| - 1]) + 1 <= MAX_SLOT_COUNT && 0 <= Lo(tokens[|tokens| - 1])
  {
    if tokens != [] {
      var n := |tokens| - 1;
      AscendingBounds(tokens[..n]);
      SlotSetInHull(tokens);
      assert Hi(tokens[n]) in AllSlots();
      assert n > 0 ==> tokens[..n][n - 1] == tokens[n - 1];
    }
  }

  lemma TokenSetSize(tokens: seq<SlotToken>)
    requires tokens != [] && TokensAscend(tokens)
    ensures var n := |tokens| - 1;
            |SlotSet(tokens)| == |SlotSet(tokens[..n])| + Hi(tokens[n]) - Lo(tokens[n]) + 1
  {
    var n := |tokens| - 1;
    var init, t := tokens[..n], tokens[n];
    forall k | 0 <= k < n ensures TokenSet(init[k]) !! TokenSet(t) {
      assert Hi(tokens[k]) < Lo(t);
    }
    DisjointFromRest(init, t);
    IntervalSize(Lo(t), Hi(t));
    assert |SlotSet(init) + TokenSet(t)| == |SlotSet(init)| + |TokenSet(t)|;
  }

  lemma FlattenMore(tokens: seq<SlotToken>)
    requires tokens != []
    ensures var n := |tokens| - 1;
            Flatten(tokens) == Flatten(tokens[..n])
              + if tokens[n].Single? then [Lo(tokens[n])] else [Lo(tokens[n]), Hi(tokens[n])]
    ensures Flatten([]) == []
  {
  }

  /** One more token: how its numbers continue the pairs. */
  lemma WholePairsStep(tokens: seq<SlotToken>)
    requires tokens != []
    ensures var n := |tokens| - 1;
            var init, t, sum := tokens[..n], tokens[n], WholePairs(Flatten(tokens[..n]));
            WholePairs(Flatten(tokens)) ==
              if SingleCount(init) % 2 == 0 then
                if t.Single? then sum else Int64(sum + Int64(Hi(t) - Lo(t) + 1))
              else Int64(sum + Int64(Lo(t) - Hi(tokens[n - 1]) + 1))
  {
    hide WholePairs, Int64, Flatten, SingleCount;
    var n := |tokens| - 1;
    var init, t := tokens[..n], tokens[n];
    FlattenMore(tokens);
    SinglesBreakPairs(init);
    WholePairsOfMore(Flatten(init), Lo(t), Hi(t));
    if init != [] {
      FlattenEnds(init);
      assert init[n - 1] == tokens[n - 1];
    }
  }

  /** The pairs read so far sum to the slots of the tokens read so far plus the miscount, less the one
      slot that waits for its pair. */
  lemma {:induction false} WholePairsCount(tokens: seq<SlotToken>)
    requires TokensAscend(tokens) && SlotSet(tokens) <= AllSlots()
    ensures WholePairs(Flatten(tokens)) == |SlotSet(tokens)| + Miscount(tokens) - SingleCount(tokens) % 2
    ensures 0 <= WholePairs(Flatten(tokens)) <= |tokens| * MAX_SLOT_COUNT
  {
    hide PairSum, Flatten, WholePairs, Int64, TokensAscend, SlotSet;
    if tokens == [] {
      NoPairs();
    } else {
      var n := |tokens| - 1;
      var init, t := tokens[..n], tokens[n];
      AllButLast(tokens);
      WholePairsCount(init);
      TokenSetSize(tokens);
      WholePairsStep(tokens);
      AscendingBounds(tokens);
      if n > 0 {
        AscendingBounds(init);
      }
      var sum := WholePairs(Flatten(init));
      var more := if SingleCount(init) % 2 == 0 then Hi(t) - Lo(t) + 1 else Lo(t) - Hi(tokens[n - 1]) + 1;
      Int64Small(more);
      Int64Small(sum + more);
    }
  }

  lemma NoPairs()
    ensures WholePairs(Flatten([])) == 0 && SlotSet([]) == {}
  {
  }

  /** What `MergeNode` asks for when it does not panic: the slots of its source plus the miscount. */
  lemma MergeCountExact(tokens: seq<SlotToken>)
    requires TokensAscend(tokens) && SlotSet(tokens) <= AllSlots() && SingleCount(tokens) % 2 == 0
    ensures PairSum(Flatten(tokens)) == |SlotSet(tokens)| + Miscount(tokens) >= 0
    ensures PairSum(Flatten(tokens)) == |SlotSet(tokens)| <==> Miscount(tokens) == 0
  {
    WholePairsCount(tokens);
    SinglesBreakPairs(tokens);
  }

  lemma {:induction false} RangesAreNotMiscounted(tokens: seq<SlotToken>)
    requires SingleCount(tokens) == 0
    ensures Miscount(tokens) == 0
  {
    if tokens != [] {
      RangesAreNotMiscounted(tokens[..|tokens| - 1]);
    }
  }
}
