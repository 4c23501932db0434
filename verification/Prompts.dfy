/** The dialogue `Reshard` holds with the cluster tool: the reaction table it registers and the answers
    the reactor gives with it. */
module Prompts {
  import opened GoStrings
  import opened CommandScanner
  import opened Reactor
  import opened SlotPlans
  import opened NodeLines
  import opened SlotCluster
  import opened ExceptOnClusters
  import C = ClusterNodes

  const HOW_MANY := "How many slots do you want to move"
  const RECEIVER := "What is the receiving node ID"
  const SOURCES := "Please enter all the source node IDs"
  const SECOND_SOURCE := "Source node #2"
  const PROCEED := "Do you want to proceed with the proposed reshard plan"

  /** `strconv.FormatInt` in base 10. */
  function FormatInt(n: int): string {
    if n < 0 then ['-'] + Itoa(0 - n) else Itoa(n)
  }

  /** The table `Reshard` registers: a single source is closed with "done", "all" is not. */
  function ReshardReactions(target: string, slots: int, source: string): Reactions {
    var common := map[HOW_MANY := FormatInt(slots), RECEIVER := target, SOURCES := source, PROCEED := "yes"];
    if source == ALL then common else common[SECOND_SOURCE := "done"]
  }

  lemma AtoiOfMinus(m: nat)
    requires m <= MAX_INT64 + 1
    ensures Atoi("-" + Itoa(m)) == 0 - m
  {
    hide Itoa;
    assert ("-" + Itoa(m))[1..] == Itoa(m);
    assert Itoa(m) + "" == Itoa(m);
    ScanDigitsOfItoa(m, "");
  }

  /** It is decimal notation: a sign for negative numbers, digits without a zero in front, and any 64-bit
      integer is read back from it. */
  lemma FormatIntIsDecimal(n: int)
    requires -9223372036854775808 <= n <= 9223372036854775807
    ensures Atoi(FormatInt(n)) == n
    ensures 0 <= n ==> Decimal(FormatInt(n)) && (n > 0 ==> FormatInt(n)[0] != '0')
    ensures n < 0 ==> FormatInt(n) == "-" + FormatInt(0 - n)
  {
    hide Atoi, Itoa;
    var m := if n < 0 then 0 - n else n;
    ItoaIsDecimal(m);
    if n < 0 {
      AtoiOfMinus(m);
    } else {
      AtoiOfItoa(n);
    }
  }

  datatype Prompt = HowMany | Receiver | Sources | SecondSource | Proceed

  function PromptText(p: Prompt): string {
    match p
    case HowMany => "How many slots do you want to move"
    case Receiver => "What is the receiving node ID"
    case Sources => "Please enter all the source node IDs"
    case SecondSource => "Source node #2"
    case Proceed => "Do you want to proceed with the proposed reshard plan"
  }

  function PromptTexts(prompts: seq<Prompt>): seq<string> {
    seq(|prompts|, k requires 0 <= k < |prompts| => PromptText(prompts[k]))
  }

  /** What the tool is to be told: a number is one that `Atoi` reads, written without a zero or a sign in
      front unless it is negative. */
  ghost predicate IsReply(text: string, p: Prompt, target: string, slots: int, source: string) {
    match p
    case HowMany =>
      Atoi(text) == slots && (0 <= slots ==> Decimal(text) && (slots > 0 ==> text[0] != '0'))
    case Receiver => text == target
    case Sources => text == source
    case SecondSource => text == "done"
    case Proceed => text == "yes"
  }

  /** One line for each of the prompts, in their order. */
  ghost predicate Replies(output: seq<string>, prompts: seq<Prompt>, target: string, slots: int, source: string) {
    && |output| == |prompts|
    && forall k | 0 <= k < |prompts| ::
         var line := output[k];
         line != "" && line[|line| - 1] == '\n' && IsReply(line[..|line| - 1], prompts[k], target, slots, source)
  }

  method Register(reactor: Reactor, target: string, slots: int, source: string)
    requires reactor.reaction == map[]
    modifies reactor
    ensures reactor.reaction == ReshardReactions(target, slots, source)
    ensures var common := map["How many slots do you want to move" := FormatInt(slots),
                              "What is the receiving node ID" := target,
                              "Please enter all the source node IDs" := source,
                              "Do you want to proceed with the proposed reshard plan" := "yes"];
            reactor.reaction == if source == "all" then common else common["Source node #2" := "done"]
    ensures reactor.writer == old(reactor.writer)
  {
    PromptLengths();
    reactor.AddReaction(HOW_MANY, FormatInt(slots));
    reactor.AddReaction(RECEIVER, target);
    reactor.AddReaction(SOURCES, source);
    if source != ALL {
      reactor.AddReaction(SECOND_SOURCE, "done");
    }
    reactor.AddReaction(PROCEED, "yes");
  }

  /** No two keys have the same length. */
  lemma PromptLengths()
    ensures |HOW_MANY| == 34 && |RECEIVER| == 29 && |SOURCES| == 36 && |SECOND_SOURCE| == 14 && |PROCEED| == 53
  {
  }

  lemma FirstKeysAreGood()
    ensures GoodKey(HOW_MANY) && GoodKey(RECEIVER) && GoodKey(SECOND_SOURCE)
  {
  }

  lemma SourcesIsGood()
    ensures GoodKey(SOURCES)
  {
  }

  lemma GoodConcat(front: string, back: string)
    requires DelimiterFree(front) && DelimiterFree(back) && front != "" && back != ""
    requires !IsSpace(front[0]) && !IsSpace(back[|back| - 1])
    ensures GoodKey(front + back)
  {
  }

  lemma ProceedHalves()
    ensures DelimiterFree("Do you want to proceed with") && DelimiterFree(" the proposed reshard plan")
  {
  }

  lemma ProceedIsGood()
    ensures GoodKey(PROCEED)
  {
    hide DelimiterFree;
    ProceedHalves();
    GoodConcat("Do you want to proceed with", " the proposed reshard plan");
    assert PROCEED == "Do you want to proceed with" + " the proposed reshard plan";
  }

  /** Every key `Reshard` registers survives tokenizing and trimming. */
  lemma KeysAreGood(target: string, slots: int, source: string)
    ensures forall key | key in ReshardReactions(target, slots, source) :: GoodKey(key)
  {
    hide GoodKey;
    FirstKeysAreGood();
    SourcesIsGood();
    ProceedIsGood();
  }

  // ---------------------------------------------------------------- a dialogue that goes as expected

  /** The one key a token matches. */
  ghost predicate AsksFor(reactions: Reactions, token: string, key: string) {
    forall k | k in reactions :: MatchesKey(reactions, token, k) <==> k == key
  }

  /** The matching tokens ask for exactly these keys, in this order. */
  ghost predicate Asks(reactions: Reactions, tokens: seq<string>, keys: seq<string>)
    decreases |tokens|
  {
    if tokens == [] then keys == [] else
    var init, token := tokens[..|tokens| - 1], tokens[|tokens| - 1];
    if Matches(reactions, token) then
      keys != [] && AsksFor(reactions, token, keys[|keys| - 1]) && Asks(reactions, init, keys[..|keys| - 1])
    else Asks(reactions, init, keys)
  }

  lemma {:induction false} AnswersToKeys(
      reactions: Reactions, tokens: seq<string>, keys: seq<string>, output: seq<string>)
    requires Asks(reactions, tokens, keys) && Answers(reactions, tokens, output)
    ensures |output| == |keys|
    ensures forall k | 0 <= k < |keys| :: keys[k] in reactions && output[k] == Line(reactions, keys[k])
  {
    hide MatchesKey;
    if tokens != [] {
      var init, token := tokens[..|tokens| - 1], tokens[|tokens| - 1];
      if Matches(reactions, token) {
        assert keys[|keys| - 1] in reactions;
        AnswersToKeys(reactions, init, keys[..|keys| - 1], output[..|output| - 1]);
      } else {
        AnswersToKeys(reactions, init, keys, output);
      }
    }
  }

  lemma TableHasReplies(p: Prompt, target: string, slots: int, source: string)
    requires -9223372036854775808 <= slots <= 9223372036854775807
    requires PromptText(p) in ReshardReactions(target, slots, source)
    ensures IsReply(ReshardReactions(target, slots, source)[PromptText(p)], p, target, slots, source)
  {
    hide Atoi, FormatInt, Decimal;
    PromptLengths();
    FormatIntIsDecimal(slots);
  }

  /** Whichever prompts the tool asks, in whatever order and however often, each in a line of its own,
      `Reshard` answers each of them: the number of slots, the target, the source (closed with "done"
      unless it is "all") and "yes". */
  lemma ReshardDialogue(target: string, slots: int, source: string, prompts: seq<Prompt>, run: Run, i: nat)
    requires -9223372036854775808 <= slots <= 9223372036854775807
    requires var reactions := ReshardReactions(target, slots, source);
             && IsRun(reactions, run)
             && i < |run.actions| && run.actions[i] == SeeClosed
             && Asks(reactions, StreamTokens(run), PromptTexts(prompts))
    ensures Replies(run.states[i].output, prompts, target, slots, source)
  {
    hide Answers, Asks, StreamTokens, IsRun, FormatInt, IsReply, ReshardReactions, PromptText;
    var reactions, keys := ReshardReactions(target, slots, source), PromptTexts(prompts);
    ClosedMeansAllAnswered(reactions, run, i);
    RunLength(reactions, run);
    var output := run.states[i].output;
    AnswersToKeys(reactions, StreamTokens(run), keys, output);
    forall k | 0 <= k < |prompts|
      ensures var line := output[k];
              line != "" && line[|line| - 1] == '\n' && IsReply(line[..|line| - 1], prompts[k], target, slots, source)
    {
      assert keys[k] in reactions && output[k] == Line(reactions, keys[k]);
      assert output[k][..|output[k]| - 1] == reactions[keys[k]];
      TableHasReplies(prompts[k], target, slots, source);
    }
  }

  /** From the topology to the dialogue: excepting an interior node of a cluster of intervals tells the
      tool, for whichever prompts it asks, the number of its slots, one neighbour, the node itself,
      "done" and "yes". */
  lemma ExceptNodeDialogue(items: seq<Item>, c: Owners, x: string, pick: bool, prompts: seq<Prompt>, run: Run, i: nat)
    requires SlotCluster.Partition(c) && NodeLines.PrintableReply(items) && Shows(Records(items), c) && AllContiguous(c)
    requires x != ALL && Interior(c, x)
    requires var plan := ExceptPlan(C.ParseReply(Lines(Texts(items))), x, pick);
             plan.Reshard? ==>
               && IsRun(ReshardReactions(plan.target, plan.slots, plan.source), run)
               && i < |run.actions| && run.actions[i] == SeeClosed
               && Asks(ReshardReactions(plan.target, plan.slots, plan.source), StreamTokens(run), PromptTexts(prompts))
    ensures |run.states| > i && x in c
    ensures exists t :: Neighbour(c, x, pick, t) && Replies(run.states[i].output, prompts, t, |c[x]|, x)
  {
    hide *;
    InteriorOwns(c, x);
    OwnedCount(c, x);
    ExceptNodeOnCluster(items, c, x, pick);
    var plan := ExceptPlan(C.ParseReply(Lines(Texts(items))), x, pick);
    RunLength(ReshardReactions(plan.target, plan.slots, plan.source), run);
    ReshardDialogue(plan.target, plan.slots, plan.source, prompts, run, i);
    assert Neighbour(c, x, pick, plan.target);
  }
}
