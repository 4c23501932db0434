/** The prompt reactor: a producer goroutine that scans the child's output into a bounded channel, and
    a consumer loop that selects between the channel and a ticker, as a transition system over all
    interleavings and all ways the output can be cut into reads. */
module Reactor {
  import opened GoStrings
  import opened CommandScanner

  const CHANNEL_CAPACITY := 10

  /** The registered prompts and their answers. */
  type Reactions = map<string, string>

  /** `source`, `hand`, `closed`: the producer's scanner, the token it is about to send, and whether it
      has closed the channel. The rest belongs to the consumer; `rounds` counts the iterations of its
      loop and `cancels` the calls of `cancel`. */
  datatype State = State(
    source: Source,
    hand: Option<string>,
    closed: bool,
    channel: seq<string>,
    count: nat,
    running: bool,
    consumed: seq<string>,
    output: seq<string>,
    rounds: nat,
    cancels: nat)

  function Initial(chunks: seq<string>, eofWithLast: bool): State {
    State(Fresh(chunks, eofWithLast), None, false, [], 0, true, [], [], 0, 0)
  }

  datatype Action =
    | ReadChunk
    | TakeToken
    | Send
    | Close
    | Tick
    | Receive(key: Option<string>)
    | SeeClosed

  // ---------------------------------------------------------------- answers

  /** Some registered key occurs in the trimmed token. */
  predicate MatchesKey(reactions: Reactions, token: string, key: string) {
    key in reactions && Contains(TrimSpace(token), key)
  }

  predicate Matches(reactions: Reactions, token: string) {
    exists key | key in reactions :: MatchesKey(reactions, token, key)
  }

  function Line(reactions: Reactions, key: string): string
    requires key in reactions
  {
    reactions[key] + ['\n']
  }

  predicate IsAnswer(reactions: Reactions, token: string, line: string) {
    exists key | key in reactions :: MatchesKey(reactions, token, key) && line == Line(reactions, key)
  }

  /** `output` is, in order, one answer to each of the matching tokens. */
  predicate Answers(reactions: Reactions, tokens: seq<string>, output: seq<string>)
    decreases |tokens|
  {
    if tokens == [] then output == [] else
    var init, token := tokens[..|tokens| - 1], tokens[|tokens| - 1];
    if Matches(reactions, token) then
      && output != []
      && IsAnswer(reactions, token, output[|output| - 1])
      && Answers(reactions, init, output[..|output| - 1])
    else Answers(reactions, init, output)
  }

  // ---------------------------------------------------------------- steps

  predicate Enabled(s: State, a: Action, reactions: Reactions) {
    match a
    case ReadChunk => !s.closed && s.hand.None? && !s.source.done && Offer(s.source).None? && !s.source.atEOF
    case TakeToken => !s.closed && s.hand.None? && Offer(s.source).Some?
    case Send => s.hand.Some? && |s.channel| < CHANNEL_CAPACITY
    case Close => !s.closed && s.hand.None? && Offer(s.source).None? && (s.source.done || s.source.atEOF)
    case Tick => s.running
    case Receive(key) =>
      && s.running && s.channel != []
      && (if key.Some? then MatchesKey(reactions, s.channel[0], key.value) else !Matches(reactions, s.channel[0]))
    case SeeClosed => s.running && s.closed && s.channel == []
  }

  /** A tick after a second without a token, and the closed channel, both cancel and leave the loop. */
  function Leave(s: State): State {
    s.(running := false, cancels := s.cancels + 1, rounds := s.rounds + 1)
  }

  function Step(s: State, a: Action, reactions: Reactions): State
    requires Enabled(s, a, reactions)
  {
    match a
    case ReadChunk => s.(source := AfterRead(s.source))
    case TakeToken => s.(source := AfterToken(s.source), hand := Offer(s.source))
    case Send => s.(channel := s.channel + [s.hand.value], hand := None)
    case Close => s.(closed := true)
    case Tick => if s.count == 0 then Leave(s) else s.(count := 0, rounds := s.rounds + 1)
    case Receive(key) =>
      s.(channel := s.channel[1..],
         consumed := s.consumed + [s.channel[0]],
         count := s.count + 1,
         output := if key.Some? then s.output + [Line(reactions, key.value)] else s.output,
         rounds := s.rounds + 1)
    case SeeClosed => Leave(s)
  }

  /** A run over the reads `chunks`: the states passed through and the actions between them. */
  datatype Run = Run(chunks: seq<string>, eofWithLast: bool, states: seq<State>, actions: seq<Action>)

  /** Any enabled action at every step. */
  ghost predicate IsRun(reactions: Reactions, run: Run) {
    && |run.states| == |run.actions| + 1
    && run.states[0] == Initial(run.chunks, run.eofWithLast)
    && forall i | 0 <= i < |run.actions| ::
         Enabled(run.states[i], run.actions[i], reactions)
         && run.states[i + 1] == Step(run.states[i], run.actions[i], reactions)
  }

  /** The tokens of the whole stream. */
  function StreamTokens(run: Run): seq<string> { Tokens(Concat(run.chunks)) }

  // ---------------------------------------------------------------- the invariant

  function InHand(s: State): seq<string> {
    match s.hand case None => [] case Some(token) => [token]
  }

  /** No token is lost, duplicated or reordered between the stream and the consumer. */
  ghost predicate Conserved(s: State, tokens: seq<string>) {
    s.consumed + s.channel + InHand(s) + Pending(s.source) == tokens
  }

  /** Every surviving tick is paid for by a token consumed since the previous one. */
  ghost predicate RoundsPaid(s: State) {
    s.rounds + (if s.count > 0 then 1 else 0) <= 2 * |s.consumed| + (if s.running then 0 else 1)
  }

  ghost predicate Inv(s: State, reactions: Reactions, tokens: seq<string>) {
    && Consistent(s.source)
    && Conserved(s, tokens)
    && (s.closed ==> s.hand.None? && Pending(s.source) == [])
    && |s.channel| <= CHANNEL_CAPACITY
    && Answers(reactions, s.consumed, s.output)
    && s.cancels == (if s.running then 0 else 1)
    && RoundsPaid(s)
  }

  lemma InitialInv(reactions: Reactions, chunks: seq<string>, eofWithLast: bool)
    ensures Inv(Initial(chunks, eofWithLast), reactions, Tokens(Concat(chunks)))
  {
    assert "" + Concat(chunks) == Concat(chunks);
  }

  lemma AnswerReceived(
      reactions: Reactions, tokens: seq<string>, output: seq<string>, token: string, key: Option<string>)
    requires Answers(reactions, tokens, output)
    requires if key.Some? then MatchesKey(reactions, token, key.value) else !Matches(reactions, token)
    ensures Answers(reactions, tokens + [token], if key.Some? then output + [Line(reactions, key.value)] else output)
  {
  }

  /** One step of the producer. */
  lemma ProducerKeepsInv(s: State, a: Action, reactions: Reactions, tokens: seq<string>)
    requires Inv(s, reactions, tokens) && Enabled(s, a, reactions)
    requires a.ReadChunk? || a.TakeToken? || a.Send? || a.Close?
    ensures Inv(Step(s, a, reactions), reactions, tokens)
  {
    hide Answers, Pending, AfterRead, AfterToken, Offer;
    match a
    case ReadChunk => ReadKeepsPending(s.source);
    case TakeToken =>
      TokenTaken(s.source);
      assert s.consumed + s.channel + [] + ([Offer(s.source).value] + Pending(AfterToken(s.source)))
          == s.consumed + s.channel + [Offer(s.source).value] + Pending(AfterToken(s.source));
    case Send =>
      assert s.consumed + s.channel + [s.hand.value] + Pending(s.source)
          == s.consumed + (s.channel + [s.hand.value]) + [] + Pending(s.source);
    case Close => NothingPending(s.source);
  }

  /** One step of the consumer. */
  lemma ConsumerKeepsInv(s: State, a: Action, reactions: Reactions, tokens: seq<string>)
    requires Inv(s, reactions, tokens) && Enabled(s, a, reactions)
    requires a.Tick? || a.Receive? || a.SeeClosed?
    ensures Inv(Step(s, a, reactions), reactions, tokens)
  {
    hide Answers, Pending, MatchesKey, Matches;
    if a.Receive? {
      AnswerReceived(reactions, s.consumed, s.output, s.channel[0], a.key);
      assert s.consumed + [s.channel[0]] + s.channel[1..] == s.consumed + s.channel;
    }
  }

  lemma {:induction false} RunKeepsInv(reactions: Reactions, run: Run, i: nat)
    requires IsRun(reactions, run) && i < |run.states|
    ensures Inv(run.states[i], reactions, StreamTokens(run))
  {
    hide Inv, Tokens, Concat, Enabled, Step;
    if i == 0 {
      InitialInv(reactions, run.chunks, run.eofWithLast);
    } else {
      RunKeepsInv(reactions, run, i - 1);
      StepKeepsInv(run.states[i - 1], run.actions[i - 1], reactions, StreamTokens(run));
    }
  }

  lemma StepKeepsInv(s: State, a: Action, reactions: Reactions, tokens: seq<string>)
    requires Inv(s, reactions, tokens) && Enabled(s, a, reactions)
    ensures Inv(Step(s, a, reactions), reactions, tokens)
  {
    hide Inv, Enabled, Step;
    if a.ReadChunk? || a.TakeToken? || a.Send? || a.Close? {
      ProducerKeepsInv(s, a, reactions, tokens);
    } else {
      ConsumerKeepsInv(s, a, reactions, tokens);
    }
  }

  // ---------------------------------------------------------------- safety

  /** In every reachable state: what has been consumed followed by what is in the channel is a prefix of
      the stream's tokens, the channel is bounded, the output answers exactly the consumed tokens that
      match, `cancel` has been called once if the loop has been left and never before, and the loop has
      gone round at most 2N+1 times. */
  lemma ReactorSafety(reactions: Reactions, run: Run, i: nat)
    requires IsRun(reactions, run) && i < |run.states|
    ensures var s, tokens := run.states[i], StreamTokens(run);
            && s.consumed + s.channel <= tokens
            && |s.channel| <= 10
            && Answers(reactions, s.consumed, s.output)
            && s.cancels == (if s.running then 0 else 1)
            && s.rounds <= 2 * |tokens| + 1
  {
    hide StreamTokens, Answers, Pending, Enabled, Step;
    RunKeepsInv(reactions, run, i);
  }

  /** Once `cancel` has been called nothing more is consumed or written, and it is not called again. */
  lemma {:induction false} NothingAfterCancel(reactions: Reactions, run: Run, i: nat, j: nat)
    requires IsRun(reactions, run) && i <= j < |run.states| && run.states[i].cancels > 0
    ensures var s, later := run.states[i], run.states[j];
            && !later.running && later.output == s.output && later.consumed == s.consumed
            && later.cancels == s.cancels == 1
    decreases j - i
  {
    hide StreamTokens, Answers, Pending;
    RunKeepsInv(reactions, run, i);
    if i < j {
      NothingAfterCancel(reactions, run, i, j - 1);
      assert Enabled(run.states[j - 1], run.actions[j - 1], reactions);
    }
  }

  /** The tokens received since the last tick before step i. */
  function ReceivedSince(actions: seq<Action>, i: nat): nat
    requires i <= |actions|
  {
    if i == 0 || actions[i - 1].Tick? then 0
    else ReceivedSince(actions, i - 1) + if actions[i - 1].Receive? then 1 else 0
  }

  lemma {:induction false} CountIsReceived(reactions: Reactions, run: Run, i: nat)
    requires IsRun(reactions, run) && i <= |run.actions|
    ensures run.states[i].count == ReceivedSince(run.actions, i)
  {
    hide MatchesKey, Matches, Offer, AfterRead, AfterToken;
    if i > 0 {
      CountIsReceived(reactions, run, i - 1);
      assert Enabled(run.states[i - 1], run.actions[i - 1], reactions);
    }
  }

  /** A tick ends the loop exactly when no token has been received since the tick before. */
  lemma TickEndsIdleLoop(reactions: Reactions, run: Run, i: nat)
    requires IsRun(reactions, run) && i < |run.actions| && run.actions[i] == Tick
    ensures run.states[i].running && (run.states[i + 1].running <==> ReceivedSince(run.actions, i) > 0)
  {
    CountIsReceived(reactions, run, i);
    assert Enabled(run.states[i], run.actions[i], reactions);
  }

  // ---------------------------------------------------------------- termination

  /** Steps still possible: reads, four for each token to be scanned, three for one in hand, two for one
      in the channel, and one each for closing, for the next tick and for leaving. */
  function Work(s: State): nat {
    |s.source.chunks| + (if s.source.atEOF then 0 else 1)
    + 4 * |Pending(s.source)| + 3 * |InHand(s)| + 2 * |s.channel|
    + (if s.closed then 0 else 1) + (if s.count > 0 then 1 else 0) + (if s.running then 1 else 0)
  }

  lemma StepWorks(s: State, a: Action, reactions: Reactions, tokens: seq<string>)
    requires Inv(s, reactions, tokens) && Enabled(s, a, reactions)
    ensures Work(Step(s, a, reactions)) < Work(s)
  {
    hide Answers, Matches, MatchesKey, Pending, SplitOf;
    if a.ReadChunk? {
      ReadKeepsPending(s.source);
    } else if a.TakeToken? {
      TokenTaken(s.source);
    }
  }

  lemma {:induction false} RunWorks(reactions: Reactions, run: Run, i: nat)
    requires IsRun(reactions, run) && i < |run.states|
    ensures Work(run.states[i]) + i <= Work(run.states[0])
  {
    hide StreamTokens, Inv, Enabled, Step, Work;
    if 0 < i {
      RunWorks(reactions, run, i - 1);
      RunKeepsInv(reactions, run, i - 1);
      StepWorks(run.states[i - 1], run.actions[i - 1], reactions, StreamTokens(run));
    }
  }

  /** No run is longer than |reads| + 4N + 3 steps, and one that can go no further has left the loop,
      having called `cancel` exactly once. */
  lemma RunsTerminate(reactions: Reactions, run: Run)
    requires IsRun(reactions, run)
    ensures |run.actions| <= |run.chunks| + 4 * |StreamTokens(run)| + 3
    ensures var last := run.states[|run.actions|];
            Stopped(last, reactions) ==> !last.running && last.cancels == 1
  {
    RunWorks(reactions, run, |run.actions|);
    assert "" + Concat(run.chunks) == Concat(run.chunks);
    var last := run.states[|run.actions|];
    RunKeepsInv(reactions, run, |run.actions|);
    if last.running {
      assert Enabled(last, Tick, reactions);
    }
  }

  /** Nothing can happen any more. */
  ghost predicate Stopped(s: State, reactions: Reactions) {
    forall a :: !Enabled(s, a, reactions)
  }

  /** A producer that can go no further has closed the channel, or holds a token for which the full
      channel has no room. */
  lemma ProducerStops(s: State, reactions: Reactions)
    requires Stopped(s, reactions)
    ensures s.closed || (s.hand.Some? && |s.channel| >= CHANNEL_CAPACITY)
  {
    assert !Enabled(s, ReadChunk, reactions);
    assert !Enabled(s, TakeToken, reactions);
    assert !Enabled(s, Send, reactions);
    assert !Enabled(s, Close, reactions);
  }

  /** When all has come to rest the producer has ended exactly when the channel can take all that the
      consumer left behind; otherwise it stays blocked on a token it cannot send. */
  lemma BlockedProducer(reactions: Reactions, run: Run)
    requires IsRun(reactions, run) && Stopped(run.states[|run.actions|], reactions)
    ensures var last := run.states[|run.actions|];
            && (last.closed <==> |StreamTokens(run)| <= |last.consumed| + 10)
            && (!last.closed ==> last.hand.Some? && |last.channel| == 10)
  {
    hide StreamTokens, Answers, Pending, Stopped, Enabled, Step;
    RunKeepsInv(reactions, run, |run.actions|);
    ProducerStops(run.states[|run.actions|], reactions);
  }

  // ---------------------------------------------------------------- progress

  predicate IsProducers(a: Action) { a.ReadChunk? || a.TakeToken? || a.Send? || a.Close? }

  ghost predicate CanReceive(s: State, reactions: Reactions) {
    exists key :: Enabled(s, Receive(key), reactions)
  }

  ghost predicate CanProduce(s: State, reactions: Reactions) {
    exists a :: IsProducers(a) && Enabled(s, a, reactions)
  }

  /** As long as the loop runs, a token that waits in the channel can be received, the closed channel is
      seen when it is empty, a tick can come at any time, and until it has closed the channel the
      producer can go on unless ten tokens wait. So something other than a tick can always happen. */
  lemma AlwaysGoesOn(s: State, reactions: Reactions)
    requires s.running
    ensures s.channel != [] ==> CanReceive(s, reactions)
    ensures s.closed && s.channel == [] ==> Enabled(s, SeeClosed, reactions)
    ensures Enabled(s, Tick, reactions)
    ensures !s.closed && |s.channel| < 10 ==> CanProduce(s, reactions)
    ensures exists a :: a != Tick && Enabled(s, a, reactions)
  {
    hide Offer, MatchesKey;
    if s.channel != [] {
      var token := s.channel[0];
      if Matches(reactions, token) {
        var key :| key in reactions && MatchesKey(reactions, token, key);
        assert Enabled(s, Receive(Some(key)), reactions);
      } else {
        assert Enabled(s, Receive(None), reactions);
      }
    } else if s.closed {
      assert Enabled(s, SeeClosed, reactions);
    }
    if !s.closed && |s.channel| < 10 {
      var a := if s.hand.Some? then Send
               else if Offer(s.source).Some? then TakeToken
               else if s.source.done || s.source.atEOF then Close
               else ReadChunk;
      assert IsProducers(a) && Enabled(s, a, reactions);
    }
  }

  /** A run without ticks that has left the loop has left it by seeing the channel closed, and has
      answered the whole stream. */
  lemma {:induction false} LeftWithoutTicks(reactions: Reactions, run: Run, n: nat) returns (i: nat)
    requires IsRun(reactions, run) && n < |run.states| && !run.states[n].running
    requires forall j | 0 <= j < n :: run.actions[j] != Tick
    ensures i < n && run.actions[i] == SeeClosed
    ensures run.states[n].consumed == StreamTokens(run) && Answers(reactions, StreamTokens(run), run.states[n].output)
  {
    hide StreamTokens, Answers, Offer, MatchesKey, Matches;
    if n == 0 {
      assert false;
    }
    assert Enabled(run.states[n - 1], run.actions[n - 1], reactions);
    if run.states[n - 1].running {
      i := n - 1;
      ClosedMeansAllAnswered(reactions, run, i);
    } else {
      i := LeftWithoutTicks(reactions, run, n - 1);
      ClosedMeansAllAnswered(reactions, run, i);
    }
  }

  /** With a ticker that stays silent, nothing but the end of the stream stops the reactor: a run that
      only a tick could take further has answered every token. */
  lemma SilentTicker(reactions: Reactions, run: Run)
    requires IsRun(reactions, run) && Tick !in run.actions
    requires forall a | a != Tick :: !Enabled(run.states[|run.actions|], a, reactions)
    ensures var last := run.states[|run.actions|];
            && SeeClosed in run.actions
            && last.consumed == StreamTokens(run) && Answers(reactions, StreamTokens(run), last.output)
  {
    hide Enabled, Step, StreamTokens, Answers;
    var last := run.states[|run.actions|];
    if last.running {
      AlwaysGoesOn(last, reactions);
    }
    var i := LeftWithoutTicks(reactions, run, |run.actions|);
  }

  // ---------------------------------------------------------------- completeness

  /** When the loop is left because the channel was closed, every token of the stream has been consumed
      and the output answers all of them. */
  lemma ClosedMeansAllAnswered(reactions: Reactions, run: Run, i: nat)
    requires IsRun(reactions, run) && i < |run.actions| && run.actions[i] == SeeClosed
    ensures run.states[i].consumed == StreamTokens(run)
    ensures forall j | i <= j < |run.states| :: Answers(reactions, StreamTokens(run), run.states[j].output)
  {
    hide StreamTokens, Answers, Pending;
    RunKeepsInv(reactions, run, i);
    assert Enabled(run.states[i], run.actions[i], reactions);
    assert run.states[i].consumed + [] + [] + [] == run.states[i].consumed;
    RunKeepsInv(reactions, run, i + 1);
    forall j | i <= j < |run.states| ensures Answers(reactions, StreamTokens(run), run.states[j].output) {
      if i < j {
        NothingAfterCancel(reactions, run, i + 1, j);
      }
    }
  }

  function MatchCount(reactions: Reactions, tokens: seq<string>): nat {
    if tokens == [] then 0 else
    MatchCount(reactions, tokens[..|tokens| - 1]) + if Matches(reactions, tokens[|tokens| - 1]) then 1 else 0
  }

  /** The answer to a matching token is the output line at the token's rank among the matching ones. */
  lemma {:induction false} AnswerAt(reactions: Reactions, tokens: seq<string>, output: seq<string>, k: nat)
    requires Answers(reactions, tokens, output) && k < |tokens| && Matches(reactions, tokens[k])
    ensures var rank := MatchCount(reactions, tokens[..k]);
            rank < |output| == MatchCount(reactions, tokens) && IsAnswer(reactions, tokens[k], output[rank])
  {
    hide Matches, IsAnswer;
    AnswerCount(reactions, tokens, output);
    var n := |tokens| - 1;
    var init := tokens[..n];
    if k == n {
      AnswerCount(reactions, init, output[..|output| - 1]);
    } else {
      assert init[..k] == tokens[..k];
      if Matches(reactions, tokens[n]) {
        AnswerAt(reactions, init, output[..|output| - 1], k);
      } else {
        AnswerAt(reactions, init, output, k);
      }
    }
  }

  lemma {:induction false} AnswerCount(reactions: Reactions, tokens: seq<string>, output: seq<string>)
    requires Answers(reactions, tokens, output)
    ensures |output| == MatchCount(reactions, tokens)
  {
    hide Matches, IsAnswer;
    if tokens != [] {
      var init := tokens[..|tokens| - 1];
      if Matches(reactions, tokens[|tokens| - 1]) {
        AnswerCount(reactions, init, output[..|output| - 1]);
      } else {
        AnswerCount(reactions, init, output);
      }
    }
  }

  /** From the byte stream to the answers: when the loop is left because the channel was closed, every
      occurrence of a registered key, wherever the reads cut it, lies in one token, and that token has
      been answered. */
  lemma EveryPromptAnswered(reactions: Reactions, run: Run, i: nat, key: string, p: nat)
      returns (k: nat, rank: nat)
    requires IsRun(reactions, run) && i < |run.actions| && run.actions[i] == SeeClosed
    requires key in reactions && GoodKey(key) && OccursAt(Concat(run.chunks), key, p)
    ensures k < |StreamTokens(run)| && Inside(Concat(run.chunks), p, |key|, k)
    ensures rank < |run.states[i].output| && IsAnswer(reactions, StreamTokens(run)[k], run.states[i].output[rank])
    ensures exists other | other in reactions ::
              Contains(TrimSpace(StreamTokens(run)[k]), other) && run.states[i].output[rank] == reactions[other] + "\n"
  {
    hide Answers, Enabled, Step, TrimSpace, Inside, OccursAt, Concat, IsAnswer;
    var stream := Concat(run.chunks);
    k := NoKeyLost(stream, key, p);
    ClosedMeansAllAnswered(reactions, run, i);
    assert MatchesKey(reactions, Tokens(stream)[k], key);
    rank := MatchCount(reactions, Tokens(stream)[..k]);
    AnswerAt(reactions, Tokens(stream), run.states[i].output, k);
    WrittenAnswer(reactions, Tokens(stream)[k], run.states[i].output[rank]);
  }

  lemma WrittenAnswer(reactions: Reactions, token: string, line: string)
    requires IsAnswer(reactions, token, line)
    ensures exists key | key in reactions :: Contains(TrimSpace(token), key) && line == reactions[key] + "\n"
  {
    var key :| key in reactions && MatchesKey(reactions, token, key) && line == Line(reactions, key);
    assert Contains(TrimSpace(token), key);
  }

  /** A token on which all matching keys agree. */
  predicate Unambiguous(reactions: Reactions, token: string) {
    forall j, k | j in reactions && k in reactions ::
      MatchesKey(reactions, token, j) && MatchesKey(reactions, token, k) ==> reactions[j] == reactions[k]
  }

  /** Map iteration order shows only where a token matches keys with different answers: otherwise the
      output is determined by the tokens. */
  lemma {:induction false} AnswersDetermined(reactions: Reactions, tokens: seq<string>, a: seq<string>, b: seq<string>)
    requires Answers(reactions, tokens, a) && Answers(reactions, tokens, b)
    requires forall k | 0 <= k < |tokens| :: Unambiguous(reactions, tokens[k])
    ensures a == b
  {
    hide MatchesKey;
    if tokens != [] {
      var init, token := tokens[..|tokens| - 1], tokens[|tokens| - 1];
      assert Unambiguous(reactions, token);
      if Matches(reactions, token) {
        AnswersDetermined(reactions, init, a[..|a| - 1], b[..|b| - 1]);
        assert a == a[..|a| - 1] + [a[|a| - 1]] && b == b[..|b| - 1] + [b[|b| - 1]];
      } else {
        AnswersDetermined(reactions, init, a, b);
      }
    }
  }

  // ---------------------------------------------------------------- the reactor

  /** Ticks come only when the ticker fires. */
  ghost predicate TicksAllowed(run: Run, ticker: nat -> bool) {
    forall n | 0 <= n < |run.actions| && run.actions[n] == Tick :: ticker(n)
  }

  /** A run goes on with any enabled action. */
  lemma RunGrows(reactions: Reactions, run: Run, a: Action, ticker: nat -> bool)
    requires IsRun(reactions, run) && Enabled(run.states[|run.actions|], a, reactions)
    requires TicksAllowed(run, ticker) && (a == Tick ==> ticker(|run.actions|))
    ensures var s := run.states[|run.actions|];
            var more := run.(states := run.states + [Step(s, a, reactions)], actions := run.actions + [a]);
            IsRun(reactions, more) && TicksAllowed(more, ticker)
  {
    hide Enabled, Step;
  }

  lemma FirstRun(reactions: Reactions, chunks: seq<string>, eofWithLast: bool)
    ensures IsRun(reactions, Run(chunks, eofWithLast, [Initial(chunks, eofWithLast)], []))
  {
  }

  lemma AnsweredWithoutTicks(reactions: Reactions, run: Run, ticker: nat -> bool)
    requires IsRun(reactions, run) && TicksAllowed(run, ticker) && !run.states[|run.actions|].running
    ensures (forall n :: !ticker(n)) ==> Answers(reactions, StreamTokens(run), run.states[|run.actions|].output)
  {
    hide IsRun, Answers, StreamTokens;
    RunLength(reactions, run);
    if forall n :: !ticker(n) {
      var i := LeftWithoutTicks(reactions, run, |run.actions|);
    }
  }

  lemma RunLength(reactions: Reactions, run: Run)
    requires IsRun(reactions, run)
    ensures |run.states| == |run.actions| + 1
  {
  }

  class Reactor {
    var reaction: Reactions
    var writer: seq<string>

    constructor ()
      ensures reaction == map[] && writer == []
    {
      reaction, writer := map[], [];
    }

    method AddReaction(command: string, response: string)
      modifies this`reaction
      ensures reaction == old(reaction)[command := response]
    {
      reaction := reaction[command := response];
    }

    /** The loop over the map: some key contained in the command, if there is one. */
    method FindReaction(token: string) returns (key: Option<string>)
      ensures if key.Some? then MatchesKey(reaction, token, key.value) else !Matches(reaction, token)
    {
      hide TrimSpace, Contains;
      var command := TrimSpace(token);
      var keys := reaction.Keys;
      while keys != {}
        invariant keys <= reaction.Keys
        invariant forall k | k in reaction && k !in keys :: !Contains(command, k)
        decreases keys
      {
        var k :| k in keys;
        if Contains(command, k) {
          return Some(k);
        }
        keys := keys - {k};
      }
      key := None;
    }

    /** `React`, with the producer's steps and the ticks falling between those of the loop in any order
        whatsoever: what happens is a run of the transition system that ends with one cancel. The ticker
        can fire in step n when `ticker(n)` says so; when it never does, the whole stream is answered. */
    method React(chunks: seq<string>, eofWithLast: bool, ticker: nat -> bool) returns (cancels: nat, ghost run: Run)
      modifies this`writer
      ensures IsRun(reaction, run) && run.chunks == chunks && run.eofWithLast == eofWithLast
      ensures var last := run.states[|run.actions|];
              !last.running && writer == old(writer) + last.output && cancels == last.cancels == 1
      ensures TicksAllowed(run, ticker)
      ensures (forall n :: !ticker(n)) ==>
                exists output :: Answers(reaction, Tokens(Concat(chunks)), output) && writer == old(writer) + output
    {
      hide Tokens, Concat, Inv, Matches, MatchesKey, Work, Answers, Offer, AfterToken, AfterRead, TrimSpace, Contains;
      var source, hand: Option<string>, closed := Fresh(chunks, eofWithLast), None, false;
      var scanCh: seq<string>, count, running := [], 0, true;
      var steps := 0;
      cancels := 0;
      ghost var s := Initial(chunks, eofWithLast);
      ghost var tokens := Tokens(Concat(chunks));
      run := Run(chunks, eofWithLast, [s], []);
      InitialInv(reaction, chunks, eofWithLast);
      FirstRun(reaction, chunks, eofWithLast);
      assert TicksAllowed(run, ticker);
      hide IsRun, TicksAllowed;
      while running
        invariant |run.states| == |run.actions| + 1
        invariant IsRun(reaction, run) && run.chunks == chunks && run.eofWithLast == eofWithLast
        invariant s == run.states[|run.actions|]
        invariant Inv(s, reaction, tokens)
        invariant s == State(source, hand, closed, scanCh, count, running, s.consumed, s.output, s.rounds, cancels)
        invariant writer == old(writer) + s.output
        invariant steps == |run.actions|
        invariant TicksAllowed(run, ticker)
        decreases Work(s)
      {
        ghost var a: Action;
        if {
          case !closed && hand.None? && !source.done && Offer(source).None? && !source.atEOF =>
            a := ReadChunk;
            source := AfterRead(source);
          case !closed && hand.None? && Offer(source).Some? =>
            a := TakeToken;
            hand, source := Offer(source), AfterToken(source);
          case hand.Some? && |scanCh| < CHANNEL_CAPACITY =>
            a := Send;
            scanCh, hand := scanCh + [hand.value], None;
          case !closed && hand.None? && Offer(source).None? && (source.done || source.atEOF) =>
            a := Close;
            closed := true;
          case ticker(steps) =>
            a := Tick;
            var v := count;
            count := 0;
            if v == 0 {
              cancels := cancels + 1;
              running := false;
            }
          case scanCh != [] =>
            var command := scanCh[0];
            scanCh := scanCh[1..];
            count := count + 1;
            var key := FindReaction(command);
            a := Receive(key);
            if key.Some? {
              FoundKey(reaction, command, key.value);
              writer := writer + [Line(reaction, key.value)];
            }
          case scanCh == [] && closed =>
            a := SeeClosed;
            cancels := cancels + 1;
            running := false;
        }
        assert Enabled(s, a, reaction);
        StepKeepsInv(s, a, reaction, tokens);
        StepWorks(s, a, reaction, tokens);
        RunGrows(reaction, run, a, ticker);
        s := Step(s, a, reaction);
        run := run.(states := run.states + [s], actions := run.actions + [a]);
        steps := steps + 1;
      }
      CancelledOnce(s, reaction, tokens);
      AnsweredWithoutTicks(reaction, run, ticker);
    }
  }

  lemma FoundKey(reactions: Reactions, token: string, key: string)
    requires MatchesKey(reactions, token, key)
    ensures key in reactions
  {
  }

  lemma CancelledOnce(s: State, reactions: Reactions, tokens: seq<string>)
    requires Inv(s, reactions, tokens) && !s.running
    ensures s.cancels == 1
  {
  }
}
