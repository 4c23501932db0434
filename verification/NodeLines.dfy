/** `CLUSTER NODES` replies as a server prints them, and the round trip through the reader. */
module NodeLines {
  import opened GoStrings
  import opened ClusterNodes

  datatype SlotToken = Single(slot: nat) | Range(first: nat, last: nat)

  /** One line of the reply. `hostname` is the optional part behind the cluster port. */
  datatype NodeRecord = NodeRecord(
    id: string,
    host: string,
    clusterPort: nat,
    hostname: string,
    flags: seq<string>,
    master: string,
    ping: nat,
    pong: nat,
    epoch: nat,
    linkState: string,
    tokens: seq<SlotToken>)

  predicate IsReplica(r: NodeRecord) { "slave" in r.flags }

  predicate NoLetters(s: string) {
    forall k | 0 <= k < |s| :: !('a' <= s[k] <= 'z') && !('A' <= s[k] <= 'Z')
  }

  predicate TokenFits(t: SlotToken) {
    match t
    case Single(n) => n <= MAX_INT64
    case Range(a, b) => a <= MAX_INT64 && b <= MAX_INT64
  }

  /** The records a server can print: no field holds the byte that ends it, a primary's master field
      holds no letter (it is "-"), and no migrating or importing slots. */
  predicate WellFormed(r: NodeRecord) {
    && ' ' !in r.id && !("txt:" <= r.id)
    && '@' !in r.host
    && r.clusterPort <= MAX_INT64 && ' ' !in r.hostname
    && r.flags != [] && Avoids(r.flags, ',') && Avoids(r.flags, ' ')
    && r.master != "" && ' ' !in r.master && (!IsReplica(r) ==> NoLetters(r.master))
    && IsLinkState(r.linkState)
    && (forall k | 0 <= k < |r.tokens| :: TokenFits(r.tokens[k]))
  }

  // ---------------------------------------------------------------- the printer

  function TokenText(t: SlotToken): string {
    match t
    case Single(n) => Itoa(n)
    case Range(a, b) => Itoa(a) + ['-'] + Itoa(b)
  }

  function TokenTexts(tokens: seq<SlotToken>): (texts: seq<string>)
    ensures |texts| == |tokens|
  {
    if tokens == [] then [] else TokenTexts(tokens[..|tokens| - 1]) + [TokenText(tokens[|tokens| - 1])]
  }

  function PrintLine(r: NodeRecord): string { r.id + [' '] + PrintHost(r) }
  function PrintHost(r: NodeRecord): string { r.host + ['@'] + PrintPort(r) }
  function PrintPort(r: NodeRecord): string { PortText(r) + [' '] + PrintFlags(r) }
  function PortText(r: NodeRecord): string {
    if r.hostname == "" then Itoa(r.clusterPort) else Itoa(r.clusterPort) + ([','] + r.hostname)
  }
  function PrintFlags(r: NodeRecord): string
  {
    (if r.flags == [] then "" else Join(r.flags, ',')) + [' '] + PrintMaster(r)
  }
  function PrintMaster(r: NodeRecord): string { r.master + [' '] + PrintTimes(r) }
  function PrintTimes(r: NodeRecord): string { TimesText(r) + PrintLink(r) }
  function TimesText(r: NodeRecord): string {
    Itoa(r.ping) + [' '] + Itoa(r.pong) + [' '] + Itoa(r.epoch) + [' ']
  }
  function PrintLink(r: NodeRecord): string {
    if r.tokens == [] then r.linkState else r.linkState + [' '] + Join(TokenTexts(r.tokens), ' ')
  }

  // ---------------------------------------------------------------- what the reader makes of it

  function Numbers(t: SlotToken): seq<int> {
    match t
    case Single(n) => [n]
    case Range(a, b) => [a, b]
  }

  function Flatten(tokens: seq<SlotToken>): seq<int> {
    if tokens == [] then [] else Flatten(tokens[..|tokens| - 1]) + Numbers(tokens[|tokens| - 1])
  }

  /** The node read from the line of `r` on its own: everything comes back, except that a hostname
      costs the cluster port and a link state that ends the line its last byte. */
  function Expected(r: NodeRecord): ClusterNode {
    ClusterNode(
      r.id,
      r.host,
      if r.hostname == "" then r.clusterPort else 0,
      r.flags,
      if IsReplica(r) then r.master else "",
      if r.tokens == [] && r.linkState != "" then r.linkState[..|r.linkState| - 1] else r.linkState,
      Flatten(r.tokens))
  }

  // ---------------------------------------------------------------- pieces of the round trip

  lemma TrimSpaceKeeps(s: string)
    requires s != "" && !IsSpace(s[0]) && !IsSpace(s[|s| - 1])
    ensures TrimSpace(s) == s
  {
  }

  lemma TokenRoundTrip(t: SlotToken)
    requires TokenFits(t)
    ensures TokenNumbers(TokenText(t)) == Numbers(t) && ' ' !in TokenText(t)
  {
    match t
    case Single(n) =>
      ItoaDigits(n);
      AtoiOfItoa(n);
      TrimSpaceKeeps(Itoa(n));
      SplitOfJoin([Itoa(n)], '-');
    case Range(a, b) =>
      ItoaDigits(a);
      ItoaDigits(b);
      AtoiOfItoa(a);
      AtoiOfItoa(b);
      SplitOfJoin([Itoa(a), Itoa(b)], '-');
  }

  lemma {:induction false} TokensRoundTrip(tokens: seq<SlotToken>)
    requires forall k | 0 <= k < |tokens| :: TokenFits(tokens[k])
    ensures SlotNumbers(TokenTexts(tokens)) == Flatten(tokens) && Avoids(TokenTexts(tokens), ' ')
  {
    if tokens != [] {
      var n := |tokens| - 1;
      TokensRoundTrip(tokens[..n]);
      TokenRoundTrip(tokens[n]);
      assert TokenTexts(tokens)[..n] == TokenTexts(tokens[..n]);
    }
  }

  lemma {:induction false} SkipGap(gap: string, rest: string, node: ClusterNode, marks: Marks)
    requires NoLetters(gap)
    ensures Read(Gap, gap + rest, node, marks) == Read(Gap, rest, node, marks)
  {
    if gap == "" {
      assert gap + rest == rest;
    } else {
      SkipGap(gap[1..], rest, node, marks);
      assert (gap + rest)[1..] == gap[1..] + rest;
    }
  }

  lemma TimesHaveNoLetters(r: NodeRecord)
    ensures NoLetters(TimesText(r))
  {
    ItoaDigits(r.ping);
    ItoaDigits(r.pong);
    ItoaDigits(r.epoch);
  }

  predicate IsLinkState(link: string) {
    link != "" && ('a' <= link[0] <= 'z' || 'A' <= link[0] <= 'Z') && ' ' !in link
  }

  lemma ReadLinkAtEnd(link: string, node: ClusterNode, marks: Marks)
    requires IsLinkState(link)
    ensures Read(Gap, link, node, marks) == Parsed(node.(linkState := link[..|link| - 1]), marks)
  {
    assert Read(Gap, link, node, marks) == Read(Link, link, node, marks);
    IndexOfIs(link, ' ', |link|);
    assert Read(Link, link, node, marks) == Parsed(node.(linkState := link[..|link| - 1]), marks);
  }

  lemma ReadLinkThenSlots(link: string, rest: string, node: ClusterNode, marks: Marks)
    requires IsLinkState(link) && rest != ""
    ensures Read(Gap, link + [' '] + rest, node, marks)
         == Parsed(node.(linkState := link, slots := SlotNumbers(Split(rest, ' '))), marks)
  {
    var s := link + [' '] + rest;
    assert Read(Gap, s, node, marks) == Read(Link, s, node, marks) by {
      assert s[0] == link[0];
    }
    Cut(link, ' ', rest);
    assert Read(Link, s, node, marks) == Read(Slots, rest, node.(linkState := link), marks);
  }

  /** The tail of a line, from the link state on. */
  lemma ReadPrintedLink(r: NodeRecord, node: ClusterNode, marks: Marks)
    requires WellFormed(r) && node.slots == []
    ensures Read(Gap, PrintLink(r), node, marks)
         == Parsed(node.(linkState := Expected(r).linkState, slots := Expected(r).slots), marks)
  {
    if r.tokens == [] {
      ReadLinkAtEnd(r.linkState, node, marks);
    } else {
      var texts := TokenTexts(r.tokens);
      TokensRoundTrip(r.tokens);
      SplitOfJoin(texts, ' ');
      JoinIsNotEmpty(texts);
      ReadLinkThenSlots(r.linkState, Join(texts, ' '), node, marks);
    }
  }

  lemma JoinIsNotEmpty(texts: seq<string>)
    requires texts != [] && (|texts| == 1 ==> texts[0] != "")
    ensures Join(texts, ' ') != ""
  {
  }

  lemma ReadPrintedTimes(r: NodeRecord, node: ClusterNode, marks: Marks)
    requires WellFormed(r) && node.slots == []
    ensures Read(Gap, PrintTimes(r), node, marks)
         == Parsed(node.(linkState := Expected(r).linkState, slots := Expected(r).slots), marks)
  {
    TimesHaveNoLetters(r);
    SkipGap(TimesText(r), PrintLink(r), node, marks);
    ReadPrintedLink(r, node, marks);
  }

  lemma PortRoundTrip(r: NodeRecord)
    requires WellFormed(r)
    ensures Atoi(PortText(r)) == Expected(r).clusterPort && ' ' !in PortText(r)
  {
    ItoaDigits(r.clusterPort);
    if r.hostname == "" {
      AtoiOfItoa(r.clusterPort);
    } else {
      AtoiOfItoaThenJunk(r.clusterPort, [','] + r.hostname);
    }
  }

  /** The node as far as the flags, which never depend on the marks. */
  function Head(r: NodeRecord): ClusterNode {
    EMPTY_NODE.(id := r.id, host := r.host, clusterPort := Expected(r).clusterPort, flags := r.flags)
  }

  lemma ReadID(text: string, rest: string, node: ClusterNode, marks: Marks)
    requires ' ' !in text
    ensures Read(ID, text + [' '] + rest, node, marks) == Read(Host, rest, node.(id := text), marks)
  {
    Cut(text, ' ', rest);
  }

  lemma ReadHost(text: string, rest: string, node: ClusterNode, marks: Marks)
    requires '@' !in text
    ensures Read(Host, text + ['@'] + rest, node, marks) == Read(Port, rest, node.(host := text), marks)
  {
    Cut(text, '@', rest);
  }

  lemma ReadPort(text: string, rest: string, node: ClusterNode, marks: Marks)
    requires ' ' !in text
    ensures Read(Port, text + [' '] + rest, node, marks) == Read(Flags, rest, node.(clusterPort := Atoi(text)), marks)
  {
    Cut(text, ' ', rest);
  }

  lemma ReadFlags(flags: seq<string>, rest: string, node: ClusterNode, marks: Marks)
    requires flags != [] && Avoids(flags, ',') && Avoids(flags, ' ')
    ensures Read(Flags, Join(flags, ',') + [' '] + rest, node, marks)
         == Read(Master, rest, node.(flags := flags), marks.(isSlave := marks.isSlave || "slave" in flags))
  {
    JoinAvoids(flags, ',', ' ');
    Cut(Join(flags, ','), ' ', rest);
    SplitOfJoin(flags, ',');
  }

  lemma ReadMaster(text: string, rest: string, node: ClusterNode)
    requires ' ' !in text
    ensures Read(Master, text + [' '] + rest, node, Marks(true, false))
         == Read(Gap, rest, node.(masterID := text), Marks(true, true))
  {
    Cut(text, ' ', rest);
  }

  lemma ReadPrintedHead(r: NodeRecord, marks: Marks)
    requires WellFormed(r)
    ensures ParseLine(PrintLine(r), marks)
         == Read(Master, PrintMaster(r), Head(r), marks.(isSlave := marks.isSlave || IsReplica(r)))
  {
    hide Read;
    var node0 := EMPTY_NODE.(id := r.id);
    var node1 := node0.(host := r.host);
    var node2 := node1.(clusterPort := Expected(r).clusterPort);
    ReadID(r.id, PrintHost(r), EMPTY_NODE, marks);
    ReadHost(r.host, PrintPort(r), node0, marks);
    PortRoundTrip(r);
    ReadPort(PortText(r), PrintFlags(r), node1, marks);
    ReadFlags(r.flags, PrintMaster(r), node2, marks);
  }

  /** Between two lines either no replica has been seen or its master has been read too. */
  predicate Settled(marks: Marks) { marks.isSlave == marks.checkMasterID }

  /** A primary reads the same wherever it stands in the reply. */
  lemma PrimaryRoundTrip(r: NodeRecord, marks: Marks)
    requires WellFormed(r) && !IsReplica(r) && Settled(marks)
    ensures ParseLine(PrintLine(r), marks) == Parsed(Expected(r), marks)
  {
    ReadPrintedHead(r, marks);
    SkipGap(r.master + [' '], PrintTimes(r), Head(r), marks);
    ReadPrintedTimes(r, Head(r), marks);
  }

  /** The first replica of a reply is read whole. */
  lemma FirstReplicaRoundTrip(r: NodeRecord)
    requires WellFormed(r) && IsReplica(r)
    ensures ParseLine(PrintLine(r), FRESH) == Parsed(Expected(r), Marks(true, true))
  {
    ReadPrintedHead(r, FRESH);
    ReadMaster(r.master, PrintTimes(r), Head(r));
    ReadPrintedTimes(r, Head(r).(masterID := r.master), Marks(true, true));
  }

  /** Position of the first letter, `|s|` when there is none. */
  function FirstLetter(s: string): (i: nat)
    ensures i <= |s| && NoLetters(s[..i]) && (i < |s| ==> 'a' <= s[i] <= 'z' || 'A' <= s[i] <= 'Z')
  {
    if s == "" || 'a' <= s[0] <= 'z' || 'A' <= s[0] <= 'Z' then 0
    else
      assert s[..1 + FirstLetter(s[1..])] == [s[0]] + s[1..][..FirstLetter(s[1..])];
      1 + FirstLetter(s[1..])
  }

  /** What every later replica is read as. Its master field is taken for part of the gap: without a
      letter it is passed over; with one, its rest from there on is taken for the link state, and the
      times, the epoch, the link state and the slots for the slots. */
  function Misread(r: NodeRecord): ClusterNode {
    if NoLetters(r.master) then Expected(r).(masterID := "")
    else
      Head(r).(linkState := r.master[FirstLetter(r.master)..],
               slots := [Clamp(r.ping), Clamp(r.pong), Clamp(r.epoch)] + TokenNumbers(r.linkState) + Flatten(r.tokens))
  }

  lemma {:induction false} SlotNumbersConcat(a: seq<string>, b: seq<string>)
    ensures SlotNumbers(a + b) == SlotNumbers(a) + SlotNumbers(b)
  {
    hide TokenNumbers;
    if b == [] {
      assert a + b == a;
    } else {
      var n, all := |b| - 1, a + b;
      SlotNumbersConcat(a, b[..n]);
      assert all[..|all| - 1] == a + b[..n] && all[|all| - 1] == b[n];
      assert SlotNumbers(all) == SlotNumbers(a + b[..n]) + TokenNumbers(b[n]);
    }
  }

  lemma NumberToken(n: nat)
    ensures TokenNumbers(Itoa(n)) == [Clamp(n)] && ' ' !in Itoa(n)
  {
    hide Atoi;
    ItoaDigits(n);
    AtoiClamps(n);
    TrimSpaceKeeps(Itoa(n));
    SplitOfJoin([Itoa(n)], '-');
  }

  lemma SlotNumbersOfTimes(ping: nat, pong: nat, epoch: nat, link: string)
    ensures SlotNumbers([Itoa(ping), Itoa(pong), Itoa(epoch), link])
         == [Clamp(ping), Clamp(pong), Clamp(epoch)] + TokenNumbers(link)
  {
    hide TokenNumbers, Itoa;
    NumberToken(ping);
    NumberToken(pong);
    NumberToken(epoch);
    var one, two, three := [Itoa(ping)], [Itoa(ping), Itoa(pong)], [Itoa(ping), Itoa(pong), Itoa(epoch)];
    assert one[..0] == [] && two[..1] == one && three[..2] == two && (three + [link])[..3] == three;
    assert SlotNumbers(one) == [Clamp(ping)];
    assert SlotNumbers(two) == [Clamp(ping), Clamp(pong)];
    assert SlotNumbers(three) == [Clamp(ping), Clamp(pong), Clamp(epoch)];
    assert SlotNumbers(three + [link]) == SlotNumbers(three) + TokenNumbers(link);
    assert three + [link] == [Itoa(ping), Itoa(pong), Itoa(epoch), link];
  }

  /** The text behind the master field, as tokens. */
  function TimesTokens(r: NodeRecord): seq<string> {
    [Itoa(r.ping), Itoa(r.pong), Itoa(r.epoch), r.linkState] + TokenTexts(r.tokens)
  }

  lemma JoinFive(a: string, b: string, c: string, d: string, rest: seq<string>)
    ensures Join([a, b, c, d] + rest, ' ')
         == a + [' '] + b + [' '] + c + [' '] + if rest == [] then d else d + [' '] + Join(rest, ' ')
  {
    var all := [a, b, c, d] + rest;
    assert all[1..] == [b, c, d] + rest && all[1..][1..] == [c, d] + rest && all[1..][1..][1..] == [d] + rest;
    assert ([d] + rest)[1..] == rest;
    var tail := Join([d] + rest, ' ');
    assert tail == if rest == [] then d else d + [' '] + Join(rest, ' ');
    assert Join([c, d] + rest, ' ') == c + [' '] + tail;
    assert Join([b, c, d] + rest, ' ') == b + [' '] + (c + [' '] + tail);
  }

  lemma ReadTimesAsSlots(r: NodeRecord)
    requires WellFormed(r)
    ensures PrintTimes(r) != "" && Split(PrintTimes(r), ' ') == TimesTokens(r)
    ensures SlotNumbers(TimesTokens(r))
         == [Clamp(r.ping), Clamp(r.pong), Clamp(r.epoch)] + TokenNumbers(r.linkState) + Flatten(r.tokens)
  {
    hide TokenNumbers, Itoa, SlotNumbers, Flatten;
    var front := [Itoa(r.ping), Itoa(r.pong), Itoa(r.epoch), r.linkState];
    NumberToken(r.ping);
    NumberToken(r.pong);
    NumberToken(r.epoch);
    TokensRoundTrip(r.tokens);
    JoinFive(Itoa(r.ping), Itoa(r.pong), Itoa(r.epoch), r.linkState, TokenTexts(r.tokens));
    assert PrintTimes(r) == Join(TimesTokens(r), ' ');
    assert Avoids(front, ' ') && Avoids(TimesTokens(r), ' ');
    SplitOfJoin(TimesTokens(r), ' ');
    SlotNumbersConcat(front, TokenTexts(r.tokens));
    SlotNumbersOfTimes(r.ping, r.pong, r.epoch, r.linkState);
  }

  lemma ReadLetteredMaster(r: NodeRecord, marks: Marks)
    requires WellFormed(r) && !NoLetters(r.master)
    ensures Read(Gap, PrintMaster(r), Head(r), marks) == Parsed(Misread(r), marks)
  {
    hide TokenNumbers, Itoa, SlotNumbers, Flatten, PrintTimes, Read;
    var i := FirstLetter(r.master);
    assert r.master[..|r.master|] == r.master;
    var link := r.master[i..];
    var tail := link + [' '] + PrintTimes(r);
    assert PrintMaster(r) == r.master[..i] + tail;
    SkipGap(r.master[..i], tail, Head(r), marks);
    ReadTimesAsSlots(r);
    ReadLinkThenSlots(link, PrintTimes(r), Head(r), marks);
  }

  predicate FirstLetterAt(s: string, i: int) {
    && 0 <= i < |s| && ('a' <= s[i] <= 'z' || 'A' <= s[i] <= 'Z')
    && forall k | 0 <= k < i :: !('a' <= s[k] <= 'z') && !('A' <= s[k] <= 'Z')
  }

  /** Every later replica is read as `Misread` and so never has its master ID. */
  lemma LaterReplicaIsMisread(r: NodeRecord)
    requires WellFormed(r) && IsReplica(r)
    ensures ParseLine(PrintLine(r), Marks(true, true)) == Parsed(Misread(r), Marks(true, true))
    ensures Misread(r).masterID == "" != Expected(r).masterID
    ensures forall i | FirstLetterAt(r.master, i) :: Misread(r).linkState == r.master[i..]
  {
    hide TokenNumbers, Itoa, SlotNumbers, Flatten, PrintTimes, FirstLetter, WellFormed;
    var marks := Marks(true, true);
    ReadPrintedHead(r, marks);
    assert Read(Master, PrintMaster(r), Head(r), marks) == Read(Gap, PrintMaster(r), Head(r), marks);
    if NoLetters(r.master) {
      SkipGap(r.master + [' '], PrintTimes(r), Head(r), marks);
      ReadPrintedTimes(r, Head(r), marks);
    } else {
      ReadLetteredMaster(r, marks);
    }
    NamesItsMaster(r);
    forall i | FirstLetterAt(r.master, i) ensures Misread(r).linkState == r.master[i..] {
      FirstLetterIs(r.master, i);
    }
  }

  lemma FirstLetterIs(s: string, i: nat)
    requires FirstLetterAt(s, i)
    ensures FirstLetter(s) == i && !NoLetters(s)
  {
    var j := FirstLetter(s);
    if i < j {
      LetterWithin(s, i, j);
    }
  }

  lemma LetterWithin(s: string, i: nat, j: nat)
    requires FirstLetterAt(s, i) && i < j <= |s|
    ensures !NoLetters(s[..j])
  {
    assert s[..j][i] == s[i];
  }

  lemma NamesItsMaster(r: NodeRecord)
    requires WellFormed(r)
    ensures r.master != ""
  {
  }

  /** The link states a server prints are read as the slot 0. */
  lemma LinkStateIsSlotZero(link: string)
    requires IsLinkState(link) && '-' !in link
    ensures TokenNumbers(link) == [0]
  {
    SplitOfJoin([link], '-');
    TrimRightDrops(link);
    var t := TrimSpace(link);
    var rest := link[|t|..];
    assert rest != "" ==> IsSpace(rest[0]);
    assert t != "" && t[0] == link[0];
  }

  /** The line of every record, read on its own, gives the record back. */
  lemma LineRoundTrip(r: NodeRecord)
    requires WellFormed(r)
    ensures ParseLine(PrintLine(r), FRESH).node == Expected(r)
  {
    if IsReplica(r) {
      FirstReplicaRoundTrip(r);
    } else {
      PrimaryRoundTrip(r, FRESH);
    }
  }

  lemma MoveLeft(front: string, a: string, b: string, rest: string)
    ensures front + (a + b + rest) == front + a + b + rest
  {
  }

  /** The layout of a line. */
  lemma LineLayout(r: NodeRecord)
    requires r.flags != []
    ensures PrintLine(r) ==
              r.id + " " + r.host + "@"
              + (if r.hostname == "" then Itoa(r.clusterPort) else Itoa(r.clusterPort) + "," + r.hostname) + " "
              + Join(r.flags, ',') + " " + r.master + " "
              + (Itoa(r.ping) + " " + Itoa(r.pong) + " " + Itoa(r.epoch) + " ")
              + (if r.tokens == [] then r.linkState else r.linkState + " " + Join(TokenTexts(r.tokens), ' '))
  {
    hide Itoa, Join, TokenTexts;
    assert Itoa(r.clusterPort) + "," + r.hostname == Itoa(r.clusterPort) + ([','] + r.hostname);
    var port, flags := PortText(r), Join(r.flags, ',');
    hide PortText, PrintLink, TimesText;
    var toHost := r.id + " ";
    var toPort := toHost + r.host + "@";
    var toFlags := toPort + port + " ";
    var toMaster := toFlags + flags + " ";
    var toTimes := toMaster + r.master + " ";
    MoveLeft(toHost, r.host, "@", PrintPort(r));
    MoveLeft(toPort, port, " ", PrintFlags(r));
    MoveLeft(toFlags, flags, " ", PrintMaster(r));
    MoveLeft(toMaster, r.master, " ", PrintTimes(r));
    MoveLeft(toTimes, TimesText(r), "", PrintLink(r));
    assert TimesText(r) + "" == TimesText(r) && toTimes + TimesText(r) + "" == toTimes + TimesText(r);
    assert PrintLine(r) == toTimes + TimesText(r) + PrintLink(r);
    LastParts(r);
  }

  lemma LastParts(r: NodeRecord)
    ensures TimesText(r) == Itoa(r.ping) + " " + Itoa(r.pong) + " " + Itoa(r.epoch) + " "
    ensures PrintLink(r) == if r.tokens == [] then r.linkState else r.linkState + " " + Join(TokenTexts(r.tokens), ' ')
    ensures PortText(r) == if r.hostname == "" then Itoa(r.clusterPort) else Itoa(r.clusterPort) + ("," + r.hostname)
  {
  }

  /** A line as written, field by field: the host ends before the '@', the flag "slave" makes the next
      field a master ID, and the first letter behind that begins the link state, which ends the line or
      is followed by the slots. */
  lemma WrittenLine(r: NodeRecord)
    requires ' ' !in r.id && !("txt:" <= r.id) && '@' !in r.host
    requires r.clusterPort <= 9223372036854775807 && ' ' !in r.hostname
    requires r.flags != [] && forall k | 0 <= k < |r.flags| :: ',' !in r.flags[k] && ' ' !in r.flags[k]
    requires if "slave" in r.flags then r.master != "" && ' ' !in r.master else r.master == "-"
    requires r.linkState == "connected" || r.linkState == "disconnected"
    requires forall k | 0 <= k < |r.tokens| :: TokenFits(r.tokens[k])
    ensures var line :=
              r.id + " " + r.host + "@"
              + (if r.hostname == "" then Itoa(r.clusterPort) else Itoa(r.clusterPort) + "," + r.hostname) + " "
              + Join(r.flags, ',') + " " + r.master + " "
              + (Itoa(r.ping) + " " + Itoa(r.pong) + " " + Itoa(r.epoch) + " ")
              + (if r.tokens == [] then r.linkState else r.linkState + " " + Join(TokenTexts(r.tokens), ' '));
            var node := ParseLine(line, FRESH).node;
            && node.id == r.id && node.host == r.host && node.flags == r.flags
            && node.clusterPort == (if r.hostname == "" then r.clusterPort else 0)
            && node.masterID == (if "slave" in r.flags then r.master else "")
            && (r.tokens != [] ==> node.linkState == r.linkState)
            && (r.tokens == [] ==> node.linkState == r.linkState[..|r.linkState| - 1])
            && node.slots == Flatten(r.tokens)
  {
    hide PrintLine, ParseLine, Itoa, Join, TokenTexts, TokenFits, Flatten;
    LineLayout(r);
    LinkStates();
    assert WellFormed(r);
    LineRoundTrip(r);
  }

  /** A token without '-' is one number, blanks around it trimmed; of one with '-' the texts before and
      behind the first '-' are read, up to the second. */
  lemma TokenWrittenOut(a: string, b: string, rest: string)
    requires '-' !in a && '-' !in b
    ensures TokenNumbers(a) == [Atoi(TrimSpace(a))]
    ensures TokenNumbers(a + "-" + b) == [Atoi(a), Atoi(b)]
    ensures TokenNumbers(a + "-" + (b + "-" + rest)) == [Atoi(a), Atoi(b)]
  {
    hide Atoi, TrimSpace;
    SplitFirst(a, '-', b);
    SplitFirst(b, '-', rest);
    SplitFirst(a, '-', b + "-" + rest);
    assert a + "-" + b == a + ['-'] + b && b + "-" + rest == b + ['-'] + rest;
    assert a + "-" + (b + "-" + rest) == a + ['-'] + (b + "-" + rest);
  }

  /** A slot that is being migrated or imported, as in "[93->-id]" and "[93-<-id]", is read as the slots
      0 and 0. */
  lemma MigratingToken(slot: nat, arrow: char, id: string)
    requires arrow == '>' || arrow == '<'
    ensures TokenNumbers(("[" + Itoa(slot)) + "-" + ([arrow] + "-" + id)) == [0, 0]
  {
    hide TokenNumbers;
    ItoaDigits(slot);
    TokenWrittenOut("[" + Itoa(slot), [arrow], id);
  }

  /** Reading stops where a field is not ended. */
  lemma StopsWithin(f: Field, s: string, node: ClusterNode, marks: Marks)
    requires (f.ID? || f.Host? || f.Port? || f.Flags?) && (if f.Host? then '@' else ' ') !in s
    ensures Read(f, s, node, marks) == Parsed(node, marks)
  {
    IndexOfIs(s, if f.Host? then '@' else ' ', |s|);
  }

  lemma ReadsOn(field: string, rest: string, node: ClusterNode, marks: Marks)
    ensures ' ' !in field ==>
              Read(ID, field + " " + rest, node, marks) == Read(Host, rest, node.(id := field), marks)
    ensures '@' !in field ==>
              Read(Host, field + "@" + rest, node, marks) == Read(Port, rest, node.(host := field), marks)
    ensures ' ' !in field ==>
              Read(Port, field + " " + rest, node, marks) == Read(Flags, rest, node.(clusterPort := Atoi(field)), marks)
  {
    hide Atoi;
    if ' ' !in field {
      Cut(field, ' ', rest);
    }
    if '@' !in field {
      Cut(field, '@', rest);
    }
  }

  /** A line that ends within a field has the fields before it and nothing else. */
  lemma UnfinishedLine(id: string, host: string, port: string, flags: string, marks: Marks)
    requires ' ' !in id && '@' !in host && ' ' !in port && ' ' !in flags
    ensures ParseLine(id, marks) == Parsed(ClusterNode("", "", 0, [], "", "", []), marks)
    ensures ParseLine(id + " " + host, marks) == Parsed(EMPTY_NODE.(id := id), marks)
    ensures ParseLine(id + " " + (host + "@" + port), marks) == Parsed(EMPTY_NODE.(id := id, host := host), marks)
    ensures ParseLine(id + " " + (host + "@" + (port + " " + flags)), marks)
         == Parsed(EMPTY_NODE.(id := id, host := host, clusterPort := Atoi(port)), marks)
  {
    hide Atoi, Read;
    var named := EMPTY_NODE.(id := id);
    var hosted := named.(host := host);
    StopsWithin(ID, id, EMPTY_NODE, marks);
    StopsWithin(Host, host, named, marks);
    StopsWithin(Port, port, hosted, marks);
    StopsWithin(Flags, flags, hosted.(clusterPort := Atoi(port)), marks);
    ReadsOn(id, host, EMPTY_NODE, marks);
    ReadsOn(id, host + "@" + port, EMPTY_NODE, marks);
    ReadsOn(id, host + "@" + (port + " " + flags), EMPTY_NODE, marks);
    ReadsOn(host, port, named, marks);
    ReadsOn(host, port + " " + flags, named, marks);
    ReadsOn(port, flags, hosted, marks);
  }

  lemma LinkThenBlank(link: string, node: ClusterNode, marks: Marks)
    requires IsLinkState(link)
    ensures Read(Gap, link + " ", node, marks) == Parsed(node.(linkState := link), marks)
  {
    var s := link + " ";
    Cut(link, ' ', "");
    assert link + [' '] + "" == s;
    assert s[0] == link[0];
    assert Read(Gap, s, node, marks) == Read(Link, s, node, marks);
    assert Read(Link, s, node, marks) == Read(Slots, s[|link| + 1..], node.(linkState := link), marks);
    assert s[|link| + 1..] == "";
  }

  /** A line whose text behind the flags has no letter has neither link state nor slots, and one that
      ends with a blank behind the link state has no slots. */
  lemma UnfinishedTail(gap: string, link: string, node: ClusterNode, marks: Marks)
    requires NoLetters(gap) && IsLinkState(link)
    ensures Read(Gap, gap, node, marks) == Parsed(node, marks)
    ensures Read(Gap, gap + (link + " "), node, marks) == Parsed(node.(linkState := link), marks)
    ensures marks.isSlave && !marks.checkMasterID && ' ' !in gap ==>
              Read(Master, gap, node, marks) == Parsed(node, marks)
  {
    assert gap + "" == gap;
    SkipGap(gap, "", node, marks);
    SkipGap(gap, link + " ", node, marks);
    LinkThenBlank(link, node, marks);
    if ' ' !in gap {
      IndexOfIs(gap, ' ', |gap|);
    }
  }

  lemma LinkStates()
    ensures IsLinkState("connected") && IsLinkState("disconnected") && NoLetters("-")
  {
  }

  // ---------------------------------------------------------------- whole replies

  /** A line of a reply: blank, or a node, in either case behind an optional "txt:". */
  datatype Item = Blank(verbatim: bool) | Node(record: NodeRecord, verbatim: bool)

  function ItemText(item: Item): string {
    (if item.verbatim then "txt:" else "") + (if item.Node? then PrintLine(item.record) else "")
  }

  function Texts(items: seq<Item>): seq<string> {
    if items == [] then [] else [ItemText(items[0])] + Texts(items[1..])
  }

  function Records(items: seq<Item>): seq<NodeRecord> {
    if items == [] then []
    else if items[0].Node? then [items[0].record] + Records(items[1..])
    else Records(items[1..])
  }

  function ExpectedNodes(records: seq<NodeRecord>): seq<ClusterNode> {
    if records == [] then [] else [Expected(records[0])] + ExpectedNodes(records[1..])
  }

  /** The nodes read from a reply, `seen` telling whether a replica has come before. */
  function ReplyNodes(records: seq<NodeRecord>, seen: bool): seq<ClusterNode> {
    if records == [] then [] else
    var r := records[0];
    [if IsReplica(r) && seen then Misread(r) else Expected(r)] + ReplyNodes(records[1..], seen || IsReplica(r))
  }

  function ReplicaCount(records: seq<NodeRecord>): nat {
    if records == [] then 0 else (if IsReplica(records[0]) then 1 else 0) + ReplicaCount(records[1..])
  }

  /** The reader that starts every line with fresh marks. */
  function ParseEachFresh(lines: seq<string>): seq<ClusterNode> {
    if lines == [] then [] else
    var line := TrimPrefix(lines[0], "txt:");
    (if line == "" then [] else [ParseLine(line, FRESH).node]) + ParseEachFresh(lines[1..])
  }

  predicate AllWellFormed(items: seq<Item>) {
    forall k | 0 <= k < |items| && items[k].Node? :: WellFormed(items[k].record)
  }

  lemma NoPrefix(id: string, rest: string)
    requires ' ' !in id && !("txt:" <= id)
    ensures !("txt:" <= id + [' '] + rest)
  {
    var s := id + [' '] + rest;
    var n := |id|;
    assert s[n] == ' ';
    assert n < 4 ==> "txt:"[n] != ' ';
    assert 4 <= n ==> s[..4] == id[..4];
  }

  lemma TrimmedItem(item: Item)
    requires item.Node? ==> WellFormed(item.record)
    ensures TrimPrefix(ItemText(item), "txt:") == if item.Node? then PrintLine(item.record) else ""
    ensures item.Node? ==> PrintLine(item.record) != ""
  {
    if item.Node? {
      var s := PrintLine(item.record);
      if item.verbatim {
        assert ItemText(item) == "txt:" + s;
      } else {
        assert ItemText(item) == s;
        NoPrefix(item.record.id, PrintHost(item.record));
      }
    }
  }

  /** What holds of a parsed reply however many replicas it lists: IDs and flags are right
      everywhere, primaries are read whole. */
  predicate Agrees(node: ClusterNode, r: NodeRecord) {
    node.id == r.id && node.flags == r.flags && (!IsReplica(r) ==> node == Expected(r))
  }

  predicate AgreesAll(nodes: seq<ClusterNode>, records: seq<NodeRecord>) {
    |nodes| == |records| && forall k | 0 <= k < |nodes| :: Agrees(nodes[k], records[k])
  }

  lemma {:induction false} ParseItems(items: seq<Item>, marks: Marks)
    requires AllWellFormed(items) && Settled(marks)
    ensures ParseLines(Texts(items), marks) == ReplyNodes(Records(items), marks.isSlave)
  {
    hide ParseLine, PrintLine, TrimPrefix, ItemText, Expected, Misread;
    if items != [] {
      var item, rest := items[0], items[1..];
      TrimmedItem(item);
      if item.Blank? {
        ParseItems(rest, marks);
      } else {
        var r := item.record;
        var p := ParseLine(PrintLine(r), marks);
        if !IsReplica(r) {
          PrimaryRoundTrip(r, marks);
        } else if marks == FRESH {
          FirstReplicaRoundTrip(r);
        } else {
          LaterReplicaIsMisread(r);
        }
        ParseItems(rest, p.marks);
      }
    }
  }

  lemma {:induction false} ReplyNodesAgree(records: seq<NodeRecord>, seen: bool)
    ensures AgreesAll(ReplyNodes(records, seen), records)
  {
    if records != [] {
      ReplyNodesAgree(records[1..], seen || IsReplica(records[0]));
    }
  }

  lemma {:induction false} ReplyNodesExpected(records: seq<NodeRecord>, seen: bool)
    requires forall k | 0 <= k < |records| && IsReplica(records[k]) :: records[k].master != ""
    ensures ReplyNodes(records, seen) == ExpectedNodes(records) <==> ReplicaCount(records) <= if seen then 0 else 1
  {
    hide Flatten;
    if records != [] {
      var r, rest := records[0], records[1..];
      ReplyNodesExpected(rest, seen || IsReplica(r));
      var nodes := ReplyNodes(records, seen);
      assert nodes[1..] == ReplyNodes(rest, seen || IsReplica(r)) && ExpectedNodes(records)[1..] == ExpectedNodes(rest);
      assert IsReplica(r) ==> Misread(r).masterID == "" != Expected(r).masterID;
    }
  }

  /** Which of the two readings a node is. */
  lemma {:induction false} ReplyNodeAt(records: seq<NodeRecord>, seen: bool, k: nat)
    requires k < |records|
    ensures |ReplyNodes(records, seen)| == |records|
    ensures ReplyNodes(records, seen)[k]
         == if IsReplica(records[k]) && (seen || ReplicaCount(records[..k]) > 0) then Misread(records[k])
            else Expected(records[k])
  {
    hide Misread, Expected;
    if k > 0 {
      ReplyNodeAt(records[1..], seen || IsReplica(records[0]), k - 1);
      assert records[..k][1..] == records[1..][..k - 1];
    } else if |records| > 1 {
      ReplyNodeAt(records[1..], seen || IsReplica(records[0]), 0);
    }
  }

  lemma {:induction false} RecordsWellFormed(items: seq<Item>)
    requires AllWellFormed(items)
    ensures forall k | 0 <= k < |Records(items)| :: WellFormed(Records(items)[k])
  {
    hide WellFormed;
    if items != [] {
      RecordsWellFormed(items[1..]);
    }
  }

  lemma {:induction false} FreshItems(items: seq<Item>)
    requires AllWellFormed(items)
    ensures ParseEachFresh(Texts(items)) == ExpectedNodes(Records(items))
  {
    if items != [] {
      TrimmedItem(items[0]);
      if items[0].Node? {
        LineRoundTrip(items[0].record);
      }
      FreshItems(items[1..]);
    }
  }

  /** The texts of these items survive being written line by line and scanned back. */
  predicate PrintableReply(items: seq<Item>) {
    AllWellFormed(items) && forall k | 0 <= k < |items| :: IsLine(ItemText(items[k]))
  }

  /** Free of line breaks. */
  predicate Plain(s: string) { '\n' !in s && '\r' !in s }

  lemma {:induction false} JoinIsPlain(parts: seq<string>, sep: char)
    requires parts != [] && Plain([sep]) && forall k | 0 <= k < |parts| :: Plain(parts[k])
    ensures Plain(Join(parts, sep))
  {
    if |parts| > 1 {
      JoinIsPlain(parts[1..], sep);
    }
  }

  lemma ItoaIsPlain(n: nat)
    ensures Plain(Itoa(n))
  {
    ItoaDigits(n);
  }

  lemma {:induction false} TokenTextsArePlain(tokens: seq<SlotToken>)
    ensures forall k | 0 <= k < |tokens| :: Plain(TokenTexts(tokens)[k])
  {
    if tokens != [] {
      var n := |tokens| - 1;
      TokenTextsArePlain(tokens[..n]);
      match tokens[n]
      case Single(a) => ItoaIsPlain(a);
      case Range(a, b) =>
        ItoaIsPlain(a);
        ItoaIsPlain(b);
    }
  }

  predicate PlainRecord(r: NodeRecord) {
    && Plain(r.id) && Plain(r.host) && Plain(r.hostname) && Plain(r.master) && Plain(r.linkState)
    && forall k | 0 <= k < |r.flags| :: Plain(r.flags[k])
  }

  lemma PrintedLineIsPlain(r: NodeRecord)
    requires PlainRecord(r)
    ensures Plain(PrintLine(r))
  {
    hide Itoa;
    ItoaIsPlain(r.clusterPort);
    assert Plain(PortText(r));
    assert Plain(TimesText(r)) by {
      ItoaIsPlain(r.ping);
      ItoaIsPlain(r.pong);
      ItoaIsPlain(r.epoch);
    }
    assert Plain(PrintLink(r)) by {
      if r.tokens != [] {
        TokenTextsArePlain(r.tokens);
        JoinIsPlain(TokenTexts(r.tokens), ' ');
      }
    }
    hide PortText, TimesText, PrintLink;
    assert Plain(PrintTimes(r)) && Plain(PrintMaster(r));
    if r.flags != [] {
      JoinIsPlain(r.flags, ',');
    }
    assert Plain(PrintFlags(r));
  }

  /** Any well-formed records without line breaks make up a printable reply. */
  lemma PlainRepliesArePrintable(items: seq<Item>)
    requires forall k | 0 <= k < |items| && items[k].Node? ::
               WellFormed(items[k].record) && PlainRecord(items[k].record)
    ensures PrintableReply(items)
  {
    hide PrintLine, WellFormed, PlainRecord;
    forall k | 0 <= k < |items| ensures IsLine(ItemText(items[k])) {
      if items[k].Node? {
        PrintedLineIsPlain(items[k].record);
      }
      assert Plain(ItemText(items[k]));
    }
  }

  lemma {:induction false} TextsAt(items: seq<Item>, k: nat)
    requires k < |items|
    ensures |Texts(items)| == |items| && Texts(items)[k] == ItemText(items[k])
  {
    if |items| > 1 {
      TextsAt(items[1..], if k == 0 then 0 else k - 1);
    }
  }

  lemma ScanPrinted(items: seq<Item>)
    requires PrintableReply(items)
    ensures ScanLines(Lines(Texts(items))) == Texts(items)
  {
    var texts := Texts(items);
    forall l | l in texts ensures IsLine(l) {
      if items != [] {
        TextsAt(items, 0);
      }
      var k :| 0 <= k < |texts| && texts[k] == l;
      TextsAt(items, k);
    }
    ScanLinesOfLines(texts);
  }

  /** What a whole printed reply is read as, exactly: the first replica and all primaries as expected,
      every later replica misread. */
  lemma ReplyExact(items: seq<Item>)
    requires PrintableReply(items)
    ensures ParseReply(Lines(Texts(items))) == ReplyNodes(Records(items), false)
  {
    hide WellFormed, PrintLine;
    ScanPrinted(items);
    ParseItems(items, FRESH);
  }

  /** So it is what reading each line on its own would give exactly when the reply lists at most one
      replica. */
  lemma ReplyRoundTrip(items: seq<Item>)
    requires PrintableReply(items)
    ensures var reply := Lines(Texts(items));
            && ParseEachFresh(ScanLines(reply)) == ExpectedNodes(Records(items))
            && (ParseReply(reply) == ParseEachFresh(ScanLines(reply)) <==> ReplicaCount(Records(items)) <= 1)
  {
    ScanPrinted(items);
    FreshItems(items);
    RecordsWellFormed(items);
    ReplyNodesExpected(Records(items), false);
    ReplyExact(items);
  }

  /** With any number of replicas the IDs, the flags and the primaries are read right. */
  lemma ReplyAgrees(items: seq<Item>)
    requires PrintableReply(items)
    ensures AgreesAll(ParseReply(Lines(Texts(items))), Records(items))
  {
    ReplyExact(items);
    ReplyNodesAgree(Records(items), false);
  }

  lemma {:induction false} FirstReplica(records: seq<NodeRecord>) returns (k: nat)
    requires ReplicaCount(records) > 0
    ensures k < |records| && IsReplica(records[k]) && ReplicaCount(records[..k]) == 0
  {
    if IsReplica(records[0]) {
      k := 0;
    } else {
      var j := FirstReplica(records[1..]);
      k := j + 1;
      assert records[..k][1..] == records[1..][..j];
    }
  }

  /** The first replica of a reply is read whole, so it counts as a node without slots. */
  lemma FirstReplicaIsRead(items: seq<Item>) returns (k: nat)
    requires AllWellFormed(items) && ReplicaCount(Records(items)) > 0
    ensures var nodes, records := ParseLines(Texts(items), FRESH), Records(items);
            k < |nodes| == |records| && IsReplica(records[k]) && nodes[k] == Expected(records[k])
  {
    hide Expected, Misread;
    ParseItems(items, FRESH);
    k := FirstReplica(Records(items));
    ReplyNodeAt(Records(items), false, k);
  }
}
