/** The `CLUSTER NODES` reader of lib/cli/cli.go: the byte machine, and a reference reader that cuts
    the line field by field, which the machine is proved to refine. */
module ClusterNodes {
  import opened GoStrings

  datatype ClusterNode = ClusterNode(
    id: string,
    host: string,
    clusterPort: int,
    flags: seq<string>,
    masterID: string,
    linkState: string,
    slots: seq<int>)

  const EMPTY_NODE := ClusterNode("", "", 0, [], "", "", [])

  /** The two variables that are declared outside the loop over the lines. */
  datatype Marks = Marks(isSlave: bool, checkMasterID: bool)

  const FRESH := Marks(false, false)

  datatype Parsed = Parsed(node: ClusterNode, marks: Marks)

  predicate IsLetter(c: char) { 'a' <= c <= 'z' || 'A' <= c <= 'Z' }

  // ---------------------------------------------------------------- the reference reader

  /** The fields of a line, in order. `Gap` is everything between the master and the link state:
      "-", the ping and pong times, the epoch. */
  datatype Field = ID | Host | Port | Flags | Master | Gap | Link | Slots

  /** Reads `s`, which begins with the field `f`, into `node`. */
  function Read(f: Field, s: string, node: ClusterNode, marks: Marks): Parsed
    decreases |s|, if f.Master? then 2 else if f.Gap? then 1 else 0
  {
    match f
    case ID =>
      var i := IndexOf(s, ' ');
      if i == |s| then Parsed(node, marks) else Read(Host, s[i + 1..], node.(id := s[..i]), marks)
    case Host =>
      var i := IndexOf(s, '@');
      if i == |s| then Parsed(node, marks) else Read(Port, s[i + 1..], node.(host := s[..i]), marks)
    case Port =>
      var i := IndexOf(s, ' ');
      if i == |s| then Parsed(node, marks)
      else Read(Flags, s[i + 1..], node.(clusterPort := Atoi(s[..i])), marks)
    case Flags =>
      var i := IndexOf(s, ' ');
      if i == |s| then Parsed(node, marks)
      else
        var flags := Split(s[..i], ',');
        Read(Master, s[i + 1..], node.(flags := flags), marks.(isSlave := marks.isSlave || "slave" in flags))
    case Master =>
      // read once per reply at most: `checkMasterID` is never cleared
      if !marks.isSlave || marks.checkMasterID then Read(Gap, s, node, marks)
      else
        var i := IndexOf(s, ' ');
        if i == |s| then Parsed(node, marks)
        else Read(Gap, s[i + 1..], node.(masterID := s[..i]), marks.(checkMasterID := true))
    case Gap =>
      if s == "" then Parsed(node, marks)
      else if IsLetter(s[0]) then Read(Link, s, node, marks)
      else Read(Gap, s[1..], node, marks)
    case Link =>
      // a link state that ends the line is cut one byte short
      var i := IndexOf(s, ' ');
      if s == "" then Parsed(node, marks)
      else if i == |s| then Parsed(node.(linkState := s[..|s| - 1]), marks)
      else Read(Slots, s[i + 1..], node.(linkState := s[..i]), marks)
    case Slots =>
      if s == "" then Parsed(node, marks)
      else Parsed(node.(slots := SlotNumbers(Split(s, ' '))), marks)
  }

  /** One number for a token without '-', the first two numbers of a token with one. */
  function TokenNumbers(token: string): seq<int> {
    var parts := Split(token, '-');
    if |parts| == 1 then [Atoi(TrimSpace(parts[0]))] else [Atoi(parts[0]), Atoi(parts[1])]
  }

  function SlotNumbers(tokens: seq<string>): seq<int> {
    if tokens == [] then [] else SlotNumbers(tokens[..|tokens| - 1]) + TokenNumbers(tokens[|tokens| - 1])
  }

  function ParseLine(line: string, marks: Marks): Parsed {
    Read(ID, line, EMPTY_NODE, marks)
  }

  /** One line after the other, the marks of each handed to the next; blank lines give no node. */
  function ParseLines(lines: seq<string>, marks: Marks): seq<ClusterNode>
  {
    if lines == [] then [] else
    var line := TrimPrefix(lines[0], "txt:");
    if line == "" then ParseLines(lines[1..], marks)
    else
      var p := ParseLine(line, marks);
      [p.node] + ParseLines(lines[1..], p.marks)
  }

  function ParseReply(reply: string): seq<ClusterNode> {
    ParseLines(ScanLines(reply), FRESH)
  }

  // ---------------------------------------------------------------- the byte machine

  /** The field the machine is in, in each state but the last. */
  function FieldOf(state: nat, marks: Marks): Field {
    if state == 0 then ID
    else if state == 1 then Host
    else if state == 2 then Port
    else if state == 3 then Flags
    else if state == 4 then (if marks.isSlave && !marks.checkMasterID then Master else Gap)
    else if state == 5 then Link
    else Slots
  }

  /** The byte that ends a field. */
  function Terminator(f: Field): char {
    if f.Host? then '@' else ' '
  }

  /** Standing on the terminator of a field that began at `prevIdx` is where `IndexOf` cuts. */
  lemma FieldEnds(line: string, prevIdx: nat, i: nat, c: char)
    requires prevIdx <= i < |line| && line[i] == c && c !in line[prevIdx..i]
    ensures var s := line[prevIdx..];
            && IndexOf(s, c) == i - prevIdx && s[..i - prevIdx] == line[prevIdx..i]
            && s[i - prevIdx + 1..] == line[i + 1..]
  {
    var s := line[prevIdx..];
    assert s[..i - prevIdx] == line[prevIdx..i];
    IndexOfIs(s, c, i - prevIdx);
  }

  /** What the machine knows while it reads field `f`: reading on from `prevIdx` (in the gap, from `i`)
      leads to `goal`. */
  ghost predicate OnTrack(goal: Parsed, line: string, f: Field, prevIdx: int, i: nat, node: ClusterNode, marks: Marks) {
    && 0 <= prevIdx <= i <= |line|
    && (f.Link? ==> prevIdx < i)
    && (!f.Gap? && !f.Slots? ==> Terminator(f) !in line[prevIdx..i])
    && Read(f, if f.Gap? then line[i..] else line[prevIdx..], node, marks) == goal
  }

  ghost predicate AtHead(
    goal: Parsed, line: string, state: nat, prevIdx: int, i: nat, node: ClusterNode, marks: Marks)
  {
    if state < 7 then OnTrack(goal, line, FieldOf(state, marks), prevIdx, i, node, marks)
    else i == |line| + 1 && Parsed(node, marks) == goal
  }

  /** Inside a field a byte other than its terminator changes nothing. */
  lemma Stay(goal: Parsed, line: string, f: Field, prevIdx: nat, i: nat, node: ClusterNode, marks: Marks)
    requires OnTrack(goal, line, f, prevIdx, i, node, marks) && i < |line|
    requires !f.Gap? && !f.Slots? && line[i] != Terminator(f)
    ensures OnTrack(goal, line, f, prevIdx, i + 1, node, marks)
  {
  }

  /** Reading `f` from behind byte `i` is being on track at `i + 1`; a master field that is not to be
      read is part of the gap. */
  lemma Enter(goal: Parsed, line: string, f: Field, i: nat, node: ClusterNode, marks: Marks)
    requires i < |line| && !f.Link? && Read(f, line[i + 1..], node, marks) == goal
    ensures var g := if f.Master? then FieldOf(4, marks) else f;
            OnTrack(goal, line, g, i + 1, i + 1, node, marks)
  {
  }

  lemma Start(line: string, marks: Marks)
    ensures AtHead(ParseLine(line, marks), line, 0, 0, 0, EMPTY_NODE, marks)
  {
  }

  // One lemma for each state: what the loop body does at byte `i` keeps the machine on track.

  lemma StepID(goal: Parsed, line: string, prevIdx: int, i: nat, node: ClusterNode, marks: Marks)
    requires AtHead(goal, line, 0, prevIdx, i, node, marks) && i < |line|
    ensures if line[i] == ' ' then AtHead(goal, line, 1, i + 1, i + 1, node.(id := line[prevIdx..i]), marks)
            else AtHead(goal, line, 0, prevIdx, i + 1, node, marks)
  {
    if line[i] == ' ' {
      FieldEnds(line, prevIdx, i, ' ');
      Enter(goal, line, Host, i, node.(id := line[prevIdx..i]), marks);
    } else {
      Stay(goal, line, ID, prevIdx, i, node, marks);
    }
  }

  lemma StepHost(goal: Parsed, line: string, prevIdx: int, i: nat, node: ClusterNode, marks: Marks)
    requires AtHead(goal, line, 1, prevIdx, i, node, marks) && i < |line|
    ensures if line[i] == '@' then AtHead(goal, line, 2, i + 1, i + 1, node.(host := line[prevIdx..i]), marks)
            else AtHead(goal, line, 1, prevIdx, i + 1, node, marks)
  {
    if line[i] == '@' {
      FieldEnds(line, prevIdx, i, '@');
      Enter(goal, line, Port, i, node.(host := line[prevIdx..i]), marks);
    } else {
      Stay(goal, line, Host, prevIdx, i, node, marks);
    }
  }

  lemma StepPort(goal: Parsed, line: string, prevIdx: int, i: nat, node: ClusterNode, marks: Marks)
    requires AtHead(goal, line, 2, prevIdx, i, node, marks) && i < |line|
    ensures if line[i] == ' '
            then AtHead(goal, line, 3, i + 1, i + 1, node.(clusterPort := Atoi(line[prevIdx..i])), marks)
            else AtHead(goal, line, 2, prevIdx, i + 1, node, marks)
  {
    if line[i] == ' ' {
      FieldEnds(line, prevIdx, i, ' ');
      Enter(goal, line, Flags, i, node.(clusterPort := Atoi(line[prevIdx..i])), marks);
    } else {
      Stay(goal, line, Port, prevIdx, i, node, marks);
    }
  }

  lemma StepFlags(goal: Parsed, line: string, prevIdx: int, i: nat, node: ClusterNode, marks: Marks)
    requires AtHead(goal, line, 3, prevIdx, i, node, marks) && i < |line|
    ensures if line[i] == ' ' then
              var flags := Split(line[prevIdx..i], ',');
              var next := marks.(isSlave := marks.isSlave || "slave" in flags);
              AtHead(goal, line, 4, i + 1, i + 1, node.(flags := flags), next)
            else AtHead(goal, line, 3, prevIdx, i + 1, node, marks)
  {
    if line[i] == ' ' {
      var flags := Split(line[prevIdx..i], ',');
      FieldEnds(line, prevIdx, i, ' ');
      Enter(goal, line, Master, i, node.(flags := flags), marks.(isSlave := marks.isSlave || "slave" in flags));
    } else {
      Stay(goal, line, Flags, prevIdx, i, node, marks);
    }
  }

  lemma StepMaster(goal: Parsed, line: string, prevIdx: int, i: nat, node: ClusterNode, marks: Marks)
    requires AtHead(goal, line, 4, prevIdx, i, node, marks) && i < |line|
    requires marks.isSlave && !marks.checkMasterID
    ensures if line[i] == ' ' then
              AtHead(goal, line, 4, i + 1, i + 1, node.(masterID := line[prevIdx..i]), marks.(checkMasterID := true))
            else AtHead(goal, line, 4, prevIdx, i + 1, node, marks)
  {
    if line[i] == ' ' {
      FieldEnds(line, prevIdx, i, ' ');
      Enter(goal, line, Gap, i, node.(masterID := line[prevIdx..i]), marks.(checkMasterID := true));
    } else {
      Stay(goal, line, Master, prevIdx, i, node, marks);
    }
  }

  lemma StepGap(goal: Parsed, line: string, prevIdx: int, i: nat, node: ClusterNode, marks: Marks)
    requires AtHead(goal, line, 4, prevIdx, i, node, marks) && i < |line|
    requires !marks.isSlave || marks.checkMasterID
    ensures if IsLetter(line[i]) then AtHead(goal, line, 5, i, i + 1, node, marks)
            else AtHead(goal, line, 4, prevIdx, i + 1, node, marks)
  {
  }

  /** The last byte of the line ends the link state without being part of it. */
  lemma StepLink(goal: Parsed, line: string, prevIdx: int, i: nat, node: ClusterNode, marks: Marks)
    requires AtHead(goal, line, 5, prevIdx, i, node, marks) && i < |line|
    ensures if line[i] == ' ' || i == |line| - 1 then
              AtHead(goal, line, 6, i + 1, i + 1, node.(linkState := line[prevIdx..i]), marks)
            else AtHead(goal, line, 5, prevIdx, i + 1, node, marks)
  {
    var s := line[prevIdx..];
    if line[i] == ' ' {
      FieldEnds(line, prevIdx, i, ' ');
      Enter(goal, line, Slots, i, node.(linkState := line[prevIdx..i]), marks);
    } else if i == |line| - 1 {
      assert s == line[prevIdx..i] + [line[i]];
      IndexOfIs(s, ' ', |s|);
      assert s[..|s| - 1] == line[prevIdx..i];
    } else {
      Stay(goal, line, Link, prevIdx, i, node, marks);
    }
  }

  lemma StepSlots(goal: Parsed, line: string, prevIdx: int, i: nat, node: ClusterNode, marks: Marks)
    requires AtHead(goal, line, 6, prevIdx, i, node, marks) && i < |line|
    ensures if i == |line| - 1 then
              var slots := SlotNumbers(Split(line[prevIdx..i + 1], ' '));
              AtHead(goal, line, 7, prevIdx, i + 2, node.(slots := slots), marks)
            else AtHead(goal, line, 6, prevIdx, i + 1, node, marks)
  {
    assert line[prevIdx..|line|] == line[prevIdx..];
  }

  /** When the bytes run out inside a field, the reference reader has nothing to add either. */
  lemma OutOfBytes(goal: Parsed, line: string, state: nat, prevIdx: int, node: ClusterNode, marks: Marks)
    requires AtHead(goal, line, state, prevIdx, |line|, node, marks)
    requires state == 5 ==> prevIdx == |line| - 1 && node.linkState == ""
    requires state == 6 ==> prevIdx == |line|
    ensures Parsed(node, marks) == goal
  {
    var f := FieldOf(state, marks);
    if state < 7 {
      var s := line[prevIdx..];
      assert line[prevIdx..|line|] == s;
      if !f.Gap? && !f.Slots? {
        IndexOfIs(s, Terminator(f), |s|);
      }
    }
  }

  method HasSlaveFlag(flags: seq<string>) returns (found: bool)
    ensures found <==> "slave" in flags
  {
    found := false;
    for k := 0 to |flags|
      invariant !found && "slave" !in flags[..k]
    {
      if flags[k] == "slave" {
        found := true;
        break;
      }
    }
  }

  method ReadSlots(slotSet: seq<string>) returns (slots: seq<int>)
    ensures slots == SlotNumbers(slotSet)
  {
    slots := [];
    for k := 0 to |slotSet|
      invariant slots == SlotNumbers(slotSet[..k])
    {
      assert slotSet[..k + 1][..k] == slotSet[..k];
      var parts := Split(slotSet[k], '-');
      if |parts| == 1 {
        slots := slots + [Atoi(TrimSpace(parts[0]))];
      } else {
        var first := Atoi(parts[0]);
        var last := Atoi(parts[1]);
        slots := slots + [first, last];
      }
    }
    assert slotSet[..|slotSet|] == slotSet;
  }

  /** The loop over the bytes of one line. Every slice is in range for every input. */
  method ReadLine(line: string, marks: Marks) returns (node: ClusterNode, isSlave: bool, checkMasterID: bool)
    ensures Parsed(node, Marks(isSlave, checkMasterID)) == ParseLine(line, marks)
  {
    hide OnTrack, Split, Atoi, SlotNumbers, ParseLine; // the step lemmas say what is needed of them
    ghost var goal := ParseLine(line, marks);
    node, isSlave, checkMasterID := EMPTY_NODE, marks.isSlave, marks.checkMasterID;
    var prevIdx, state, i := 0, 0, 0;
    Start(line, marks);
    while i < |line|
      invariant 0 <= state <= 7 && (state < 7 ==> 0 <= prevIdx <= i <= |line|)
      invariant state <= 3 ==> node.flags == []
      invariant state <= 5 ==> node.linkState == ""
      invariant state < 7 ==> node.slots == []
      invariant state == 5 && i == |line| ==> prevIdx == i - 1
      invariant state == 6 && i == |line| ==> prevIdx == i
      invariant AtHead(goal, line, state, prevIdx, i, node, Marks(isSlave, checkMasterID))
    {
      var c := line[i];
      ghost var now := Marks(isSlave, checkMasterID);
      if state == 0 {
        StepID(goal, line, prevIdx, i, node, now);
        if c == ' ' {
          node, state, prevIdx := node.(id := line[prevIdx..i]), 1, i + 1;
        }
      } else if state == 1 {
        StepHost(goal, line, prevIdx, i, node, now);
        if c == '@' {
          node, state, prevIdx := node.(host := line[prevIdx..i]), 2, i + 1;
        }
      } else if state == 2 {
        StepPort(goal, line, prevIdx, i, node, now);
        if c == ' ' {
          node, state, prevIdx := node.(clusterPort := Atoi(line[prevIdx..i])), 3, i + 1;
        }
      } else if state == 3 {
        StepFlags(goal, line, prevIdx, i, node, now);
        if c == ' ' {
          var flags := Split(line[prevIdx..i], ',');
          assert node.flags + flags == flags;
          node := node.(flags := node.flags + flags);
          var found := HasSlaveFlag(node.flags);
          if found {
            isSlave := true;
          }
          state, prevIdx := 4, i + 1;
        }
      } else if state == 4 {
        if isSlave && !checkMasterID {
          StepMaster(goal, line, prevIdx, i, node, now);
          if c == ' ' {
            checkMasterID := true;
            node, prevIdx := node.(masterID := line[prevIdx..i]), i + 1;
          }
        } else {
          StepGap(goal, line, prevIdx, i, node, now);
          if IsLetter(c) {
            prevIdx, state := i, 5;
          }
        }
      } else if state == 5 {
        StepLink(goal, line, prevIdx, i, node, now);
        if c == ' ' || i == |line| - 1 {
          node, prevIdx, state := node.(linkState := line[prevIdx..i]), i + 1, 6;
        }
      } else if state == 6 {
        StepSlots(goal, line, prevIdx, i, node, now);
        if i == |line| - 1 {
          i := i + 1;
          var numbers := ReadSlots(Split(line[prevIdx..i], ' '));
          assert node.slots + numbers == numbers;
          node, state := node.(slots := node.slots + numbers), 7;
        }
      } else {
        break;
      }
      i := i + 1;
    }
    if state < 7 {
      OutOfBytes(goal, line, state, prevIdx, node, Marks(isSlave, checkMasterID));
    }
  }

  /** `GetClusterNodes` after the command has answered `reply`. */
  method GetClusterNodes(reply: string) returns (nodes: seq<ClusterNode>)
    ensures nodes == ParseReply(reply)
  {
    hide ParseLine, ScanLines, TrimPrefix;
    nodes := [];
    var isSlave, checkMasterID := false, false;
    var lines := ScanLines(reply);
    for k := 0 to |lines|
      invariant nodes + ParseLines(lines[k..], Marks(isSlave, checkMasterID)) == ParseLines(lines, FRESH)
    {
      assert lines[k..][0] == lines[k] && lines[k..][1..] == lines[k + 1..];
      var line := TrimPrefix(lines[k], "txt:");
      if line == "" {
        continue;
      }
      var node;
      node, isSlave, checkMasterID := ReadLine(line, Marks(isSlave, checkMasterID));
      nodes := nodes + [node];
    }
  }

  // ---------------------------------------------------------------- any input whatsoever

  /** The lines that are not blank, a leading "txt:" not counted. */
  function LinesWithText(lines: seq<string>): nat {
    if lines == [] then 0
    else (if lines[0] == "" || lines[0] == "txt:" then 0 else 1) + LinesWithText(lines[1..])
  }

  /** Each of them gives one node. */
  lemma {:induction false} OneNodePerLine(lines: seq<string>, marks: Marks)
    ensures |ParseLines(lines, marks)| == LinesWithText(lines)
  {
    hide ParseLine;
    if lines != [] {
      var line := TrimPrefix(lines[0], "txt:");
      assert "txt:" <= lines[0] ==> lines[0] == "txt:" + lines[0][4..];
      OneNodePerLine(lines[1..], if line == "" then marks else ParseLine(line, marks).marks);
    }
  }

  predicate NonNegative(numbers: seq<int>) {
    forall k | 0 <= k < |numbers| :: 0 <= numbers[k]
  }

  /** Tokens are split at '-', so no number read from one is negative. */
  lemma TokenNumbersNonNegative(token: string)
    ensures NonNegative(TokenNumbers(token))
  {
    var parts := Split(token, '-');
    SplitPieces(token, '-');
    var trimmed := TrimSpace(parts[0]);
    var left, right := TrimSpaceDrops(parts[0]);
    assert trimmed != "" ==> trimmed[0] == parts[0][|left|];
  }

  lemma {:induction false} SlotNumbersNonNegative(tokens: seq<string>)
    ensures NonNegative(SlotNumbers(tokens))
  {
    if tokens != [] {
      SlotNumbersNonNegative(tokens[..|tokens| - 1]);
      TokenNumbersNonNegative(tokens[|tokens| - 1]);
    }
  }

  /** A line's slots are what `SlotNumbers` makes of some text, or there are none. */
  lemma {:induction false} ReadNonNegative(f: Field, s: string, node: ClusterNode, marks: Marks)
    requires node.slots == []
    ensures NonNegative(Read(f, s, node, marks).node.slots)
    decreases |s|, if f.Master? then 2 else if f.Gap? then 1 else 0
  {
    hide NonNegative, Split, Atoi, SlotNumbers, IsLetter;
    NothingIsNonNegative();
    var i := IndexOf(s, Terminator(f));
    match f
    case ID =>
      if i < |s| {
        ReadNonNegative(Host, s[i + 1..], node.(id := s[..i]), marks);
      }
    case Host =>
      if i < |s| {
        ReadNonNegative(Port, s[i + 1..], node.(host := s[..i]), marks);
      }
    case Port =>
      if i < |s| {
        ReadNonNegative(Flags, s[i + 1..], node.(clusterPort := Atoi(s[..i])), marks);
      }
    case Flags =>
      if i < |s| {
        var flags := Split(s[..i], ',');
        var isSlave := marks.isSlave || "slave" in flags;
        ReadNonNegative(Master, s[i + 1..], node.(flags := flags), marks.(isSlave := isSlave));
      }
    case Master =>
      if !marks.isSlave || marks.checkMasterID {
        ReadNonNegative(Gap, s, node, marks);
      } else if i < |s| {
        ReadNonNegative(Gap, s[i + 1..], node.(masterID := s[..i]), marks.(checkMasterID := true));
      }
    case Gap =>
      if s != "" {
        if IsLetter(s[0]) {
          ReadNonNegative(Link, s, node, marks);
        } else {
          ReadNonNegative(Gap, s[1..], node, marks);
        }
      }
    case Link =>
      if i < |s| {
        ReadNonNegative(Slots, s[i + 1..], node.(linkState := s[..i]), marks);
      }
    case Slots =>
      SlotNumbersNonNegative(Split(s, ' '));
  }

  lemma NothingIsNonNegative()
    ensures NonNegative([])
  {
  }

  /** Whatever the reply and the marks, no parsed node has a negative slot. */
  lemma {:induction false} SlotsAreNonNegative(lines: seq<string>, marks: Marks)
    ensures forall node | node in ParseLines(lines, marks) :: NonNegative(node.slots)
  {
    if lines != [] {
      var line := TrimPrefix(lines[0], "txt:");
      if line == "" {
        SlotsAreNonNegative(lines[1..], marks);
      } else {
        ReadNonNegative(ID, line, EMPTY_NODE, marks);
        SlotsAreNonNegative(lines[1..], ParseLine(line, marks).marks);
      }
    }
  }
}
