/** The `CLUSTER INFO` reader of lib/cli/cli.go. */
module ClusterInfo {
  import opened GoStrings

  datatype Info = Info(
    clusterState: string,
    slotsAssigned: int,
    slotsOk: int,
    slotsPfail: int,
    slotsFail: int,
    knownNodes: int,
    size: int,
    myEpoch: int)

  const EMPTY_INFO := Info("", 0, 0, 0, 0, 0, 0, 0)

  /** The keys the reader knows. */
  datatype Key = State | SlotsAssigned | SlotsOk | SlotsPfail | SlotsFail | KnownNodes | Size | MyEpoch

  function KeyText(k: Key): string {
    match k
    case State => "cluster_state"
    case SlotsAssigned => "cluster_slots_assigned"
    case SlotsOk => "cluster_slots_ok"
    case SlotsPfail => "cluster_slots_pfail"
    case SlotsFail => "cluster_slots_fail"
    case KnownNodes => "cluster_known_nodes"
    case Size => "cluster_size"
    case MyEpoch => "cluster_my_epoch"
  }

  // ---------------------------------------------------------------- specification: the last line of a key wins

  /** The position behind the last ':' of the line, 0 when it has none. */
  function LastColon(line: string): (i: nat)
    ensures i <= |line|
  {
    if line == "" then 0 else if line[|line| - 1] == ':' then |line| else LastColon(line[..|line| - 1])
  }

  predicate Splits(line: string) { 0 < LastColon(line) }

  function KeyOf(line: string): string
    requires Splits(line)
  {
    line[..LastColon(line) - 1]
  }

  function ValueOf(line: string): string { line[LastColon(line)..] }

  /** The value on the last line with this key. */
  function LastValue(lines: seq<string>, key: string): Option<string> {
    if lines == [] then None else
    var line := lines[|lines| - 1];
    if Splits(line) && KeyOf(line) == key then Some(ValueOf(line)) else LastValue(lines[..|lines| - 1], key)
  }

  function NumberOf(v: Option<string>): int {
    match v case None => 0 case Some(text) => Atoi(text)
  }

  function TextOf(v: Option<string>): string {
    match v case None => "" case Some(text) => text
  }

  function InfoOf(lines: seq<string>): Info {
    Info(
      TextOf(LastValue(lines, KeyText(State))),
      NumberOf(LastValue(lines, KeyText(SlotsAssigned))),
      NumberOf(LastValue(lines, KeyText(SlotsOk))),
      NumberOf(LastValue(lines, KeyText(SlotsPfail))),
      NumberOf(LastValue(lines, KeyText(SlotsFail))),
      NumberOf(LastValue(lines, KeyText(KnownNodes))),
      NumberOf(LastValue(lines, KeyText(Size))),
      NumberOf(LastValue(lines, KeyText(MyEpoch))))
  }

  /** A line on which the reader slices out of range: not blank and without any ':'. */
  predicate Unsplittable(line: string) { line != "" && ':' !in line }

  lemma {:induction false} SplitsWithColon(line: string)
    ensures Splits(line) <==> ':' in line
  {
    if line != "" && line[|line| - 1] != ':' {
      SplitsWithColon(line[..|line| - 1]);
      assert line == line[..|line| - 1] + [line[|line| - 1]];
    }
  }

  /** Fields that no line names are empty or 0. */
  lemma NothingRead()
    ensures InfoOf([]) == Info("", 0, 0, 0, 0, 0, 0, 0)
  {
    hide KeyText;
  }

  // ---------------------------------------------------------------- the reader

  /** The switch over the key. */
  method Store(info: Info, key: string, value: string) returns (r: Info)
    ensures r.clusterState == if key == KeyText(State) then value else info.clusterState
    ensures r.slotsAssigned == if key == KeyText(SlotsAssigned) then Atoi(value) else info.slotsAssigned
    ensures r.slotsOk == if key == KeyText(SlotsOk) then Atoi(value) else info.slotsOk
    ensures r.slotsPfail == if key == KeyText(SlotsPfail) then Atoi(value) else info.slotsPfail
    ensures r.slotsFail == if key == KeyText(SlotsFail) then Atoi(value) else info.slotsFail
    ensures r.knownNodes == if key == KeyText(KnownNodes) then Atoi(value) else info.knownNodes
    ensures r.size == if key == KeyText(Size) then Atoi(value) else info.size
    ensures r.myEpoch == if key == KeyText(MyEpoch) then Atoi(value) else info.myEpoch
  {
    hide Atoi;
    KeyTextsDiffer();
    r := info;
    if key == "cluster_state" {
      r := r.(clusterState := value);
    } else if key == "cluster_slots_assigned" {
      r := r.(slotsAssigned := Atoi(value));
    } else if key == "cluster_slots_ok" {
      r := r.(slotsOk := Atoi(value));
    } else if key == "cluster_slots_pfail" {
      r := r.(slotsPfail := Atoi(value));
    } else if key == "cluster_slots_fail" {
      r := r.(slotsFail := Atoi(value));
    } else if key == "cluster_known_nodes" {
      r := r.(knownNodes := Atoi(value));
    } else if key == "cluster_size" {
      r := r.(size := Atoi(value));
    } else if key == "cluster_my_epoch" {
      r := r.(myEpoch := Atoi(value));
    }
  }

  method FindColon(line: string) returns (idx: nat)
    ensures idx == LastColon(line)
  {
    idx := |line|;
    assert line[..|line|] == line;
    while idx > 0
      invariant idx <= |line| && LastColon(line[..idx]) == LastColon(line)
    {
      assert line[..idx][..idx - 1] == line[..idx - 1];
      if line[idx - 1] == ':' {
        break;
      }
      idx := idx - 1;
    }
  }

  method GetClusterInfo(reply: string) returns (info: Info, panicked: bool)
    ensures panicked <==> exists line | line in ScanLines(reply) :: Unsplittable(line)
    ensures !panicked ==> info == InfoOf(ScanLines(reply))
  {
    hide Atoi, ScanLines, KeyText, LastColon;
    info, panicked := EMPTY_INFO, false;
    var lines := ScanLines(reply);
    for k := 0 to |lines|
      invariant !panicked && info == InfoOf(lines[..k])
      invariant forall j | 0 <= j < k :: !Unsplittable(lines[j])
    {
      var line := lines[k];
      assert lines[..k + 1][..k] == lines[..k];
      SplitsWithColon(line);
      if line == "" {
        continue;
      }
      var idx := FindColon(line);
      if idx == 0 {
        assert Unsplittable(line) && line in lines;
        panicked := true; // line[:idx-1] is out of range
        return;
      }
      var key := line[..idx - 1];
      var value := line[idx..];
      info := Store(info, key, value);
    }
    assert lines[..|lines|] == lines;
  }

  lemma KeyTextsDiffer()
    ensures forall j: Key, k: Key :: KeyText(j) == KeyText(k) ==> j == k
  {
  }

  // ---------------------------------------------------------------- the printer

  function FieldText(info: Info, k: Key): string
    requires PrintableInfo(info)
  {
    match k
    case State => info.clusterState
    case SlotsAssigned => Itoa(info.slotsAssigned)
    case SlotsOk => Itoa(info.slotsOk)
    case SlotsPfail => Itoa(info.slotsPfail)
    case SlotsFail => Itoa(info.slotsFail)
    case KnownNodes => Itoa(info.knownNodes)
    case Size => Itoa(info.size)
    case MyEpoch => Itoa(info.myEpoch)
  }

  predicate Fits(n: int) { 0 <= n <= MAX_INT64 }

  /** Counts are non-negative 64-bit numbers and the state holds no ':'. */
  predicate PrintableInfo(info: Info) {
    && ':' !in info.clusterState
    && Fits(info.slotsAssigned) && Fits(info.slotsOk) && Fits(info.slotsPfail) && Fits(info.slotsFail)
    && Fits(info.knownNodes) && Fits(info.size) && Fits(info.myEpoch)
  }

  /** The lines of the eight fields. */
  function FieldLine(info: Info, k: Key): string
    requires PrintableInfo(info)
  {
    match k
    case State => "cluster_state:" + info.clusterState
    case SlotsAssigned => "cluster_slots_assigned:" + Itoa(info.slotsAssigned)
    case SlotsOk => "cluster_slots_ok:" + Itoa(info.slotsOk)
    case SlotsPfail => "cluster_slots_pfail:" + Itoa(info.slotsPfail)
    case SlotsFail => "cluster_slots_fail:" + Itoa(info.slotsFail)
    case KnownNodes => "cluster_known_nodes:" + Itoa(info.knownNodes)
    case Size => "cluster_size:" + Itoa(info.size)
    case MyEpoch => "cluster_my_epoch:" + Itoa(info.myEpoch)
  }

  lemma FieldLineIs(info: Info, k: Key)
    requires PrintableInfo(info)
    ensures FieldLine(info, k) == KeyText(k) + [':'] + FieldText(info, k)
  {
    hide Itoa;
    assert KeyText(k) + [':'] == match k {
      case State => "cluster_state:" case SlotsAssigned => "cluster_slots_assigned:"
      case SlotsOk => "cluster_slots_ok:" case SlotsPfail => "cluster_slots_pfail:"
      case SlotsFail => "cluster_slots_fail:" case KnownNodes => "cluster_known_nodes:"
      case Size => "cluster_size:" case MyEpoch => "cluster_my_epoch:" };
  }

  /** A line of a reply: blank, of a key the reader does not know, or one of the eight fields. */
  ghost predicate IsReplyLine(info: Info, line: string)
    requires PrintableInfo(info)
  {
    || line == ""
    || (Splits(line) && forall k: Key :: KeyOf(line) != KeyText(k))
    || exists k: Key :: line == FieldLine(info, k)
  }

  lemma {:induction false} LastColonOf(key: string, value: string)
    requires ':' !in value
    ensures LastColon(key + [':'] + value) == |key| + 1
  {
    var line := key + [':'] + value;
    if value != "" {
      var init := value[..|value| - 1];
      LastColonOf(key, init);
      assert line[..|line| - 1] == key + [':'] + init;
    }
  }

  lemma FieldTextRoundTrip(info: Info, k: Key)
    requires PrintableInfo(info)
    ensures ':' !in FieldText(info, k)
    ensures !k.State? ==> Atoi(FieldText(info, k)) == match k {
      case State => 0 case SlotsAssigned => info.slotsAssigned case SlotsOk => info.slotsOk
      case SlotsPfail => info.slotsPfail case SlotsFail => info.slotsFail case KnownNodes => info.knownNodes
      case Size => info.size case MyEpoch => info.myEpoch }
  {
    hide Atoi, Itoa;
    if !k.State? {
      var n := match k {
        case State => 0 case SlotsAssigned => info.slotsAssigned case SlotsOk => info.slotsOk
        case SlotsPfail => info.slotsPfail case SlotsFail => info.slotsFail case KnownNodes => info.knownNodes
        case Size => info.size case MyEpoch => info.myEpoch };
      AtoiOfItoa(n);
      ItoaDigits(n);
    }
  }

  lemma {:induction false} LastValueOfField(info: Info, lines: seq<string>, k: Key)
    requires PrintableInfo(info) && forall line | line in lines :: IsReplyLine(info, line)
    requires FieldLine(info, k) in lines
    ensures LastValue(lines, KeyText(k)) == Some(FieldText(info, k))
  {
    hide KeyText, FieldText, FieldLine, Itoa;
    var init, line := lines[..|lines| - 1], lines[|lines| - 1];
    assert lines == init + [line];
    KeyTextsDiffer();
    if exists j: Key :: line == FieldLine(info, j) {
      var j: Key :| line == FieldLine(info, j);
      FieldTextRoundTrip(info, j);
      FieldLineIs(info, j);
      LastColonOf(KeyText(j), FieldText(info, j));
      assert KeyOf(line) == KeyText(j) && ValueOf(line) == FieldText(info, j);
      if j != k {
        FieldLinesDiffer(info, j, k);
        LastValueOfField(info, init, k);
      }
    } else {
      assert IsReplyLine(info, line) && line != FieldLine(info, k);
      assert !Splits("");
      LastValueOfField(info, init, k);
    }
  }

  lemma FieldLinesDiffer(info: Info, j: Key, k: Key)
    requires PrintableInfo(info) && j != k
    ensures FieldLine(info, j) != FieldLine(info, k)
  {
    hide KeyText, FieldText, FieldLine, Itoa;
    FieldLineIs(info, j);
    FieldLineIs(info, k);
    KeyTextsDiffer();
    FieldTextRoundTrip(info, j);
    FieldTextRoundTrip(info, k);
    LastColonOf(KeyText(j), FieldText(info, j));
    LastColonOf(KeyText(k), FieldText(info, k));
    assert KeyOf(FieldLine(info, j)) == KeyText(j);
    assert KeyOf(FieldLine(info, k)) == KeyText(k);
  }

  lemma ReplyLineSplits(info: Info, line: string)
    requires PrintableInfo(info) && IsReplyLine(info, line) && line != ""
    ensures Splits(line)
  {
    hide KeyText, FieldText, FieldLine;
    if exists k: Key :: line == FieldLine(info, k) {
      var k: Key :| line == FieldLine(info, k);
      FieldLineIs(info, k);
      FieldTextRoundTrip(info, k);
      LastColonOf(KeyText(k), FieldText(info, k));
    }
  }

  /** Whatever the order of its lines, however they are repeated or interleaved with blanks and
      unknown keys, the reply gives the record back, and no line makes the reader panic. */
  lemma InfoRoundTrip(info: Info, lines: seq<string>)
    requires PrintableInfo(info) && Avoids(lines, '\n')
    requires forall line | line in lines :: IsReplyLine(info, line)
    requires forall k: Key :: FieldLine(info, k) in lines
    ensures var read := ScanLines(CRLFLines(lines));
            InfoOf(read) == info && forall line | line in read :: !Unsplittable(line)
  {
    hide Atoi, Itoa, KeyText, FieldLine, LastValue;
    ScanLinesOfCRLFLines(lines);
    forall k: Key ensures LastValue(lines, KeyText(k)) == Some(FieldText(info, k)) {
      LastValueOfField(info, lines, k);
      FieldTextRoundTrip(info, k);
    }
    forall line | line in lines ensures !Unsplittable(line) {
      SplitsWithColon(line);
      if line != "" {
        ReplyLineSplits(info, line);
      }
    }
    FieldTextRoundTrip(info, SlotsAssigned);
    FieldTextRoundTrip(info, SlotsOk);
    FieldTextRoundTrip(info, SlotsPfail);
    FieldTextRoundTrip(info, SlotsFail);
    FieldTextRoundTrip(info, KnownNodes);
    FieldTextRoundTrip(info, Size);
    FieldTextRoundTrip(info, MyEpoch);
  }
}
