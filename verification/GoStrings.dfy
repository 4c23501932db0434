/** The parts of Go's `strings`, `strconv` and `bufio` packages that the modelled code calls.
    A Go string is a Dafny string holding one char per byte. */
module GoStrings {

  datatype Option<+T> = None | Some(value: T)

  const MAX_INT64: int := 0x7FFF_FFFF_FFFF_FFFF
  const MAX_UINT64: int := 0xFFFF_FFFF_FFFF_FFFF

  // ---------------------------------------------------------------- searching and cutting

  /** Position of the first `c` in `s`, or `|s|` when there is none. */
  function IndexOf(s: string, c: char): (i: nat)
    ensures i <= |s|
  {
    if s == "" || s[0] == c then 0 else 1 + IndexOf(s[1..], c)
  }

  lemma {:induction false} IndexOfFinds(s: string, c: char)
    ensures var i := IndexOf(s, c); c !in s[..i] && (i < |s| ==> s[i] == c)
  {
    if s != "" && s[0] != c {
      var i := IndexOf(s[1..], c);
      IndexOfFinds(s[1..], c);
      assert s[..i + 1] == [s[0]] + s[1..][..i];
    }
  }

  /** `IndexOf` is determined by what it finds. */
  lemma {:induction false} IndexOfIs(s: string, c: char, i: nat)
    requires i <= |s| && c !in s[..i] && (i < |s| ==> s[i] == c)
    ensures IndexOf(s, c) == i
  {
    if 0 < i {
      assert s[..i] == [s[0]] + s[1..][..i - 1];
      IndexOfIs(s[1..], c, i - 1);
    }
  }

  /** Cutting `field + [c] + rest` at the first `c`. */
  lemma Cut(field: string, c: char, rest: string)
    requires c !in field
    ensures var s := field + [c] + rest;
            IndexOf(s, c) == |field| && s[..|field|] == field && s[|field| + 1..] == rest
  {
    var s := field + [c] + rest;
    assert s[..|field|] == field;
    IndexOfIs(s, c, |field|);
  }

  /** `strings.TrimPrefix`. */
  function TrimPrefix(s: string, prefix: string): string {
    if prefix <= s then s[|prefix|..] else s
  }

  /** The prefix goes once, and nothing else does. */
  lemma TrimPrefixOnce(s: string, prefix: string)
    ensures TrimPrefix(prefix + s, prefix) == s
    ensures |s| < |prefix| || s[..|prefix|] != prefix ==> TrimPrefix(s, prefix) == s
  {
    assert (prefix + s)[|prefix|..] == s;
  }

  function Join(parts: seq<string>, sep: char): string
    requires parts != []
  {
    if |parts| == 1 then parts[0] else parts[0] + [sep] + Join(parts[1..], sep)
  }

  /** `strings.Split` with a one-byte separator. */
  function Split(s: string, sep: char): (parts: seq<string>)
    ensures parts != []
    decreases |s|
  {
    var i := IndexOf(s, sep);
    if i == |s| then [s] else [s[..i]] + Split(s[i + 1..], sep)
  }

  predicate Avoids(parts: seq<string>, c: char) {
    forall k | 0 <= k < |parts| :: c !in parts[k]
  }

  /** The pieces rebuild the text and hold no separator. */
  lemma {:induction false} SplitPieces(s: string, sep: char)
    ensures Join(Split(s, sep), sep) == s && Avoids(Split(s, sep), sep)
    decreases |s|
  {
    var i := IndexOf(s, sep);
    IndexOfFinds(s, sep);
    if i == |s| {
      assert s[..i] == s;
    } else {
      SplitPieces(s[i + 1..], sep);
      assert Split(s, sep)[1..] == Split(s[i + 1..], sep);
      assert s == s[..i] + [sep] + s[i + 1..];
    }
  }

  /** The other direction: any separator-free pieces come back from their join. */
  lemma {:induction false} SplitOfJoin(parts: seq<string>, sep: char)
    requires parts != [] && Avoids(parts, sep)
    ensures Split(Join(parts, sep), sep) == parts
  {
    if |parts| == 1 {
      IndexOfIs(parts[0], sep, |parts[0]|);
    } else {
      Cut(parts[0], sep, Join(parts[1..], sep));
      SplitOfJoin(parts[1..], sep);
      assert parts == [parts[0]] + parts[1..];
    }
  }

  lemma {:induction false} JoinAvoids(parts: seq<string>, sep: char, c: char)
    requires parts != [] && c != sep && Avoids(parts, c)
    ensures c !in Join(parts, sep)
  {
    if |parts| > 1 {
      JoinAvoids(parts[1..], sep, c);
    }
  }

  /** Splitting goes on behind the first separator. */
  lemma SplitFirst(field: string, sep: char, rest: string)
    requires sep !in field
    ensures Split(field + [sep] + rest, sep) == [field] + Split(rest, sep) && Split(field, sep) == [field]
  {
    Cut(field, sep, rest);
    IndexOfIs(field, sep, |field|);
  }

  predicate OccursAt(s: string, sub: string, i: int) {
    0 <= i <= |s| - |sub| && s[i..i + |sub|] == sub
  }

  /** `strings.Contains`. */
  predicate Contains(s: string, sub: string) {
    exists i | 0 <= i <= |s| :: OccursAt(s, sub, i)
  }

  /** Contained is what stands between two texts, and nothing else. */
  lemma ContainsMiddle(a: string, sub: string, b: string)
    ensures Contains(a + sub + b, sub)
  {
    assert OccursAt(a + sub + b, sub, |a|);
  }

  lemma MiddleOfContains(s: string, sub: string) returns (a: string, b: string)
    requires Contains(s, sub)
    ensures s == a + sub + b
  {
    var i :| 0 <= i <= |s| && OccursAt(s, sub, i);
    a, b := s[..i], s[i + |sub|..];
  }

  lemma OccursInSlice(s: string, sub: string, a: nat, b: nat, p: nat)
    requires a <= b <= |s| && p + |sub| <= b - a
    ensures OccursAt(s[a..b], sub, p) <==> OccursAt(s, sub, a + p)
  {
    var x, y := s[a..b][p..p + |sub|], s[a + p..a + p + |sub|];
    assert forall k | 0 <= k < |sub| :: x[k] == y[k];
    assert x == y;
  }

  // ---------------------------------------------------------------- trimming

  /** ASCII white space of `strings.TrimSpace`. */
  predicate IsSpace(c: char) {
    c == ' ' || c == '\t' || c == '\n' || c == '\r' || c == 11 as char || c == 12 as char
  }

  function TrimLeft(s: string): (t: string)
    ensures |t| <= |s|
  {
    if s != "" && IsSpace(s[0]) then TrimLeft(s[1..]) else s
  }

  function TrimRight(s: string): (t: string)
    ensures |t| <= |s|
  {
    if s != "" && IsSpace(s[|s| - 1]) then TrimRight(s[..|s| - 1]) else s
  }

  /** `strings.TrimSpace` on ASCII. */
  function TrimSpace(s: string): string {
    TrimRight(TrimLeft(s))
  }

  predicate AllSpace(s: string) {
    forall k | 0 <= k < |s| :: IsSpace(s[k])
  }

  lemma {:induction false} TrimLeftDrops(s: string)
    ensures var t := TrimLeft(s);
            s == s[..|s| - |t|] + t && AllSpace(s[..|s| - |t|]) && (t != "" ==> !IsSpace(t[0]))
  {
    if s != "" && IsSpace(s[0]) {
      TrimLeftDrops(s[1..]);
      var t := TrimLeft(s[1..]);
      assert s[..|s| - |t|] == [s[0]] + s[1..][..|s| - 1 - |t|];
    }
  }

  lemma {:induction false} TrimRightDrops(s: string)
    ensures var t := TrimRight(s);
            s[..|t|] == t && AllSpace(s[|t|..]) && (t != "" ==> !IsSpace(t[|t| - 1]))
  {
    if s != "" && IsSpace(s[|s| - 1]) {
      var init, last := s[..|s| - 1], s[|s| - 1];
      TrimRightDrops(init);
      var t := TrimRight(init);
      assert s[|t|..] == init[|t|..] + [last];
    }
  }

  /** Trimming cuts white space off both ends and nothing else. */
  lemma TrimSpaceDrops(s: string) returns (left: string, right: string)
    ensures s == left + TrimSpace(s) + right && AllSpace(left) && AllSpace(right)
    ensures var t := TrimSpace(s); t != "" ==> !IsSpace(t[0]) && !IsSpace(t[|t| - 1])
  {
    var u := TrimLeft(s);
    TrimLeftDrops(s);
    TrimRightDrops(u);
    left, right := s[..|s| - |u|], u[|TrimRight(u)|..];
  }

  /** The white space is blank, tab, line feed, vertical tab, form feed and carriage return. */
  ghost predicate OnlyBlanks(s: string) {
    forall k | 0 <= k < |s| :: s[k] == ' ' || 9 <= s[k] as int <= 13
  }

  lemma {:induction false} TrimLeftOf(left: string, t: string)
    requires OnlyBlanks(left) && (t != "" ==> !OnlyBlanks([t[0]]))
    ensures TrimLeft(left + t) == t
  {
    if left != "" {
      assert (left + t)[1..] == left[1..] + t;
      TrimLeftOf(left[1..], t);
    } else {
      assert left + t == t;
      assert t != "" ==> [t[0]][0] == t[0];
    }
  }

  lemma {:induction false} TrimRightOf(t: string, right: string)
    requires OnlyBlanks(right) && (t != "" ==> !OnlyBlanks([t[|t| - 1]]))
    ensures TrimRight(t + right) == t
  {
    if right != "" {
      var n, init, all := |right| - 1, right[..|right| - 1], t + right;
      assert all[|all| - 1] == right[n] && IsSpace(right[n]);
      assert all[..|all| - 1] == t + init;
      TrimRightOf(t, init);
    } else {
      assert t + right == t;
      assert t != "" ==> [t[|t| - 1]][0] == t[|t| - 1];
    }
  }

  /** What is between two stretches of white space is left, when it does not itself begin or end with
      white space. */
  lemma TrimSpaceOf(left: string, t: string, right: string)
    requires OnlyBlanks(left) && OnlyBlanks(right)
    requires t != "" ==> !OnlyBlanks([t[0]]) && !OnlyBlanks([t[|t| - 1]])
    ensures TrimSpace(left + t + right) == t
  {
    assert left + t + right == left + (t + right);
    if t == "" {
      assert left + (t + right) == (left + right) + "";
      TrimLeftOf(left + right, "");
    } else {
      TrimLeftOf(left, t + right);
      TrimRightOf(t, right);
    }
  }

  // ---------------------------------------------------------------- lines

  function DropCR(s: string): string {
    if s != "" && s[|s| - 1] == '\r' then s[..|s| - 1] else s
  }

  /** The texts a `bufio.Scanner` with the default `ScanLines` split delivers for the input `s`. */
  function ScanLines(s: string): seq<string>
    decreases |s|
  {
    if s == "" then [] else
    var i := IndexOf(s, '\n');
    if i == |s| then [DropCR(s)] else [DropCR(s[..i])] + ScanLines(s[i + 1..])
  }

  lemma ScanBeforeNewline(line: string, rest: string)
    requires '\n' !in line
    ensures ScanLines(line + ['\n'] + rest) == [DropCR(line)] + ScanLines(rest)
  {
    Cut(line, '\n', rest);
  }

  lemma ScanAtEnd(line: string)
    requires '\n' !in line
    ensures ScanLines(line) == if line == "" then [] else [DropCR(line)]
  {
    IndexOfIs(line, '\n', |line|);
  }

  /** A line ends before "\n" or "\r\n", the last one also at the end of the text. */
  lemma ScanFirstLine(line: string, rest: string)
    requires '\n' !in line && (line != "" ==> line[|line| - 1] != '\r')
    ensures ScanLines(line + "\n" + rest) == [line] + ScanLines(rest)
    ensures ScanLines(line + "\r\n" + rest) == [line] + ScanLines(rest)
    ensures line != "" ==> ScanLines(line) == [line]
    ensures ScanLines("") == []
  {
    hide ScanLines;
    var ended := line + ['\r'];
    assert DropCR(ended) == line by {
      assert ended[..|line|] == line;
    }
    assert line + "\n" + rest == line + ['\n'] + rest;
    assert line + "\r\n" + rest == ended + ['\n'] + rest;
    ScanBeforeNewline(line, rest);
    ScanBeforeNewline(ended, rest);
    ScanAtEnd(line);
    ScanAtEnd("");
  }

  /** A text that `ScanLines` gives back unchanged when it is written as one line. */
  predicate IsLine(s: string) {
    '\n' !in s && DropCR(s) == s
  }

  function Lines(lines: seq<string>): string {
    if lines == [] then "" else lines[0] + ['\n'] + Lines(lines[1..])
  }

  lemma {:induction false} ScanLinesOfLines(lines: seq<string>)
    requires forall l :: l in lines ==> IsLine(l)
    ensures ScanLines(Lines(lines)) == lines
  {
    if lines != [] {
      var line, rest := lines[0], Lines(lines[1..]);
      assert IsLine(line);
      Cut(line, '\n', rest);
      ScanLinesOfLines(lines[1..]);
      calc {
        ScanLines(Lines(lines));
        ScanLines(line + ['\n'] + rest);
        [DropCR(line)] + ScanLines(rest);
        [line] + lines[1..];
        lines;
      }
    }
  }

  /** Lines ended by "\r\n". */
  function CRLFLines(lines: seq<string>): string {
    if lines == [] then "" else lines[0] + ['\r'] + ['\n'] + CRLFLines(lines[1..])
  }

  lemma {:induction false} ScanLinesOfCRLFLines(lines: seq<string>)
    requires Avoids(lines, '\n')
    ensures ScanLines(CRLFLines(lines)) == lines
  {
    if lines != [] {
      var line, rest := lines[0] + ['\r'], CRLFLines(lines[1..]);
      Cut(line, '\n', rest);
      ScanLinesOfCRLFLines(lines[1..]);
      calc {
        ScanLines(CRLFLines(lines));
        ScanLines(line + ['\n'] + rest);
        [DropCR(line)] + ScanLines(rest);
        { assert line[..|line| - 1] == lines[0]; }
        [lines[0]] + lines[1..];
        lines;
      }
    }
  }

  // ---------------------------------------------------------------- decimal numbers

  predicate IsDigit(c: char) { '0' <= c <= '9' }

  /** `strconv.Itoa` of a non-negative number. */
  function Itoa(n: nat): (s: string)
    ensures s != ""
  {
    if n < 10 then [('0' as int + n) as char] else Itoa(n / 10) + [('0' as int + n % 10) as char]
  }

  predicate AllDigits(s: string) {
    forall k | 0 <= k < |s| :: IsDigit(s[k])
  }

  lemma {:induction false} ItoaDigits(n: nat)
    ensures AllDigits(Itoa(n))
  {
    if 10 <= n {
      ItoaDigits(n / 10);
    }
  }

  datatype Number = Syntax | OutOfRange | Value(n: nat)

  /** The digit loop of `strconv.ParseUint`: the first overflow ends it, even with junk to follow. */
  function ScanDigits(s: string, n: nat): (r: Number)
    ensures r.Value? ==> r.n <= MAX_UINT64 || s == ""
  {
    if s == "" then Value(n)
    else if !IsDigit(s[0]) then Syntax
    else
      var m := n * 10 + (s[0] as int - '0' as int);
      if m > MAX_UINT64 then OutOfRange else ScanDigits(s[1..], m)
  }

  /** The value `strconv.Atoi` returns next to its (here always ignored) error:
      0 for malformed text, the nearest 64-bit integer for numbers out of range. */
  function Atoi(s: string): (v: int)
    ensures -MAX_INT64 - 1 <= v <= MAX_INT64
    ensures s == "" || s[0] != '-' ==> 0 <= v
  {
    var negative := s != "" && s[0] == '-';
    var body := if s != "" && (s[0] == '-' || s[0] == '+') then s[1..] else s;
    if body == "" then 0 else
    match ScanDigits(body, 0)
    case Syntax => 0
    case OutOfRange => if negative then -MAX_INT64 - 1 else MAX_INT64
    case Value(n) =>
      if negative then (if n > MAX_INT64 + 1 then -MAX_INT64 - 1 else 0 - n as int)
      else if n > MAX_INT64 then MAX_INT64 else n
  }

  lemma {:induction false} ScanDigitsOfItoa(n: nat, rest: string)
    requires n <= MAX_UINT64
    ensures ScanDigits(Itoa(n) + rest, 0) == ScanDigits(rest, n)
  {
    if n < 10 {
      assert (Itoa(n) + rest)[1..] == rest;
    } else {
      var last := [('0' as int + n % 10) as char];
      ScanDigitsOfItoa(n / 10, last + rest);
      assert Itoa(n) + rest == Itoa(n / 10) + (last + rest);
      assert (last + rest)[1..] == rest;
      assert n / 10 * 10 + n % 10 == n;
    }
  }

  lemma {:induction false} ScanDigitsOfLarge(n: nat, rest: string)
    requires n > MAX_UINT64
    ensures ScanDigits(Itoa(n) + rest, 0) == OutOfRange
  {
    var last := [('0' as int + n % 10) as char];
    assert Itoa(n) + rest == Itoa(n / 10) + (last + rest);
    assert n / 10 * 10 + n % 10 == n;
    if n / 10 > MAX_UINT64 {
      ScanDigitsOfLarge(n / 10, last + rest);
    } else {
      ScanDigitsOfItoa(n / 10, last + rest);
    }
  }

  /** The nearest 64-bit integer. */
  function Clamp(n: nat): int { if n > MAX_INT64 then MAX_INT64 else n }

  /** Any printed number is read back, or the nearest one that fits. */
  lemma AtoiClamps(n: nat)
    ensures Atoi(Itoa(n)) == Clamp(n)
  {
    assert Itoa(n) + "" == Itoa(n);
    ItoaDigits(n);
    if n <= MAX_UINT64 {
      ScanDigitsOfItoa(n, "");
    } else {
      ScanDigitsOfLarge(n, "");
    }
  }

  /** Decimal round trip through `Itoa` and `Atoi`. */
  lemma AtoiOfItoa(n: nat)
    requires n <= MAX_INT64
    ensures Atoi(Itoa(n)) == n
  {
    ScanDigitsOfItoa(n, "");
    assert Itoa(n) + "" == Itoa(n);
    ItoaDigits(n);
  }

  /** A number followed by a non-digit is malformed as a whole. */
  lemma AtoiOfItoaThenJunk(n: nat, junk: string)
    requires n <= MAX_INT64 && junk != "" && !IsDigit(junk[0])
    ensures Atoi(Itoa(n) + junk) == 0
  {
    ScanDigitsOfItoa(n, junk);
    ItoaDigits(n);
    assert (Itoa(n) + junk)[0] == Itoa(n)[0];
  }

  // ---------------------------------------------------------------- decimal notation

  /** The ten digits. */
  ghost predicate Decimal(s: string) {
    s != "" && forall k | 0 <= k < |s| :: '0' <= s[k] <= '9'
  }

  lemma {:induction false} ScanOneMore(s: string, d: char, n: nat)
    requires (forall k | 0 <= k < |s| :: '0' <= s[k] <= '9') && '0' <= d <= '9' && n <= MAX_UINT64
    ensures !ScanDigits(s, n).Syntax?
    ensures ScanDigits(s + [d], n) ==
              match ScanDigits(s, n)
              case Value(v) =>
                var m := v * 10 + (d as int - '0' as int);
                if m > MAX_UINT64 then OutOfRange else Value(m)
              case r => r
  {
    if s == "" {
      assert (s + [d])[1..] == "";
    } else {
      assert (s + [d])[1..] == s[1..] + [d];
      var m := n * 10 + (s[0] as int - '0' as int);
      if m <= MAX_UINT64 {
        ScanOneMore(s[1..], d, m);
      }
    }
  }

  /** `Atoi` is decimal notation, cut off at the greatest 64-bit integer. */
  lemma AtoiOfDigits(s: string, d: char)
    requires Decimal(s) && '0' <= d <= '9'
    ensures Atoi([d]) == d as int - '0' as int
    ensures var v := 10 * Atoi(s) + (d as int - '0' as int);
            Atoi(s + [d]) == if v > 9223372036854775807 then 9223372036854775807 else v
  {
    ScanOneMore(s, d, 0);
    assert (s + [d])[0] == s[0];
    assert "" + [d] == [d];
    ScanOneMore("", d, 0);
  }

  /** A sign before the digits. */
  lemma AtoiOfSigned(s: string)
    requires Decimal(s) && Atoi(s) < 9223372036854775807
    ensures Atoi("-" + s) == 0 - Atoi(s) && Atoi("+" + s) == Atoi(s)
  {
    ScanOneMore(s, '0', 0);
    assert ("-" + s)[1..] == s && ("+" + s)[1..] == s;
  }

  lemma {:induction false} ScanJunk(s: string, junk: string, n: nat)
    requires (forall k | 0 <= k < |s| :: '0' <= s[k] <= '9') && n <= MAX_UINT64
    requires junk != "" && !('0' <= junk[0] <= '9')
    ensures ScanDigits(s, n).Value? ==> ScanDigits(s + junk, n) == Syntax
  {
    if s == "" {
      assert s + junk == junk;
    } else {
      assert (s + junk)[1..] == s[1..] + junk;
      var m := n * 10 + (s[0] as int - '0' as int);
      if m <= MAX_UINT64 {
        ScanJunk(s[1..], junk, m);
      }
    }
  }

  /** Anything that is no digit makes 0 of the whole. */
  lemma AtoiOfJunk(s: string, junk: string)
    requires Decimal(s) && Atoi(s) < 9223372036854775807 && junk != "" && !('0' <= junk[0] <= '9')
    ensures Atoi(s + junk) == 0
    ensures junk[0] != '+' && junk[0] != '-' ==> Atoi(junk) == 0
    ensures Atoi("") == 0
  {
    ScanOneMore(s, '0', 0);
    ScanJunk(s, junk, 0);
    assert (s + junk)[0] == s[0];
  }

  /** The notation of a number: digits, without a zero in front. */
  lemma {:induction false} ItoaIsDecimal(n: nat)
    ensures Decimal(Itoa(n)) && (n > 0 ==> Itoa(n)[0] != '0')
  {
    ItoaDigits(n);
    if 10 <= n {
      ItoaIsDecimal(n / 10);
    }
  }
}
