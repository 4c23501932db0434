/** The tokenizer of the prompt reactor and the `bufio.Scanner` loop that drives it. */
module CommandScanner {
  import opened GoStrings

  predicate IsDelimiter(b: char) { b == '\n' || b == '?' || b == ':' }

  predicate DelimiterFree(s: string) {
    forall k | 0 <= k < |s| :: s[k] != '\n' && s[k] != '?' && s[k] != ':'
  }

  // ---------------------------------------------------------------- the one-shot split

  /** Position of the first delimiter, `|s|` when there is none. */
  function FirstDelimiter(s: string): (i: nat)
    ensures i <= |s|
  {
    if s == "" || IsDelimiter(s[0]) then 0 else 1 + FirstDelimiter(s[1..])
  }

  lemma {:induction false} FirstDelimiterFinds(s: string)
    ensures var i := FirstDelimiter(s); DelimiterFree(s[..i]) && (i < |s| ==> IsDelimiter(s[i]))
  {
    if s != "" && !IsDelimiter(s[0]) {
      var i := FirstDelimiter(s[1..]);
      FirstDelimiterFinds(s[1..]);
      assert s[..i + 1] == [s[0]] + s[1..][..i];
    }
  }

  lemma {:induction false} FirstDelimiterIs(s: string, i: nat)
    requires i <= |s| && DelimiterFree(s[..i]) && (i < |s| ==> IsDelimiter(s[i]))
    ensures FirstDelimiter(s) == i
  {
    if 0 < i {
      assert s[0] == s[..i][0];
      assert s[1..][..i - 1] == s[..i][1..];
      FirstDelimiterIs(s[1..], i - 1);
    }
  }

  /** The pieces between the delimiters of a whole stream; the last one only when it is not empty. */
  function Tokens(s: string): seq<string>
    decreases |s|
  {
    if s == "" then [] else
    var i := FirstDelimiter(s);
    if i == |s| then [s] else [s[..i]] + Tokens(s[i + 1..])
  }

  datatype Segment = Segment(text: string, delimiter: char)

  function Stream(segments: seq<Segment>, tail: string): string {
    if segments == [] then tail
    else segments[0].text + [segments[0].delimiter] + Stream(segments[1..], tail)
  }

  function SegmentTexts(segments: seq<Segment>): seq<string> {
    if segments == [] then [] else [segments[0].text] + SegmentTexts(segments[1..])
  }

  predicate WellCut(segments: seq<Segment>, tail: string) {
    && DelimiterFree(tail)
    && forall k | 0 <= k < |segments| ::
         var d := segments[k].delimiter;
         DelimiterFree(segments[k].text) && (d == '\n' || d == '?' || d == ':')
  }

  /** Any delimiter-free pieces put together with delimiters are the tokens of what they make up. */
  lemma {:induction false} TokensOfStream(segments: seq<Segment>, tail: string)
    requires WellCut(segments, tail)
    ensures Tokens(Stream(segments, tail)) == SegmentTexts(segments) + if tail == "" then [] else [tail]
  {
    if segments == [] {
      FirstDelimiterIs(tail, |tail|);
      assert tail[..|tail|] == tail;
    } else {
      var text, rest := segments[0].text, Stream(segments[1..], tail);
      var s := text + [segments[0].delimiter] + rest;
      assert s[..|text|] == text && s[|text| + 1..] == rest;
      FirstDelimiterIs(s, |text|);
      TokensOfStream(segments[1..], tail);
    }
  }

  /** Every stream is made up in that way: its tokens and the dropped delimiters rebuild it. */
  lemma {:induction false} CutStream(s: string) returns (segments: seq<Segment>, tail: string)
    ensures WellCut(segments, tail) && Stream(segments, tail) == s
    decreases |s|
  {
    var i := FirstDelimiter(s);
    FirstDelimiterFinds(s);
    if i == |s| {
      segments, tail := [], s;
      assert s[..i] == s;
    } else {
      var later;
      later, tail := CutStream(s[i + 1..]);
      segments := [Segment(s[..i], s[i])] + later;
      assert segments[1..] == later;
      assert s == s[..i] + [s[i]] + s[i + 1..];
    }
  }

  // ---------------------------------------------------------------- the split function

  /** What `SplitRedisCommand` returns; `final` is `bufio.ErrFinalToken`. */
  datatype SplitResult = SplitResult(advance: nat, token: Option<string>, final: bool)

  function SplitOf(data: string, atEOF: bool): (r: SplitResult)
    ensures r.advance <= |data|
  {
    var i := FirstDelimiter(data);
    if i < |data| then SplitResult(i + 1, Some(data[..i]), false)
    else if atEOF && data != "" then SplitResult(|data|, Some(data), true)
    else SplitResult(0, None, false)
  }

  method SplitRedisCommand(data: string, atEOF: bool) returns (r: SplitResult)
    ensures r == SplitOf(data, atEOF)
  {
    if atEOF && |data| == 0 {
      return SplitResult(0, None, false);
    }
    var idx := -1;
    for i := 0 to |data|
      invariant idx == -1 && DelimiterFree(data[..i])
    {
      if IsDelimiter(data[i]) {
        idx := i;
        break;
      }
      assert data[..i + 1] == data[..i] + [data[i]];
    }
    FirstDelimiterIs(data, if idx == -1 then |data| else idx);
    if idx >= 0 {
      return SplitResult(idx + 1, Some(data[0..idx]), false);
    }
    if atEOF {
      if |data| > 0 {
        return SplitResult(|data|, Some(data), true);
      } else {
        assert false;
      }
    }
    return SplitResult(0, None, false);
  }

  /** The text before the first '\n', '?' or ':' is a token whatever follows it, and text without any of
      them is one only at the end of the stream. */
  lemma FirstToken(text: string, d: char, rest: string, atEOF: bool)
    requires forall k | 0 <= k < |text| :: text[k] != '\n' && text[k] != '?' && text[k] != ':'
    requires d == '\n' || d == '?' || d == ':'
    ensures SplitOf(text + [d] + rest, atEOF) == SplitResult(|text| + 1, Some(text), false)
    ensures Tokens(text + [d] + rest) == [text] + Tokens(rest)
    ensures SplitOf(text, false) == SplitResult(0, None, false)
    ensures text != "" ==> SplitOf(text, true) == SplitResult(|text|, Some(text), true) && Tokens(text) == [text]
    ensures Tokens("") == [] && SplitOf("", atEOF) == SplitResult(0, None, false)
  {
    var s := text + [d] + rest;
    assert s[..|text|] == text && s[|text| + 1..] == rest && s[|text|] == d;
    FirstDelimiterIs(s, |text|);
    assert text[..|text|] == text;
    FirstDelimiterIs(text, |text|);
  }

  // ---------------------------------------------------------------- the scanner

  function Concat(parts: seq<string>): string {
    if parts == [] then "" else parts[0] + Concat(parts[1..])
  }

  /** A scanner and the reads its reader will answer. The end of the stream is reported with the last
      data (`eofWithLast`) or by a read of its own. */
  datatype Source = Source(buf: string, chunks: seq<string>, eofWithLast: bool, atEOF: bool, done: bool)

  function Fresh(chunks: seq<string>, eofWithLast: bool): Source {
    Source("", chunks, eofWithLast, false, false)
  }

  predicate Consistent(src: Source) { src.atEOF ==> src.chunks == [] }

  /** The tokens the scanner has still to deliver. */
  function Pending(src: Source): seq<string> {
    if src.done then [] else Tokens(src.buf + Concat(src.chunks))
  }

  /** The scanner asks its split function only when it holds data or the stream has ended. */
  function Offer(src: Source): Option<string> {
    if src.done || (src.buf == "" && !src.atEOF) then None else SplitOf(src.buf, src.atEOF).token
  }

  function AfterToken(src: Source): Source
    requires Offer(src).Some?
  {
    var r := SplitOf(src.buf, src.atEOF);
    if r.final then src.(done := true) else src.(buf := src.buf[r.advance..])
  }

  function AfterRead(src: Source): Source {
    if src.chunks == [] then src.(atEOF := true)
    else src.(buf := src.buf + src.chunks[0], chunks := src.chunks[1..], atEOF := src.eofWithLast && |src.chunks| == 1)
  }

  /** A token is offered as soon as the buffer holds it, and it is the next token of the stream. */
  lemma TokenTaken(src: Source)
    requires Consistent(src) && Offer(src).Some?
    ensures Consistent(AfterToken(src)) && Pending(src) == [Offer(src).value] + Pending(AfterToken(src))
  {
    var rest := Concat(src.chunks);
    var s := src.buf + rest;
    var i := FirstDelimiter(src.buf);
    FirstDelimiterFinds(src.buf);
    if i < |src.buf| {
      assert s[..i] == src.buf[..i] && s[i + 1..] == src.buf[i + 1..] + rest;
      FirstDelimiterIs(s, i);
    } else {
      assert s == src.buf;
    }
  }

  /** No read is waited for when the buffer holds a delimiter: what is before it is offered, and the rest
      behind it stays buffered. */
  lemma OfferedAtOnce(src: Source, text: string, d: char, rest: string)
    requires !src.done && src.buf == text + [d] + rest
    requires forall k | 0 <= k < |text| :: text[k] != '\n' && text[k] != '?' && text[k] != ':'
    requires d == '\n' || d == '?' || d == ':'
    ensures Offer(src) == Some(text) && AfterToken(src) == src.(buf := rest)
  {
    hide SplitOf, Tokens;
    FirstToken(text, d, rest, src.atEOF);
  }

  lemma ReadKeepsPending(src: Source)
    requires Consistent(src) && !src.done && !src.atEOF
    ensures Consistent(AfterRead(src)) && Pending(AfterRead(src)) == Pending(src)
  {
    if src.chunks != [] {
      assert src.buf + Concat(src.chunks) == src.buf + src.chunks[0] + Concat(src.chunks[1..]);
    }
  }

  lemma NothingPending(src: Source)
    requires Consistent(src) && (src.done || (src.atEOF && Offer(src).None?))
    ensures Pending(src) == []
  {
  }

  class Scanner {
    var buf: string
    var chunks: seq<string>
    const eofWithLast: bool
    var atEOF: bool
    var done: bool

    function View(): Source
      reads this
    {
      Source(buf, chunks, eofWithLast, atEOF, done)
    }

    constructor (chunks: seq<string>, eofWithLast: bool)
      ensures View() == Fresh(chunks, eofWithLast)
    {
      this.buf, this.chunks, this.eofWithLast, this.atEOF, this.done := "", chunks, eofWithLast, false, false;
    }

    /** `Scan` followed by `Text`: the next pending token, or false when there is none. */
    method Scan() returns (ok: bool, token: string)
      requires Consistent(View())
      modifies this
      ensures Consistent(View())
      ensures ok <==> old(Pending(View())) != []
      ensures if ok then old(Pending(View())) == [token] + Pending(View()) else Pending(View()) == []
      ensures old(Offer(View())).Some? ==> ok && token == old(Offer(View())).value && View() == old(AfterToken(View()))
    {
      hide Pending, SplitOf;
      if done {
        NothingPending(View());
        return false, "";
      }
      while true
        invariant Consistent(View()) && !done && Pending(View()) == old(Pending(View()))
        invariant old(Offer(View())).Some? ==> View() == old(View())
        decreases |chunks|, !atEOF
      {
        ghost var src := View();
        if |buf| > 0 || atEOF {
          var r := SplitRedisCommand(buf, atEOF);
          if r.token.Some? {
            TokenTaken(src);
            if r.final {
              done := true;
            } else {
              buf := buf[r.advance..];
            }
            assert View() == AfterToken(src);
            return true, r.token.value;
          }
        }
        if atEOF {
          NothingPending(src);
          return false, "";
        }
        ReadKeepsPending(src);
        if chunks == [] {
          atEOF := true;
        } else {
          buf := buf + chunks[0];
          atEOF := eofWithLast && |chunks| == 1;
          chunks := chunks[1..];
        }
        assert View() == AfterRead(src);
      }
    }
  }

  lemma FreshPending(chunks: seq<string>, eofWithLast: bool)
    ensures Consistent(Fresh(chunks, eofWithLast)) && Pending(Fresh(chunks, eofWithLast)) == Tokens(Concat(chunks))
  {
    assert "" + Concat(chunks) == Concat(chunks);
  }

  /** Chunking independence: however a stream is cut into reads, scanning it to the end delivers the
      tokens of the one-shot split of the whole stream. */
  method ScanAll(chunks: seq<string>, eofWithLast: bool) returns (tokens: seq<string>)
    ensures tokens == Tokens(Concat(chunks))
  {
    tokens := [];
    var scanner := new Scanner(chunks, eofWithLast);
    FreshPending(chunks, eofWithLast);
    hide *;
    while true
      invariant Consistent(scanner.View()) && tokens + Pending(scanner.View()) == Tokens(Concat(chunks))
      decreases |Pending(scanner.View())|
    {
      ghost var pending := Pending(scanner.View());
      var ok, token := scanner.Scan();
      if !ok {
        return;
      }
      assert tokens + pending == tokens + [token] + Pending(scanner.View());
      tokens := tokens + [token];
    }
  }

  // ---------------------------------------------------------------- no key is lost

  /** Where token `k` begins in the stream. */
  function TokenStart(s: string, k: nat): (p: nat)
    requires k < |Tokens(s)|
    decreases k
  {
    if k == 0 then 0 else
    var i := FirstDelimiter(s);
    i + 1 + TokenStart(s[i + 1..], k - 1)
  }

  lemma {:induction false} TokenIsSlice(s: string, k: nat)
    requires k < |Tokens(s)|
    ensures OccursAt(s, Tokens(s)[k], TokenStart(s, k)) && DelimiterFree(Tokens(s)[k])
    decreases k
  {
    hide DelimiterFree, IsDelimiter, OccursAt;
    var i := FirstDelimiter(s);
    FirstDelimiterFinds(s);
    if k > 0 {
      var rest := s[i + 1..];
      TokenIsSlice(rest, k - 1);
      var token := Tokens(rest)[k - 1];
      assert Tokens(s) == [s[..i]] + Tokens(rest);
      OccursInTail(s, token, i + 1, TokenStart(rest, k - 1));
    } else {
      assert i == |s| ==> s[..i] == s;
      PrefixOccurs(s, i);
    }
  }

  lemma OccursInTail(s: string, sub: string, a: nat, p: nat)
    requires a <= |s| && OccursAt(s[a..], sub, p)
    ensures OccursAt(s, sub, a + p)
  {
    assert s[a..|s|] == s[a..];
    OccursInSlice(s, sub, a, |s|, p);
  }

  lemma PrefixOccurs(s: string, i: nat)
    requires i <= |s|
    ensures OccursAt(s, s[..i], 0)
  {
  }

  /** Tokens lie apart: each begins behind the delimiter that ended the one before. */
  lemma {:induction false} TokensLieApart(s: string, j: nat, k: nat)
    requires j < k < |Tokens(s)|
    ensures TokenStart(s, j) + |Tokens(s)[j]| < TokenStart(s, k)
    decreases j
  {
    var i := FirstDelimiter(s);
    if j > 0 {
      TokensLieApart(s[i + 1..], j - 1, k - 1);
    }
  }

  predicate Inside(s: string, p: nat, n: nat, k: nat)
    requires k < |Tokens(s)|
  {
    TokenStart(s, k) <= p && p + n <= TokenStart(s, k) + |Tokens(s)[k]|
  }

  lemma NoDelimiterWithin(s: string, key: string, p: nat, i: nat)
    requires DelimiterFree(key) && OccursAt(s, key, p) && p <= i < p + |key|
    ensures !IsDelimiter(s[i])
  {
    assert s[i] == s[p..p + |key|][i - p];
  }

  lemma InFirstToken(s: string, key: string, p: nat)
    requires key != "" && OccursAt(s, key, p) && p + |key| <= FirstDelimiter(s)
    ensures Tokens(s) != [] && Inside(s, p, |key|, 0) && OccursAt(Tokens(s)[0], key, p)
  {
    var i := FirstDelimiter(s);
    OccursInSlice(s, key, 0, i, p);
    assert s[0..i] == s[..i];
    assert i == |s| ==> s[..i] == s;
  }

  lemma InLaterToken(s: string, key: string, p: nat, j: nat)
    requires FirstDelimiter(s) < p <= |s| && j < |Tokens(s[FirstDelimiter(s) + 1..])|
    requires var rest, q := s[FirstDelimiter(s) + 1..], p - FirstDelimiter(s) - 1;
             Inside(rest, q, |key|, j) && OccursAt(Tokens(rest)[j], key, q - TokenStart(rest, j))
    ensures j + 1 < |Tokens(s)| && Inside(s, p, |key|, j + 1)
    ensures OccursAt(Tokens(s)[j + 1], key, p - TokenStart(s, j + 1))
  {
    hide OccursAt;
    var i := FirstDelimiter(s);
    assert Tokens(s) == [s[..i]] + Tokens(s[i + 1..]);
  }

  /** An occurrence of a delimiter-free text lies inside one token. */
  lemma {:induction false} OccurrenceInToken(s: string, key: string, p: nat) returns (k: nat)
    requires key != "" && DelimiterFree(key) && OccursAt(s, key, p)
    ensures k < |Tokens(s)| && Inside(s, p, |key|, k) && OccursAt(Tokens(s)[k], key, p - TokenStart(s, k))
    decreases |s|
  {
    hide DelimiterFree, IsDelimiter, Tokens, TokenStart, Inside, FirstDelimiter;
    var i := FirstDelimiter(s);
    FirstDelimiterFinds(s);
    if p <= i < p + |key| {
      NoDelimiterWithin(s, key, p, i);
    }
    if p + |key| <= i {
      k := 0;
      InFirstToken(s, key, p);
      StartOfFirst(s);
    } else {
      assert s[i + 1..|s|] == s[i + 1..];
      OccursInSlice(s, key, i + 1, |s|, p - i - 1);
      var j := OccurrenceInToken(s[i + 1..], key, p - i - 1);
      InLaterToken(s, key, p, j);
      k := j + 1;
    }
  }

  lemma StartOfFirst(s: string)
    requires Tokens(s) != []
    ensures TokenStart(s, 0) == 0
  {
  }

  predicate Trimmed(key: string) {
    key != "" && !IsSpace(key[0]) && !IsSpace(key[|key| - 1])
  }

  /** A key without white space at its ends is found after trimming exactly when it was there before. */
  lemma TrimKeepsKey(s: string, key: string)
    requires Trimmed(key)
    ensures Contains(TrimSpace(s), key) <==> Contains(s, key)
  {
    hide TrimSpace;
    var left, right := TrimSpaceDrops(s);
    var t, a := TrimSpace(s), |left|;
    if Contains(s, key) {
      var i :| 0 <= i <= |s| && OccursAt(s, key, i);
      assert s[i] == key[0] && s[i + |key| - 1] == key[|key| - 1];
      assert forall k | 0 <= k < a :: s[k] == left[k];
      assert forall k | a + |t| <= k < |s| :: s[k] == right[k - a - |t|];
      assert s[a..a + |t|] == t;
      OccursInSlice(s, key, a, a + |t|, i - a);
    }
    if Contains(t, key) {
      var i :| 0 <= i <= |t| && OccursAt(t, key, i);
      assert s[a..a + |t|] == t;
      OccursInSlice(s, key, a, a + |t|, i);
    }
  }

  /** The keys a reactor can be trusted with. */
  predicate GoodKey(key: string) { Trimmed(key) && DelimiterFree(key) }

  /** No prompt is lost to tokenizing or trimming: an occurrence in the stream lies inside exactly one
      token, and that token, trimmed, contains the key. */
  lemma NoKeyLost(s: string, key: string, p: nat) returns (k: nat)
    requires GoodKey(key) && OccursAt(s, key, p)
    ensures k < |Tokens(s)| && Contains(TrimSpace(Tokens(s)[k]), key)
    ensures forall j | 0 <= j < |Tokens(s)| :: Inside(s, p, |key|, j) <==> j == k
  {
    hide TrimSpace, Tokens, TokenStart;
    k := OccurrenceInToken(s, key, p);
    TrimKeepsKey(Tokens(s)[k], key);
    forall j | 0 <= j < |Tokens(s)| && Inside(s, p, |key|, j) ensures j == k {
      if j < k {
        TokensLieApart(s, j, k);
      } else if k < j {
        TokensLieApart(s, k, j);
      }
    }
  }

  /** ... and a trimmed token contains the key only where its segment of the stream does. */
  lemma NoKeyInvented(s: string, key: string, k: nat) returns (p: nat)
    requires GoodKey(key) && k < |Tokens(s)| && Contains(TrimSpace(Tokens(s)[k]), key)
    ensures OccursAt(s, key, p) && Inside(s, p, |key|, k)
  {
    hide TrimSpace, Tokens, TokenStart;
    var token, a := Tokens(s)[k], TokenStart(s, k);
    TrimKeepsKey(token, key);
    TokenIsSlice(s, k);
    var i :| 0 <= i <= |token| && OccursAt(token, key, i);
    p := a + i;
    OccursInSlice(s, key, a, a + |token|, i);
  }
}
