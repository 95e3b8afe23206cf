/**
 * The quote-aware line tokenizer of input.go and the three word queries
 * built on it (command name, current word, previous word).
 *
 * A line is a `string` with one offset per character, which matches
 * Go's byte offsets exactly when the line is ASCII.
 */
module Input {
  import opened Wrappers

  /** The bound used when the whole line is scanned. */
  const BashMaxLineSize: int := 4096

  /** Go's `unicode.IsSpace`: the Unicode White_Space characters. */
  predicate IsSpace(c: char) {
    || ('\t' <= c <= '\r')
    || c == ' '
    || c == '\U{0085}' || c == '\U{00A0}' || c == '\U{1680}'
    || ('\U{2000}' <= c <= '\U{200A}')
    || c == '\U{2028}' || c == '\U{2029}' || c == '\U{202F}' || c == '\U{205F}' || c == '\U{3000}'
  }

  /** The four states of the scanner (`BashParseState`). */
  datatype ParseState = Nada | InWord | InQuote | InDblQuote

  /**
   * Where an emitted word lies in the line: `line[start..end]`, and the
   * state in which it was scanned (bare, single- or double-quoted).
   */
  datatype Span = Span(start: nat, end: nat, kind: ParseState)

  /** The scanner's variables after some prefix of the line, plus the spans of the words so far. */
  datatype Scan = Scan(state: ParseState, startOfWord: nat, words: seq<string>, spans: seq<Span>)

  /** One iteration of the scanning loop, on the character at offset `i`. */
  function Step(line: string, i: nat, s: Scan): (r: Scan)
    requires i < |line| && s.startOfWord <= i
    ensures r.startOfWord <= i + 1
    ensures |r.words| - |r.spans| == |s.words| - |s.spans|
  {
    var c := line[i];
    var (state, start, gotWord) :=
      match s.state
      case Nada =>
        if IsSpace(c) then (Nada, s.startOfWord, false)
        else if c == '"' then (InDblQuote, i + 1, false)
        else if c == '\'' then (InQuote, i + 1, false)
        else (InWord, i, false)
      case InWord => (InWord, s.startOfWord, IsSpace(c) || c == '=')
      case InQuote => (InQuote, s.startOfWord, c == '\'')
      case InDblQuote => (InDblQuote, s.startOfWord, c == '"');
    if gotWord then
      Scan(Nada, 0, s.words + [line[start..i]], s.spans + [Span(start, i, state)])
    else
      Scan(state, start, s.words, s.spans)
  }

  /** The scanner after processing the first `k` characters. */
  function ScanTo(line: string, k: nat): (r: Scan)
    requires k <= |line|
    ensures r.startOfWord <= k && |r.words| == |r.spans|
  {
    if k == 0 then Scan(Nada, 0, [], []) else Step(line, k - 1, ScanTo(line, k - 1))
  }

  /**
   * How many characters the loop processes: it stops after the first
   * offset `i` with `i >= maxLen`, so a non-empty line always has its
   * first character processed.
   */
  function Processed(len: nat, maxLen: int): (n: nat)
    ensures n <= len && (len > 0 ==> n > 0)
  {
    if len == 0 then 0
    else if maxLen < 0 then 1
    else if maxLen < len then maxLen + 1
    else len
  }

  /** Whether the word still open after the loop is emitted (only when it does not start at offset 0). */
  predicate Flushes(s: Scan) {
    s.state != Nada && s.startOfWord != 0
  }

  /** The words of `line`, scanning up to offset `maxLen`. */
  function Tokens(line: string, maxLen: int): seq<string> {
    var n := Processed(|line|, maxLen);
    var s := ScanTo(line, n);
    if Flushes(s) then s.words + [line[s.startOfWord..n]] else s.words
  }

  /** Where each word of `Tokens(line, maxLen)` lies in the line. */
  function TokenSpans(line: string, maxLen: int): (r: seq<Span>)
    ensures |r| == |Tokens(line, maxLen)|
  {
    var n := Processed(|line|, maxLen);
    var s := ScanTo(line, n);
    if Flushes(s) then s.spans + [Span(s.startOfWord, n, s.state)] else s.spans
  }

  /** `BashInputToList`: the scanning loop, with Go's post-loop flush. */
  method BashInputToList(cmdLine: string, maxLen: int) returns (list: seq<string>)
    ensures list == Tokens(cmdLine, maxLen)
  {
    list := [];
    var state := Nada;
    var startOfWord: nat := 0;
    var i: nat := 0;
    var n: nat := 0;  // characters processed; Go's range index is n - 1 afterwards
    while n < |cmdLine|
      invariant n <= |cmdLine|
      invariant n > 0 ==> n - 1 < maxLen && i == n - 1
      invariant n == 0 ==> i == 0
      invariant var s := ScanTo(cmdLine, n);
        state == s.state && startOfWord == s.startOfWord && list == s.words
      decreases |cmdLine| - n
    {
      i := n;
      ghost var next := Step(cmdLine, i, ScanTo(cmdLine, i));
      var c := cmdLine[i];
      var gotWord := false;
      match state {
        case Nada =>
          if !IsSpace(c) {
            if c == '"' {
              state := InDblQuote;
              startOfWord := i + 1;
            } else if c == '\'' {
              state := InQuote;
              startOfWord := i + 1;
            } else {
              state := InWord;
              startOfWord := i;
            }
          }
        case InWord =>
          if IsSpace(c) || c == '=' {
            gotWord := true;
          }
        case InQuote =>
          gotWord := c == '\'';
        case InDblQuote =>
          gotWord := c == '"';
      }
      if gotWord {
        list := list + [cmdLine[startOfWord..i]];
        state := Nada;
        startOfWord := 0;
      }
      assert state == next.state && startOfWord == next.startOfWord && list == next.words;
      n := i + 1;
      if i >= maxLen {
        break;
      }
    }
    assert n == Processed(|cmdLine|, maxLen);
    ghost var scanned := ScanTo(cmdLine, n);
    if state != Nada && startOfWord != 0 {
      assert Flushes(scanned) && i + 1 == n;
      list := list + [cmdLine[startOfWord..i + 1]];
    }
  }

  // ---------------------------------------------------------------------
  // What the scan produces
  // ---------------------------------------------------------------------

  /** The shape of a word scanned in state `sp.kind`. */
  ghost predicate KindOk(line: string, sp: Span)
    requires sp.start <= sp.end <= |line|
  {
    match sp.kind
    case Nada => false
    case InWord =>
      && sp.start < sp.end
      && line[sp.start] != '"' && line[sp.start] != '\''
      && (forall j :: sp.start <= j < sp.end ==> !IsSpace(line[j]))
      && (forall j :: sp.start < j < sp.end ==> line[j] != '=')
    case InQuote =>
      && 0 < sp.start && line[sp.start - 1] == '\''
      && (forall j :: sp.start <= j < sp.end ==> line[j] != '\'')
    case InDblQuote =>
      && 0 < sp.start && line[sp.start - 1] == '"'
      && (forall j :: sp.start <= j < sp.end ==> line[j] != '"')
  }

  /** Word `w` is the text of span `sp`, which lies inside the first `bound` characters. */
  ghost predicate SpanOk(line: string, bound: nat, w: string, sp: Span) {
    && sp.start <= sp.end <= bound <= |line|
    && w == line[sp.start..sp.end]
    && KindOk(line, sp)
  }

  /** Every word is the text of its span inside the first `bound` characters; spans run left to right without overlap. */
  ghost predicate SpansOk(line: string, bound: nat, words: seq<string>, spans: seq<Span>) {
    && |words| == |spans|
    && (forall t :: 0 <= t < |spans| ==> SpanOk(line, bound, words[t], spans[t]))
    && (forall t :: 0 < t < |spans| ==> spans[t - 1].end < spans[t].start)
  }

  /** The end of the last span, or 0 when there is none. */
  function LastEnd(spans: seq<Span>): nat {
    if spans == [] then 0 else spans[|spans| - 1].end
  }

  /** The invariant of the scanning loop after `k` characters. */
  ghost predicate ScanOk(line: string, k: nat, s: Scan) {
    && k <= |line|
    && SpansOk(line, k, s.words, s.spans)
    && (s.spans != [] ==> LastEnd(s.spans) < k)
    && (s.state == Nada ==> s.startOfWord == 0)
    && (s.state != Nada ==>
          && s.startOfWord <= k
          && (s.spans != [] ==> LastEnd(s.spans) < s.startOfWord)
          && KindOk(line, Span(s.startOfWord, k, s.state)))
  }

  lemma SpansGrow(line: string, k: nat, words: seq<string>, spans: seq<Span>)
    requires k < |line| && SpansOk(line, k, words, spans)
    ensures SpansOk(line, k + 1, words, spans)
  {
    forall t | 0 <= t < |spans| ensures SpanOk(line, k + 1, words[t], spans[t]) {
      assert SpanOk(line, k, words[t], spans[t]);
    }
  }

  lemma SpansAppend(line: string, k: nat, words: seq<string>, spans: seq<Span>, w: string, sp: Span)
    requires SpansOk(line, k, words, spans) && SpanOk(line, k, w, sp)
    requires spans != [] ==> LastEnd(spans) < sp.start
    ensures SpansOk(line, k, words + [w], spans + [sp])
  {
    var ws, sps := words + [w], spans + [sp];
    forall t | 0 <= t < |sps| ensures SpanOk(line, k, ws[t], sps[t]) {
      if t < |spans| {
        assert ws[t] == words[t] && sps[t] == spans[t];
      }
    }
  }

  /** The open word grows by one character that does not end it. */
  lemma OpenWordGrows(line: string, st: nat, i: nat, kind: ParseState)
    requires st <= i < |line| && kind != Nada
    requires KindOk(line, Span(st, i, kind))
    requires kind == InWord ==> !IsSpace(line[i]) && line[i] != '='
    requires kind == InQuote ==> line[i] != '\''
    requires kind == InDblQuote ==> line[i] != '"'
    ensures KindOk(line, Span(st, i + 1, kind))
  {
  }

  /** A character that starts a word in state `Nada` opens a word of the right shape. */
  lemma WordOpens(line: string, i: nat)
    requires i < |line| && !IsSpace(line[i])
    ensures var s := Step(line, i, Scan(Nada, 0, [], []));
      KindOk(line, Span(s.startOfWord, i + 1, s.state))
  {
  }

  lemma StepOk(line: string, i: nat, s: Scan)
    requires i < |line| && s.startOfWord <= i
    requires ScanOk(line, i, s)
    ensures ScanOk(line, i + 1, Step(line, i, s))
  {
    var r := Step(line, i, s);
    SpansGrow(line, i, s.words, s.spans);
    if s.state == Nada {
      if !IsSpace(line[i]) {
        WordOpens(line, i);
        assert Step(line, i, Scan(Nada, 0, [], [])).startOfWord == r.startOfWord;
      }
    } else if |r.spans| > |s.spans| {
      var sp := Span(s.startOfWord, i, s.state);
      assert r.spans == s.spans + [sp] && r.words == s.words + [line[s.startOfWord..i]];
      SpansAppend(line, i + 1, s.words, s.spans, line[s.startOfWord..i], sp);
    } else {
      OpenWordGrows(line, s.startOfWord, i, s.state);
    }
  }

  lemma {:induction false} ScanToOk(line: string, k: nat)
    requires k <= |line|
    ensures ScanOk(line, k, ScanTo(line, k))
  {
    if k > 0 {
      ScanToOk(line, k - 1);
      StepOk(line, k - 1, ScanTo(line, k - 1));
    }
  }

  /**
   * Every emitted word is the slice of the scanned prefix given by its
   * span, the spans run strictly left to right, and each word has the
   * shape of the state it was scanned in.
   */
  lemma TokensOk(line: string, maxLen: int)
    ensures SpansOk(line, Processed(|line|, maxLen), Tokens(line, maxLen), TokenSpans(line, maxLen))
  {
    var n := Processed(|line|, maxLen);
    var s := ScanTo(line, n);
    ScanToOk(line, n);
    if Flushes(s) {
      SpansAppend(line, n, s.words, s.spans, line[s.startOfWord..n], Span(s.startOfWord, n, s.state));
    }
  }

  /**
   * Every word is a contiguous slice `line[start..end]` of the scanned
   * prefix, and the words come out left to right without overlapping.
   */
  lemma TokensAreOrderedSlices(line: string, maxLen: int)
    ensures var ws, sps := Tokens(line, maxLen), TokenSpans(line, maxLen);
      && |ws| == |sps|
      && (forall t :: 0 <= t < |sps| ==>
            sps[t].start <= sps[t].end <= Processed(|line|, maxLen) && ws[t] == line[sps[t].start..sps[t].end])
      && (forall t :: 0 < t < |sps| ==> sps[t - 1].end < sps[t].start)
  {
    TokensOk(line, maxLen);
  }

  /**
   * A bare word is non-empty, does not start with a quote, holds no
   * whitespace, and holds no `=` after its first character.
   */
  lemma BareWordsHaveNoDelimiters(line: string, maxLen: int, t: nat)
    requires t < |TokenSpans(line, maxLen)| && TokenSpans(line, maxLen)[t].kind == InWord
    ensures var w := Tokens(line, maxLen)[t];
      && |w| > 0 && w[0] != '"' && w[0] != '\''
      && (forall j :: 0 <= j < |w| ==> !IsSpace(w[j]))
      && (forall j :: 1 <= j < |w| ==> w[j] != '=')
  {
    TokensOk(line, maxLen);
    var sp := TokenSpans(line, maxLen)[t];
    var w := Tokens(line, maxLen)[t];
    assert forall j :: 0 <= j < |w| ==> w[j] == line[sp.start + j];
  }

  /**
   * A quoted word begins just after its opening quote and contains no
   * quote of its own kind (the closing quote is not part of it).
   */
  lemma QuotedWordsExcludeQuotes(line: string, maxLen: int, t: nat)
    requires t < |TokenSpans(line, maxLen)|
    ensures var sp, w := TokenSpans(line, maxLen)[t], Tokens(line, maxLen)[t];
      && sp.start <= sp.end <= |line|
      && (sp.kind == InQuote ==> 0 < sp.start && line[sp.start - 1] == '\'' && '\'' !in w)
      && (sp.kind == InDblQuote ==> 0 < sp.start && line[sp.start - 1] == '"' && '"' !in w)
  {
    TokensOk(line, maxLen);
    var sp := TokenSpans(line, maxLen)[t];
    var w := Tokens(line, maxLen)[t];
    assert forall j :: 0 <= j < |w| ==> w[j] == line[sp.start + j];
  }

  // ---------------------------------------------------------------------
  // Only the scanned prefix matters
  // ---------------------------------------------------------------------

  /** One step reads only the characters before and at offset `i`. */
  lemma StepPrefix(line: string, m: nat, i: nat, s: Scan)
    requires i < m <= |line| && s.startOfWord <= i
    ensures Step(line, i, s) == Step(line[..m], i, s)
  {
    assert line[i] == line[..m][i];
    assert line[s.startOfWord..i] == line[..m][s.startOfWord..i];
  }

  lemma {:induction false} ScanToPrefix(line: string, m: nat, k: nat)
    requires k <= m <= |line|
    ensures ScanTo(line, k) == ScanTo(line[..m], k)
  {
    if k > 0 {
      ScanToPrefix(line, m, k - 1);
      StepPrefix(line, m, k - 1, ScanTo(line, k - 1));
    }
  }

  /** The result depends only on the characters the loop processes. */
  lemma TokensIgnoreRest(line: string, maxLen: int)
    ensures var n := Processed(|line|, maxLen);
      Tokens(line, maxLen) == Tokens(line[..n], maxLen)
  {
    var n := Processed(|line|, maxLen);
    assert Processed(|line[..n]|, maxLen) == n;
    ScanToPrefix(line, n, n);
    assert line[..n][..n] == line[..n];
    var s := ScanTo(line, n);
    assert line[s.startOfWord..n] == line[..n][s.startOfWord..n];
  }

  /** Two bounds that process the same number of characters give the same words. */
  lemma SameProcessedSameTokens(line: string, m1: int, m2: int, n: nat)
    requires n == Processed(|line|, m1) == Processed(|line|, m2)
    ensures Tokens(line, m1) == Tokens(line, m2)
  {
    var s := ScanTo(line, n);
    assert Tokens(line, m1) == if Flushes(s) then s.words + [line[s.startOfWord..n]] else s.words;
    assert Tokens(line, m2) == if Flushes(s) then s.words + [line[s.startOfWord..n]] else s.words;
  }

  /** Characters after offset `maxLen` never change the words. */
  lemma CharactersBeyondLimitIgnored(a: string, b: string, maxLen: int)
    requires 0 <= maxLen < |a| && maxLen < |b|
    requires a[..maxLen + 1] == b[..maxLen + 1]
    ensures Tokens(a, maxLen) == Tokens(b, maxLen)
  {
    TokensIgnoreRest(a, maxLen);
    TokensIgnoreRest(b, maxLen);
  }

  // ---------------------------------------------------------------------
  // Lines without words
  // ---------------------------------------------------------------------

  lemma {:induction false} BlankScan(line: string, k: nat)
    requires k <= |line|
    requires forall j :: 0 <= j < |line| ==> IsSpace(line[j])
    ensures ScanTo(line, k) == Scan(Nada, 0, [], [])
  {
    if k > 0 {
      BlankScan(line, k - 1);
    }
  }

  /** An empty or all-whitespace line has no words. */
  lemma BlankLineHasNoWords(line: string, maxLen: int)
    requires forall j :: 0 <= j < |line| ==> IsSpace(line[j])
    ensures Tokens(line, maxLen) == []
  {
    BlankScan(line, Processed(|line|, maxLen));
  }

  lemma {:induction false} UnbrokenScan(line: string, k: nat)
    requires 0 < k <= |line|
    requires line[0] != '"' && line[0] != '\''
    requires forall j :: 0 <= j < |line| ==> !IsSpace(line[j]) && line[j] != '='
    ensures ScanTo(line, k) == Scan(InWord, 0, [], [])
  {
    if k > 1 {
      UnbrokenScan(line, k - 1);
    }
  }

  /**
   * An unterminated word that starts at offset 0 is dropped: a line
   * that is one bare word, such as `ls`, has no words at all.
   */
  lemma SingleBareWordDropped(line: string, maxLen: int)
    requires |line| > 0 ==> line[0] != '"' && line[0] != '\''
    requires forall j :: 0 <= j < |line| ==> !IsSpace(line[j]) && line[j] != '='
    ensures Tokens(line, maxLen) == []
  {
    if |line| > 0 {
      UnbrokenScan(line, Processed(|line|, maxLen));
    }
  }

  /** The state in which a word opened by character `c` is scanned. */
  function OpenKind(c: char): ParseState {
    if c == '"' then InDblQuote else if c == '\'' then InQuote else InWord
  }

  /** Where the text of a word opened at offset `p` begins: after its quote, or at `p` itself. */
  function OpenStart(line: string, p: nat): nat
    requires p < |line|
  {
    if line[p] == '"' || line[p] == '\'' then p + 1 else p
  }

  /**
   * An unterminated word whose text does not begin at offset 0 is still
   * emitted: when a word opens at offset `p` between words and nothing up
   * to the end of the processed prefix closes it, the words are those
   * before `p` followed by `line[start..n]`.
   */
  lemma UnterminatedWordFlushed(line: string, maxLen: int, p: nat)
    requires p < Processed(|line|, maxLen)
    requires ScanTo(line, p).state == Nada && !IsSpace(line[p]) && OpenStart(line, p) > 0
    requires forall j :: p < j < Processed(|line|, maxLen) ==> !EndsWord(OpenKind(line[p]), line[j])
    ensures Tokens(line, maxLen) == ScanTo(line, p).words + [line[OpenStart(line, p)..Processed(|line|, maxLen)]]
  {
    var n := Processed(|line|, maxLen);
    var open := ScanOpenWord(line, p, n);
    TokensOfOpenScan(line, maxLen, n, open);
  }

  /** A word opened at `p` and not closed before `n` is still open after `n` characters. */
  lemma ScanOpenWord(line: string, p: nat, n: nat) returns (open: Scan)
    requires p < n <= |line|
    requires ScanTo(line, p).state == Nada && !IsSpace(line[p])
    requires forall j :: p < j < n ==> !EndsWord(OpenKind(line[p]), line[j])
    ensures open == Scan(OpenKind(line[p]), OpenStart(line, p), ScanTo(line, p).words, ScanTo(line, p).spans)
    ensures ScanTo(line, n) == open
  {
    var s := ScanTo(line, p);
    open := Scan(OpenKind(line[p]), OpenStart(line, p), s.words, s.spans);
    WordOpensAt(line, p);
    ScanRun(line, p + 1, n, open);
  }

  /** When the scan ends inside a word that does not start at offset 0, that word is added. */
  lemma TokensOfOpenScan(line: string, maxLen: int, n: nat, s: Scan)
    requires n == Processed(|line|, maxLen) && ScanTo(line, n) == s && Flushes(s)
    ensures Tokens(line, maxLen) == s.words + [line[s.startOfWord..n]]
  {
    var t := ScanTo(line, n);
    assert Tokens(line, maxLen) == if Flushes(t) then t.words + [line[t.startOfWord..n]] else t.words;
  }

  /** Between words, a character that is not whitespace opens a word. */
  lemma WordOpensAt(line: string, p: nat)
    requires p < |line| && ScanTo(line, p).state == Nada && !IsSpace(line[p])
    ensures var s := ScanTo(line, p);
      ScanTo(line, p + 1) == Scan(OpenKind(line[p]), OpenStart(line, p), s.words, s.spans)
  {
  }

  // ---------------------------------------------------------------------
  // Worked examples
  // ---------------------------------------------------------------------

  /** In a state other than `Nada`, characters that do not end the word leave the scanner unchanged. */
  lemma {:induction false} ScanRun(line: string, a: nat, b: nat, s: Scan)
    requires a <= b <= |line|
    requires ScanTo(line, a) == s && s.state != Nada
    requires forall j :: a <= j < b ==> !EndsWord(s.state, line[j])
    ensures ScanTo(line, b) == s
  {
    if a < b {
      ScanRun(line, a, b - 1, s);
    }
  }

  /** Whether `c` closes a word being scanned in `state`. */
  predicate EndsWord(state: ParseState, c: char) {
    match state
    case Nada => false
    case InWord => IsSpace(c) || c == '='
    case InQuote => c == '\''
    case InDblQuote => c == '"'
  }

  /** `line[a..b]` is a bare word closed by the delimiter at `b`. */
  predicate BareWordAt(line: string, a: nat, b: nat) {
    && a < b < |line|
    && !IsSpace(line[a]) && line[a] != '"' && line[a] != '\''
    && (forall j :: a < j < b ==> !IsSpace(line[j]) && line[j] != '=')
    && (IsSpace(line[b]) || line[b] == '=')
  }

  /** `line[a..b + 1]` is a word in single quotes. */
  predicate QuotedWordAt(line: string, a: nat, b: nat) {
    && a < b < |line|
    && line[a] == '\'' && line[b] == '\''
    && (forall j :: a < j < b ==> line[j] != '\'')
  }

  /** Scanning a bare word from state `Nada` emits it and returns to `Nada`. */
  lemma ScanBareWord(line: string, a: nat, b: nat, s: Scan)
    requires BareWordAt(line, a, b) && ScanTo(line, a) == s && s.state == Nada
    ensures ScanTo(line, b + 1) == Scan(Nada, 0, s.words + [line[a..b]], s.spans + [Span(a, b, InWord)])
  {
    ScanRun(line, a + 1, b, Scan(InWord, a, s.words, s.spans));
  }

  /** Scanning a single-quoted word from state `Nada` emits its inside and returns to `Nada`. */
  lemma ScanQuotedWord(line: string, a: nat, b: nat, s: Scan)
    requires QuotedWordAt(line, a, b) && ScanTo(line, a) == s && s.state == Nada
    ensures ScanTo(line, b + 1) == Scan(Nada, 0, s.words + [line[a + 1..b]], s.spans + [Span(a + 1, b, InQuote)])
  {
    ScanRun(line, a + 1, b, Scan(InQuote, a + 1, s.words, s.spans));
  }

  /** `line[a..b]` is `w`, checked character by character. */
  lemma {:induction false} SliceIs(line: string, a: nat, b: nat, w: string)
    requires a <= b <= |line| && b - a == |w|
    requires forall j :: 0 <= j < |w| ==> line[a + j] == w[j]
    ensures line[a..b] == w
  {
    forall j | 0 <= j < |w|
      ensures line[a..b][j] == w[j]
    {
      assert line[a..b][j] == line[a + j];
    }
  }

  const RunLine := "run --mode=fast 'two words'"

  lemma RunLineHead(line: string)
    requires line == RunLine
    ensures BareWordAt(line, 0, 3) && BareWordAt(line, 4, 10)
  {
  }

  lemma RunLineTail(line: string)
    requires line == RunLine
    ensures BareWordAt(line, 11, 15) && QuotedWordAt(line, 16, 26)
  {
  }

  lemma RunLineWords(line: string)
    requires line == RunLine
    ensures line[0..3] == "run" && line[4..10] == "--mode" && line[11..15] == "fast" && line[17..26] == "two words"
  {
    SliceIs(line, 0, 3, "run");
    SliceIs(line, 4, 10, "--mode");
    SliceIs(line, 11, 15, "fast");
    SliceIs(line, 17, 26, "two words");
  }

  /** The scan of a line shaped like `RunLine`: three bare words, then a quoted one ending the line. */
  lemma ScanRunLineShape(line: string)
    requires |line| == 27
    requires BareWordAt(line, 0, 3) && BareWordAt(line, 4, 10)
    requires BareWordAt(line, 11, 15) && QuotedWordAt(line, 16, 26)
    ensures Tokens(line, BashMaxLineSize) == [line[0..3], line[4..10], line[11..15], line[17..26]]
  {
    ScanBareWord(line, 0, 3, Scan(Nada, 0, [], []));
    ScanBareWord(line, 4, 10, ScanTo(line, 4));
    ScanBareWord(line, 11, 15, ScanTo(line, 11));
    ScanQuotedWord(line, 16, 26, ScanTo(line, 16));
  }

  /** `=` ends a bare word and single quotes group two words into one. */
  lemma ExampleRunLine(line: string)
    requires line == RunLine
    ensures Tokens(line, BashMaxLineSize) == ["run", "--mode", "fast", "two words"]
  {
    RunLineHead(line);
    RunLineTail(line);
    RunLineWords(line);
    ScanRunLineShape(line);
  }

  const DeployLine := "deploy service --env "

  lemma DeployLineShape(line: string)
    requires line == DeployLine
    ensures |line| == 21
    ensures BareWordAt(line, 0, 6) && BareWordAt(line, 7, 14) && BareWordAt(line, 15, 20)
  {
  }

  lemma DeployLineWords(line: string)
    requires line == DeployLine
    ensures line[0..6] == "deploy" && line[7..14] == "service" && line[15..20] == "--env"
  {
    SliceIs(line, 0, 6, "deploy");
    SliceIs(line, 7, 14, "service");
    SliceIs(line, 15, 20, "--env");
  }

  /**
   * With the cursor after a trailing space, the last word is the one
   * before the space: the scan never opens an empty word.
   */
  lemma ExampleDeployLine(line: string)
    requires line == DeployLine
    ensures Tokens(line, 21) == ["deploy", "service", "--env"]
    ensures CurrentWord(line, 21) == Some("--env") && PreviousWord(line, 21) == Some("service")
    ensures CommandName(line) == Some("deploy")
  {
    DeployLineShape(line);
    DeployLineWords(line);
    ScanBareWord(line, 0, 6, Scan(Nada, 0, [], []));
    ScanBareWord(line, 7, 14, ScanTo(line, 7));
    ScanBareWord(line, 15, 20, ScanTo(line, 15));
  }

  const OpenQuoteLine := "run 'two"

  lemma OpenQuoteLineShape(line: string)
    requires line == OpenQuoteLine
    ensures |line| == 8 && BareWordAt(line, 0, 3) && line[4] == '\''
    ensures forall j :: 4 < j < 8 ==> line[j] != '\''
    ensures line[0..3] == "run" && line[5..8] == "two"
  {
    SliceIs(line, 0, 3, "run");
    SliceIs(line, 5, 8, "two");
  }

  /** A quote left open at the end of the line still yields the word after it. */
  lemma ExampleOpenQuote(line: string)
    requires line == OpenQuoteLine
    ensures Tokens(line, BashMaxLineSize) == ["run", "two"]
  {
    OpenQuoteLineShape(line);
    ScanBareWord(line, 0, 3, Scan(Nada, 0, [], []));
    UnterminatedWordFlushed(line, BashMaxLineSize, 4);
  }

  /** A line that is a single bare word yields no words. */
  lemma ExampleLs()
    ensures Tokens("ls", BashMaxLineSize) == []
  {
    var line := "ls";
    assert |line| == 2 && line[0] == 'l' && line[1] == 's';
    ScanRun(line, 1, 2, Scan(InWord, 0, [], []));
  }

  // ---------------------------------------------------------------------
  // The word queries
  // ---------------------------------------------------------------------

  /** The command name: the first word of the whole-line scan. */
  function CommandName(cmdLine: string): (r: Option<string>)
    ensures r.None? <==> Tokens(cmdLine, BashMaxLineSize) == []
    ensures r.Some? ==>
      var sps := TokenSpans(cmdLine, BashMaxLineSize);
      && sps[0].start <= sps[0].end <= |cmdLine|
      && r.value == cmdLine[sps[0].start..sps[0].end]
      && (forall t :: 0 < t < |sps| ==> sps[0].end < sps[t].start)
  {
    var list := Tokens(cmdLine, BashMaxLineSize);
    TokensAreOrderedSlices(cmdLine, BashMaxLineSize);
    OrderedSpansAfterFirst(TokenSpans(cmdLine, BashMaxLineSize));
    if |list| > 0 then Some(list[0]) else None
  }

  /** The current word: the last word of the scan bounded by the cursor. */
  function CurrentWord(cmdLine: string, cursorPosition: int): (r: Option<string>)
    ensures r.None? <==> Tokens(cmdLine, cursorPosition) == []
    ensures r.Some? ==>
      var sps := TokenSpans(cmdLine, cursorPosition);
      var last := sps[|sps| - 1];
      && last.start <= last.end <= Processed(|cmdLine|, cursorPosition)
      && r.value == cmdLine[last.start..last.end]
      && (forall t :: 0 <= t < |sps| - 1 ==> sps[t].end < last.start)
  {
    var list := Tokens(cmdLine, cursorPosition);
    TokensAreOrderedSlices(cmdLine, cursorPosition);
    OrderedSpansBeforeLast(TokenSpans(cmdLine, cursorPosition));
    if |list| > 0 then Some(list[|list| - 1]) else None
  }

  /** The previous word: the second-to-last word of the scan bounded by the cursor. */
  function PreviousWord(cmdLine: string, cursorPosition: int): (r: Option<string>)
    ensures r.None? <==> |Tokens(cmdLine, cursorPosition)| < 2
    ensures r.Some? ==>
      var sps := TokenSpans(cmdLine, cursorPosition);
      var prev := sps[|sps| - 2];
      && prev.start <= prev.end <= Processed(|cmdLine|, cursorPosition)
      && prev.end < sps[|sps| - 1].start
      && r.value == cmdLine[prev.start..prev.end]
  {
    var list := Tokens(cmdLine, cursorPosition);
    TokensAreOrderedSlices(cmdLine, cursorPosition);
    if |list| > 1 then Some(list[|list| - 2]) else None
  }

  lemma {:induction false} OrderedSpansAfterFirst(sps: seq<Span>)
    requires forall t :: 0 < t < |sps| ==> sps[t - 1].end < sps[t].start
    requires forall t :: 0 <= t < |sps| ==> sps[t].start <= sps[t].end
    ensures forall t :: 0 < t < |sps| ==> sps[0].end < sps[t].start
  {
    if |sps| > 1 {
      OrderedSpansAfterFirst(sps[1..]);
      forall t | 0 < t < |sps|
        ensures sps[0].end < sps[t].start
      {
        if t > 1 {
          assert sps[1..][t - 1] == sps[t];
        }
      }
    }
  }

  lemma {:induction false} OrderedSpansBeforeLast(sps: seq<Span>)
    requires forall t :: 0 < t < |sps| ==> sps[t - 1].end < sps[t].start
    requires forall t :: 0 <= t < |sps| ==> sps[t].start <= sps[t].end
    ensures forall t :: 0 <= t < |sps| - 1 ==> sps[t].end < sps[|sps| - 1].start
  {
    if |sps| > 1 {
      var init := sps[..|sps| - 1];
      OrderedSpansBeforeLast(init);
      forall t | 0 <= t < |sps| - 1
        ensures sps[t].end < sps[|sps| - 1].start
      {
        if t < |sps| - 2 {
          assert init[t] == sps[t] && init[|init| - 1] == sps[|sps| - 2];
        }
      }
    }
  }
}
