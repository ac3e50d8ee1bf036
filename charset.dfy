/**
 * `DetermineEncoding`: the charset sniffing heuristic. The two .NET regular expressions it uses
 * are written out as searches over the text, in the order the backtracking matcher tries
 * candidates: the leftmost start first, lazy `.*?` shortest first, greedy `(.*)` longest first.
 * In a .NET pattern without options `.` matches every character except '\n'.
 */
module Charset {
  import opened Wrappers

  /** An entry of the encoding registry; only its identity matters here. */
  datatype Encoding = Encoding(webName: string)

  const Ascii := Encoding("us-ascii")

  // Lengths of the literal parts of the two patterns.
  const QuotedLen := 9    // `charset="`
  const CharsetLen := 8   // `charset=`
  const ContentLen := 9   // `content="`
  const MetaLen := 6      // `<meta `

  /** `charset=` occurs at `i`. */
  predicate CharsetLeadAt(s: string, i: nat) {
    i + CharsetLen <= |s| && s[i] == 'c' && s[i + 1] == 'h' && s[i + 2] == 'a' && s[i + 3] == 'r'
    && s[i + 4] == 's' && s[i + 5] == 'e' && s[i + 6] == 't' && s[i + 7] == '='
  }

  /** `charset="` occurs at `i`. */
  predicate QuotedLeadAt(s: string, i: nat) {
    CharsetLeadAt(s, i) && i + QuotedLen <= |s| && s[i + 8] == '"'
  }

  /** `content="` occurs at `i`. */
  predicate ContentLeadAt(s: string, i: nat) {
    i + ContentLen <= |s| && s[i] == 'c' && s[i + 1] == 'o' && s[i + 2] == 'n' && s[i + 3] == 't'
    && s[i + 4] == 'e' && s[i + 5] == 'n' && s[i + 6] == 't' && s[i + 7] == '=' && s[i + 8] == '"'
  }

  /** `<meta ` occurs at `i`. */
  predicate MetaLeadAt(s: string, i: nat) {
    i + MetaLen <= |s| && s[i] == '<' && s[i + 1] == 'm' && s[i + 2] == 'e' && s[i + 3] == 't'
    && s[i + 4] == 'a' && s[i + 5] == ' '
  }

  /** `s[i..j]` holds no newline, so a `.*` may consume it: `j` does not pass the end of the line. */
  predicate OneLine(s: string, i: nat, j: nat) {
    i <= j <= |s| && j <= LineEnd(s, i)
  }

  /** `(.*)"` starting at `from` can match with its closing quote at `j`. */
  predicate QuoteCloses(s: string, from: nat, j: nat) {
    OneLine(s, from, j) && j < |s| && s[j] == '"'
  }

  /** `charset="(.*)"` matches at `i` with its closing quote at `j`. */
  predicate QuotedMatch(s: string, i: nat, j: nat) {
    QuotedLeadAt(s, i) && QuoteCloses(s, i + QuotedLen, j)
  }

  /** `.*?charset=(.*)"` matches from `from`, with `charset=` at `q` and the closing quote at `j`. */
  predicate CharsetAfter(s: string, from: nat, q: nat, j: nat) {
    OneLine(s, from, q) && CharsetLeadAt(s, q) && QuoteCloses(s, q + CharsetLen, j)
  }

  /** `.*?content=".*?charset=(.*)"` matches from `from`, with `content="` at `p`. */
  predicate ContentAfter(s: string, from: nat, p: nat, q: nat, j: nat) {
    OneLine(s, from, p) && ContentLeadAt(s, p) && CharsetAfter(s, p + ContentLen, q, j)
  }

  /** `<meta .*?content=".*?charset=(.*)"` matches at `i`. */
  predicate MetaMatch(s: string, i: nat, p: nat, q: nat, j: nat) {
    MetaLeadAt(s, i) && ContentAfter(s, i + MetaLen, p, q, j)
  }

  /** A match of the first pattern: where it starts and where its closing quote is. */
  datatype QuotedSpan = QuotedSpan(start: nat, close: nat)

  /** A match of the second pattern: `<meta `, `content="`, `charset=` and the closing quote. */
  datatype MetaSpan = MetaSpan(tag: nat, content: nat, charset: nat, close: nat)

  /** The first newline at or after `k`, or the end of the text. */
  function LineEnd(s: string, k: nat): (e: nat)
    requires k <= |s|
    decreases |s| - k
    ensures k <= e <= |s|
    ensures forall m: nat :: k <= m < e ==> s[m] != '\n'
    ensures e < |s| ==> s[e] == '\n'
  {
    if k == |s| || s[k] == '\n' then k else LineEnd(s, k + 1)
  }

  /** The last quote in `s[lo..hi]`. */
  function LastQuote(s: string, lo: nat, hi: nat): (r: Option<nat>)
    requires lo <= hi <= |s|
    decreases hi - lo
    ensures r.Some? ==> lo <= r.value < hi && s[r.value] == '"'
    ensures r.Some? ==> forall k: nat :: r.value < k < hi ==> s[k] != '"'
    ensures r.None? ==> forall k: nat :: lo <= k < hi ==> s[k] != '"'
  {
    if hi == lo then None
    else if s[hi - 1] == '"' then Some(hi - 1)
    else LastQuote(s, lo, hi - 1)
  }

  /** The greedy `(.*)"` from `from`: the longest match, which ends at the last quote of the line. */
  function GreedyClose(s: string, from: nat): (r: Option<nat>)
    requires from <= |s|
    ensures r.Some? ==> QuoteCloses(s, from, r.value)
    ensures r.Some? ==> forall j: nat :: r.value < j ==> !QuoteCloses(s, from, j)
    ensures r.None? ==> forall j: nat :: !QuoteCloses(s, from, j)
  {
    LastQuote(s, from, LineEnd(s, from))
  }

  /** Leftmost match of `charset="(.*)"` starting at or after `i`. */
  function FindQuoted(s: string, i: nat): (r: Option<QuotedSpan>)
    requires i <= |s|
    decreases |s| - i
    ensures r.Some? ==> i <= r.value.start && QuotedMatch(s, r.value.start, r.value.close)
    ensures r.Some? ==> forall a: nat, b: nat :: i <= a < r.value.start ==> !QuotedMatch(s, a, b)
    ensures r.Some? ==> forall b: nat :: r.value.close < b ==> !QuotedMatch(s, r.value.start, b)
    ensures r.None? ==> forall a: nat, b: nat :: i <= a ==> !QuotedMatch(s, a, b)
  {
    if i == |s| then None
    else if QuotedLeadAt(s, i) && GreedyClose(s, i + QuotedLen).Some? then
      Some(QuotedSpan(i, GreedyClose(s, i + QuotedLen).value))
    else
      assert forall b: nat :: !QuotedMatch(s, i, b);
      FindQuoted(s, i + 1)
  }

  /** The lazy `.*?charset=(.*)"` from `from`, trying `charset=` at `q`, `q + 1`, ... */
  function LazyCharset(s: string, from: nat, q: nat): (r: Option<(nat, nat)>)
    requires OneLine(s, from, q)
    decreases |s| - q
    ensures r.Some? ==> q <= r.value.0 && CharsetAfter(s, from, r.value.0, r.value.1)
    ensures r.Some? ==> forall c: nat, b: nat :: q <= c < r.value.0 ==> !CharsetAfter(s, from, c, b)
    ensures r.Some? ==> forall b: nat :: r.value.1 < b ==> !CharsetAfter(s, from, r.value.0, b)
    ensures r.None? ==> forall c: nat, b: nat :: q <= c ==> !CharsetAfter(s, from, c, b)
  {
    if q == LineEnd(s, from) then
      None
    else if CharsetLeadAt(s, q) && GreedyClose(s, q + CharsetLen).Some? then
      Some((q, GreedyClose(s, q + CharsetLen).value))
    else
      assert forall b: nat :: !CharsetAfter(s, from, q, b);
      LazyCharset(s, from, q + 1)
  }

  /** The lazy `.*?content=".*?charset=(.*)"` from `from`, trying `content="` at `p`, `p + 1`, ... */
  function LazyContent(s: string, from: nat, p: nat): (r: Option<(nat, nat, nat)>)
    requires OneLine(s, from, p)
    decreases |s| - p
    ensures r.Some? ==> p <= r.value.0 && ContentAfter(s, from, r.value.0, r.value.1, r.value.2)
    ensures r.Some? ==> forall c: nat, d: nat, b: nat :: p <= c < r.value.0 ==> !ContentAfter(s, from, c, d, b)
    ensures r.Some? ==> forall d: nat, b: nat :: d < r.value.1 ==> !ContentAfter(s, from, r.value.0, d, b)
    ensures r.Some? ==> forall b: nat :: r.value.2 < b ==> !ContentAfter(s, from, r.value.0, r.value.1, b)
    ensures r.None? ==> forall c: nat, d: nat, b: nat :: p <= c ==> !ContentAfter(s, from, c, d, b)
  {
    if p == LineEnd(s, from) then
      NoContentAtLineEnd(s, from, p);
      None
    else if ContentLeadAt(s, p) && LazyCharset(s, p + ContentLen, p + ContentLen).Some? then
      var m := LazyCharset(s, p + ContentLen, p + ContentLen).value;
      ContentAt(s, from, p);
      Some((p, m.0, m.1))
    else
      NoContentAt(s, from, p);
      LazyContent(s, from, p + 1)
  }

  /** Once the line has ended, `content="` can no longer be reached. */
  lemma NoContentAtLineEnd(s: string, from: nat, p: nat)
    requires OneLine(s, from, p) && p == LineEnd(s, from)
    ensures forall c: nat, d: nat, b: nat :: p <= c ==> !ContentAfter(s, from, c, d, b)
  {
  }

  /** `content="` at `p` followed by a lazy `charset=` match: the match starts at `p`, with those choices. */
  lemma ContentAt(s: string, from: nat, p: nat)
    requires OneLine(s, from, p) && p < LineEnd(s, from)
    requires ContentLeadAt(s, p) && LazyCharset(s, p + ContentLen, p + ContentLen).Some?
    ensures var m := LazyCharset(s, p + ContentLen, p + ContentLen).value;
      && ContentAfter(s, from, p, m.0, m.1)
      && (forall d: nat, b: nat :: d < m.0 ==> !ContentAfter(s, from, p, d, b))
      && (forall b: nat :: m.1 < b ==> !ContentAfter(s, from, p, m.0, b))
  {
  }

  /** A position without `content="`, or whose `content="` no `charset=` follows, starts no match. */
  lemma NoContentAt(s: string, from: nat, p: nat)
    requires OneLine(s, from, p) && p < LineEnd(s, from)
    requires !(ContentLeadAt(s, p) && LazyCharset(s, p + ContentLen, p + ContentLen).Some?)
    ensures forall d: nat, b: nat :: !ContentAfter(s, from, p, d, b)
  {
  }

  /**
   * `<meta .*?content=".*?charset=(.*)"` anchored at `i`: the positions of `content="`, `charset=`
   * and the closing quote, each chosen the way the backtracking matcher chooses them.
   */
  function MetaAt(s: string, i: nat): (r: Option<(nat, nat, nat)>)
    requires i <= |s|
    ensures r.Some? ==> MetaMatch(s, i, r.value.0, r.value.1, r.value.2)
    ensures r.Some? ==> forall c: nat, d: nat, b: nat :: c < r.value.0 ==> !MetaMatch(s, i, c, d, b)
    ensures r.Some? ==> forall d: nat, b: nat :: d < r.value.1 ==> !MetaMatch(s, i, r.value.0, d, b)
    ensures r.Some? ==> forall b: nat :: r.value.2 < b ==> !MetaMatch(s, i, r.value.0, r.value.1, b)
    ensures r.None? ==> forall c: nat, d: nat, b: nat :: !MetaMatch(s, i, c, d, b)
  {
    if MetaLeadAt(s, i) then LazyContent(s, i + MetaLen, i + MetaLen) else None
  }

  /** Leftmost match of `<meta .*?content=".*?charset=(.*)"` starting at or after `i`. */
  function FindMeta(s: string, i: nat): (r: Option<MetaSpan>)
    requires i <= |s|
    decreases |s| - i
    ensures r.Some? ==> i <= r.value.tag <= |s|
    ensures r.Some? ==> MetaAt(s, r.value.tag) == Some((r.value.content, r.value.charset, r.value.close))
    ensures r.Some? ==> forall a: nat, c: nat, d: nat, b: nat :: i <= a < r.value.tag ==> !MetaMatch(s, a, c, d, b)
    ensures r.None? ==> forall a: nat, c: nat, d: nat, b: nat :: i <= a ==> !MetaMatch(s, a, c, d, b)
  {
    if i == |s| then None
    else if MetaAt(s, i).Some? then
      var m := MetaAt(s, i).value;
      Some(MetaSpan(i, m.0, m.1, m.2))
    else
      assert forall c: nat, d: nat, b: nat :: !MetaMatch(s, i, c, d, b);
      FindMeta(s, i + 1)
  }

  /** The value of the `charset` group: the first pattern if it matches, else the second, else none. */
  function CapturedName(html: string): Option<string> {
    match FindQuoted(html, 0)
    case Some(m) => Some(html[m.start + QuotedLen .. m.close])
    case None =>
      match FindMeta(html, 0)
      case Some(m) => Some(html[m.charset + CharsetLen .. m.close])
      case None => None
  }

  /** Position of the first `c` in `s`. */
  function IndexOf(s: string, c: char): (k: nat)
    requires c in s
    ensures k < |s| && s[k] == c && c !in s[..k]
  {
    if s[0] == c then 0
    else
      var k := 1 + IndexOf(s[1..], c);
      assert s[..k] == [s[0]] + s[1..][..k - 1];
      k
  }

  /** The captured name cut at its first space. */
  function TruncateAtSpace(name: string): (r: string)
    ensures ' ' !in r
    ensures r <= name
    ensures ' ' in name ==> |r| < |name| && name[|r|] == ' '
    ensures ' ' !in name ==> r == name
  {
    if ' ' in name then name[..IndexOf(name, ' ')] else name
  }

  /** The encoding name `DetermineEncoding` looks up, if either pattern matched. */
  function EncodingName(html: string): Option<string> {
    match CapturedName(html)
    case Some(n) => Some(TruncateAtSpace(n))
    case None => None
  }

  /**
   * `DetermineEncoding(html)`. `registry` stands for `Encoding.GetEncoding`: a name outside
   * its domain is a lookup that throws, which the C# code turns into null (`None`).
   */
  function DetermineEncoding(html: string, registry: map<string, Encoding>): (r: Option<Encoding>)
    ensures r.Some? ==> CapturedName(html).Some? && r.value in registry.Values
  {
    match EncodingName(html)
    case Some(name) => if name in registry then Some(registry[name]) else None
    case None => None
  }

  /**
   * The match the backtracking matcher reports for `charset="(.*)"`: it starts at `a`, no match
   * starts earlier, and its closing quote `b` is the last one any match at `a` could use.
   */
  ghost predicate QuotedWinner(html: string, a: nat, b: nat) {
    && QuotedMatch(html, a, b)
    && (forall a': nat, b': nat :: a' < a ==> !QuotedMatch(html, a', b'))
    && (forall b': nat :: b < b' ==> !QuotedMatch(html, a, b'))
  }

  /**
   * When `charset="..."` occurs, the meta pattern is never consulted: the name is the group of the
   * leftmost occurrence, closed at its greedy (last) quote.
   */
  lemma QuotedPatternFirst(html: string, i: nat, j: nat)
    requires QuotedMatch(html, i, j)
    ensures exists a: nat, b: nat ::
      a <= i && QuotedWinner(html, a, b) && CapturedName(html) == Some(html[a + QuotedLen .. b])
  {
    var m := FindQuoted(html, 0).value;
    assert m.start <= i && QuotedMatch(html, m.start, m.close);
    assert QuotedWinner(html, m.start, m.close);
    assert CapturedName(html) == Some(html[m.start + QuotedLen .. m.close]);
  }

  /**
   * The match the backtracking matcher reports for `<meta .*?content=".*?charset=(.*)"`: it starts
   * at `a`, no match starts earlier, and `c`, `d`, `b` are the positions it picks there.
   */
  ghost predicate MetaWinner(html: string, a: nat, c: nat, d: nat, b: nat) {
    && MetaMatch(html, a, c, d, b) && MetaAt(html, a) == Some((c, d, b))
    && (forall a': nat, c': nat, d': nat, b': nat :: a' < a ==> !MetaMatch(html, a', c', d', b'))
  }

  /**
   * Only when `charset="..."` never occurs does the meta pattern decide: the name comes from its
   * leftmost match, with the lazy and greedy choices the backtracking matcher makes there.
   */
  lemma MetaPatternAsFallback(html: string, i: nat, p: nat, q: nat, j: nat)
    requires forall a: nat, b: nat :: !QuotedMatch(html, a, b)
    requires MetaMatch(html, i, p, q, j)
    ensures exists a: nat, c: nat, d: nat, b: nat ::
      a <= i && MetaWinner(html, a, c, d, b) && CapturedName(html) == Some(html[d + CharsetLen .. b])
  {
    assert FindQuoted(html, 0).None?;
    var m := FindMeta(html, 0).value;
    assert m.tag <= i && MetaAt(html, m.tag) == Some((m.content, m.charset, m.close));
    assert MetaWinner(html, m.tag, m.content, m.charset, m.close);
    NameFromMeta(html);
  }

  /** With no quoted match, the name is the group of the meta match the search returns. */
  lemma NameFromMeta(html: string)
    requires FindQuoted(html, 0).None? && FindMeta(html, 0).Some?
    ensures CapturedName(html) == Some(html[FindMeta(html, 0).value.charset + CharsetLen .. FindMeta(html, 0).value.close])
  {
  }

  /** Neither pattern matches exactly when there is no name, and then the result is null. */
  lemma NoMarkerMeansNoEncoding(html: string, registry: map<string, Encoding>)
    ensures CapturedName(html).None? <==>
      (forall a: nat, b: nat :: !QuotedMatch(html, a, b)) && (forall a: nat, c: nat, d: nat, b: nat :: !MetaMatch(html, a, c, d, b))
    ensures CapturedName(html).None? ==> DetermineEncoding(html, registry).None?
  {
  }

  /** The looked-up name never contains a space and is a prefix of the captured text. */
  lemma EncodingNameHasNoSpace(html: string)
    requires EncodingName(html).Some?
    ensures ' ' !in EncodingName(html).value
    ensures EncodingName(html).value <= CapturedName(html).value
  {
  }

  /** A name the registry does not know gives null instead of an exception; a known one gives its entry. */
  lemma LookupFailureGivesNull(html: string, registry: map<string, Encoding>)
    ensures DetermineEncoding(html, registry).Some? <==>
      EncodingName(html).Some? && EncodingName(html).value in registry
    ensures DetermineEncoding(html, registry).Some? ==>
      DetermineEncoding(html, registry).value == registry[EncodingName(html).value]
  {
  }

  /**
   * The greedy group runs to the last quote of the line, so a second quoted attribute after the
   * charset leaks into the name, and the cut at the first space leaves a trailing quote behind.
   */
  lemma GreedyGroupKeepsTrailingQuote()
    ensures EncodingName("charset=\"a\" b=\"c\"") == Some("a\"")
  {
    var s := "charset=\"a\" b=\"c\"";
    assert QuotedLeadAt(s, 0);
    assert GreedyClose(s, 9) == Some(16);
    var n := s[9..16];
    assert CapturedName(s) == Some(n);
    assert n[0] == 'a' && n[1] == '"' && n[2] == ' ';
    assert IndexOf(n, ' ') == 2;
    assert n[..2] == "a\"";
  }

  /** A text without `charset=` has no encoding name, so `DetermineEncoding` is null whatever the registry. */
  lemma NoCharsetMarkerGivesNoName(html: string, registry: map<string, Encoding>)
    requires forall k: nat :: !CharsetLeadAt(html, k)
    ensures EncodingName(html).None?
    ensures DetermineEncoding(html, registry).None?
  {
    NoMarkerMeansNoEncoding(html, registry);
  }

  // The example pages below are concrete texts. Each is spelled as a concatenation of pieces of at
  // most eight characters so that the prover can compute the character at a given index. The
  // `if k == 0 {} else if k == 1 {} ...` chains in their lemmas split a statement about every
  // index into one case per index, each of which the prover then settles by computation.

  /** A page with no charset declaration at all. */
  const PlainPage: string := "<html><b" + "ody>Hell" + "o</body>" + "</html>"

  lemma PlainPageHasNoEncoding(registry: map<string, Encoding>)
    ensures DetermineEncoding(PlainPage, registry).None?
  {
    var s := PlainPage;
    forall k: nat | k < |s|
      ensures s[k] != 'c'
    {
      if k == 0 {} else if k == 1 {} else if k == 2 {} else if k == 3 {} else if k == 4 {} else if k == 5 {} else if k == 6 {} else if k == 7 {} else if k == 8 {} else if k == 9 {} else if k == 10 {} else if k == 11 {} else if k == 12 {} else if k == 13 {} else if k == 14 {} else if k == 15 {} else if k == 16 {} else if k == 17 {} else if k == 18 {} else if k == 19 {} else if k == 20 {} else if k == 21 {} else if k == 22 {} else if k == 23 {} else if k == 24 {} else if k == 25 {} else if k == 26 {} else if k == 27 {} else if k == 28 {} else if k == 29 {} else if k == 30 {}
    }
    NoCharsetMarkerGivesNoName(s, registry);
  }

  /** The HTML5 declaration `<meta charset="utf-8" />`. */
  const MetaCharsetPage: string := "<meta ch" + "arset=\"u" + "tf-8\" />"

  /** The first pattern reads `<meta charset="utf-8" />` as `utf-8`: the quote before ` />` closes the group. */
  lemma MetaCharsetAttribute()
    ensures EncodingName(MetaCharsetPage) == Some("utf-8")
  {
    var s := MetaCharsetPage;
    forall k: nat | k < |s|
      ensures s[k] != '\n' && (k < 6 ==> s[k] != 'c') && (20 < k ==> s[k] != '"')
    {
      if k == 0 {} else if k == 1 {} else if k == 2 {} else if k == 3 {} else if k == 4 {} else if k == 5 {} else if k == 6 {} else if k == 7 {} else if k == 8 {} else if k == 9 {} else if k == 10 {} else if k == 11 {} else if k == 12 {} else if k == 13 {} else if k == 14 {} else if k == 15 {} else if k == 16 {} else if k == 17 {} else if k == 18 {} else if k == 19 {} else if k == 20 {} else if k == 21 {} else if k == 22 {} else if k == 23 {}
    }
    assert LineEnd(s, 15) == |s|;
    assert QuotedMatch(s, 6, 20);
    var m := FindQuoted(s, 0).value;
    assert m.start == 6;
    assert m.close == 20;
    assert s[15..20] == "utf-8";
  }

  /** The HTML 4 declaration through `http-equiv="Content-Type"`. */
  const MetaContentTypePage: string := "<meta ht" + "tp-equiv" + "=\"Conten" + "t-Type\" " + "content=" + "\"text/ht"
    + "ml; char" + "set=ISO-" + "8859-1\">"

  /** Where the letters the patterns look for occur in `MetaContentTypePage`. */
  lemma MetaContentTypeLetters()
    ensures |MetaContentTypePage| == 72
    ensures forall k: nat :: k < |MetaContentTypePage| ==> MetaContentTypePage[k] != '\n'
    ensures forall k: nat :: k < |MetaContentTypePage| && MetaContentTypePage[k] == 'c' ==> k == 32 || k == 52
    ensures forall k: nat :: k < |MetaContentTypePage| && MetaContentTypePage[k] == '"' ==> k == 17 || k == 30 || k == 40 || k == 70
    ensures forall k: nat :: k < |MetaContentTypePage| && MetaContentTypePage[k] == ' ' ==> k == 5 || k == 31 || k == 51
  {
    var s := MetaContentTypePage;
    forall k: nat | k < |s|
      ensures s[k] != '\n'
      ensures s[k] == 'c' ==> k == 32 || k == 52
      ensures s[k] == '"' ==> k == 17 || k == 30 || k == 40 || k == 70
      ensures s[k] == ' ' ==> k == 5 || k == 31 || k == 51
    {
      if k == 0 {} else if k == 1 {} else if k == 2 {} else if k == 3 {} else if k == 4 {} else if k == 5 {} else if k == 6 {} else if k == 7 {} else if k == 8 {} else if k == 9 {} else if k == 10 {} else if k == 11 {} else if k == 12 {} else if k == 13 {} else if k == 14 {} else if k == 15 {} else if k == 16 {} else if k == 17 {} else if k == 18 {} else if k == 19 {} else if k == 20 {} else if k == 21 {} else if k == 22 {} else if k == 23 {} else if k == 24 {} else if k == 25 {} else if k == 26 {} else if k == 27 {} else if k == 28 {} else if k == 29 {} else if k == 30 {} else if k == 31 {} else if k == 32 {} else if k == 33 {} else if k == 34 {} else if k == 35 {} else if k == 36 {} else if k == 37 {} else if k == 38 {} else if k == 39 {} else if k == 40 {} else if k == 41 {} else if k == 42 {} else if k == 43 {} else if k == 44 {} else if k == 45 {} else if k == 46 {} else if k == 47 {} else if k == 48 {} else if k == 49 {} else if k == 50 {} else if k == 51 {} else if k == 52 {} else if k == 53 {} else if k == 54 {} else if k == 55 {} else if k == 56 {} else if k == 57 {} else if k == 58 {} else if k == 59 {} else if k == 60 {} else if k == 61 {} else if k == 62 {} else if k == 63 {} else if k == 64 {} else if k == 65 {} else if k == 66 {} else if k == 67 {} else if k == 68 {} else if k == 69 {} else if k == 70 {} else if k == 71 {}
    }
  }

  /** The literal parts of the meta pattern in `MetaContentTypePage`, and the name after `charset=`. */
  lemma MetaContentTypeLiterals()
    ensures MetaLeadAt(MetaContentTypePage, 0)
    ensures ContentLeadAt(MetaContentTypePage, 32)
    ensures CharsetLeadAt(MetaContentTypePage, 52)
    ensures MetaContentTypePage[70] == '"'
    ensures MetaContentTypePage[60..70] == "ISO-8859-1"
  {
  }

  /** `charset=` in `MetaContentTypePage` is followed by a letter, so the first pattern finds nothing. */
  lemma MetaContentTypeHasNoQuotedCharset()
    ensures FindQuoted(MetaContentTypePage, 0).None?
  {
    var s := MetaContentTypePage;
    MetaContentTypeLetters();
    assert s[33] == 'o' && s[60] == 'I';
    assert forall a: nat :: !QuotedLeadAt(s, a);
  }

  /** The meta pattern matches with `<meta ` at 0, `content="` at 32, `charset=` at 52 and the quote at 70. */
  lemma MetaContentTypeMatches()
    ensures MetaMatch(MetaContentTypePage, 0, 32, 52, 70)
  {
    var s := MetaContentTypePage;
    MetaContentTypeLiterals();
    MetaContentTypeLetters();
    assert LineEnd(s, 6) == |s| && LineEnd(s, 41) == |s| && LineEnd(s, 60) == |s|;
    assert QuoteCloses(s, 60, 70);
    assert CharsetAfter(s, 41, 52, 70);
  }

  /** That match is the one the search returns: there is no other `content="`, `charset=` or later quote to choose. */
  lemma MetaContentTypeFound()
    ensures FindMeta(MetaContentTypePage, 0) == Some(MetaSpan(0, 32, 52, 70))
  {
    var s := MetaContentTypePage;
    MetaContentTypeMatches();
    MetaContentTypeLetters();
    var m := FindMeta(s, 0).value;
    assert m.tag == 0;
    assert m.content == 32;
    assert m.charset == 52;
    assert m.close == 70;
  }

  /** The second pattern reads the `Content-Type` declaration as `ISO-8859-1`. */
  lemma MetaContentTypeDeclaration()
    ensures EncodingName(MetaContentTypePage) == Some("ISO-8859-1")
  {
    MetaContentTypeHasNoQuotedCharset();
    MetaContentTypeFound();
    MetaContentTypeLiterals();
    MetaContentTypeLetters();
    var name := MetaContentTypePage[60..70];
    assert CapturedName(MetaContentTypePage) == Some(name);
    assert ' ' !in name;
  }
}
