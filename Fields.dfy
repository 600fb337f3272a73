/**
 * The meta data of an article page as `src/parser.rs` reads it: the id, the title and its
 * category, the author's id and display name, the board, and the body text. Each field tries
 * its sources in a fixed order and fails with `FieldNotFound` naming the field when all miss.
 */
module Fields {
  import opened Wrappers
  import opened Strings
  import opened Boards
  import opened Html

  /** `parser::Error`. */
  datatype Error = DeletedArticle | InvalidFormat | FieldNotFound(field: string)

  // The article id.

  /** What `parse_id` unwraps: a canonical link whose last path segment holds ".html". */
  predicate HasCanonicalId(doc: Document) {
    doc.canonicalHref.Some? && Contains(AfterLast(doc.canonicalHref.value, '/'), ".html")
  }

  /**
   * `parse_id`: the last `/`-separated segment of the canonical link, cut before its first
   * ".html". The id holds neither a slash nor ".html", and ".html" follows it in the link.
   */
  function ParseId(doc: Document): (id: string)
    requires HasCanonicalId(doc)
    ensures '/' !in id && !Contains(id, ".html")
    ensures var segment := AfterLast(doc.canonicalHref.value, '/');
      OccursAt(segment, ".html", |id|) && id == segment[..|id|]
  {
    var segment := AfterLast(doc.canonicalHref.value, '/');
    BeforeFirstOccurrence(segment, ".html");
    segment[..Find(segment, ".html").value]
  }

  /** `parse_id` as written: the last segment of the link, then `id` cut in place before ".html". */
  method ReadId(doc: Document) returns (id: string)
    requires HasCanonicalId(doc)
    ensures id == ParseId(doc)
  {
    var url := doc.canonicalHref.value;
    id := AfterLast(url, '/');
    var htmlExtensionIndex := Find(id, ".html").value;
    id := id[..htmlExtensionIndex];
  }

  /**
   * A link of the form `<prefix><id>.html`, where the prefix ends with a slash, yields `id`,
   * provided the id has no slash and no '.' followed by 'h' (so that its ".html" is the
   * first one).
   */
  lemma ParseIdOfCanonical(doc: Document, prefix: string, id: string)
    requires |prefix| >= 1 && prefix[|prefix| - 1] == '/'
    requires doc.canonicalHref == Some(prefix + id + ".html")
    requires '/' !in id
    requires forall j :: 0 <= j < |id| - 1 ==> !(id[j] == '.' && id[j + 1] == 'h')
    ensures HasCanonicalId(doc) && ParseId(doc) == id
  {
    var segment := id + ".html";
    assert prefix + id + ".html" == prefix[..|prefix| - 1] + ['/'] + segment;
    AfterLastAppend(prefix[..|prefix| - 1], '/', segment);
    FirstHtml(id);
    assert segment[..|id|] == id;
  }

  /** The first ".html" in `<id>.html` is the last one when no '.' in the id precedes an 'h'. */
  lemma FirstHtml(id: string)
    requires forall j :: 0 <= j < |id| - 1 ==> !(id[j] == '.' && id[j + 1] == 'h')
    ensures Find(id + ".html", ".html") == Some(|id|)
  {
    var segment := id + ".html";
    var html := ".html";
    assert html[0] == '.' && html[1] == 'h';
    assert OccursAt(segment, html, |id|);
    forall j | 0 <= j < |id|
      ensures !OccursAt(segment, html, j)
    {
      assert segment[j] == id[j];
      if j < |id| - 1 {
        assert segment[j + 1] == id[j + 1];
      } else {
        assert segment[j + 1] == '.';
      }
    }
  }

  /** The id of the page `Soft_Job/M.1181801925.A.86E.html`. */
  lemma ParseIdExample(doc: Document)
    requires doc.canonicalHref == Some("https://www.ptt.cc/bbs/Soft_Job/" + "M.1181801925.A.86E" + ".html")
    ensures HasCanonicalId(doc) && ParseId(doc) == "M.1181801925.A.86E"
  {
    ParseIdOfCanonical(doc, "https://www.ptt.cc/bbs/Soft_Job/", "M.1181801925.A.86E");
  }

  // The sources of a field: the labelled span and the raw text.

  /** The first span whose trimmed text is `caption` (`find(Name("span")).find(..)`). */
  function FindLabel(spans: seq<Span>, caption: string): (r: Option<nat>)
    ensures r.Some? ==> r.value < |spans| && Trim(spans[r.value].text) == caption
    ensures forall k :: 0 <= k < |spans| && (r.None? || k < r.value) ==> Trim(spans[k].text) != caption
  {
    if |spans| == 0 then None
    else if Trim(spans[0].text) == caption then Some(0)
    else match FindLabel(spans[1..], caption)
      case None => None
      case Some(k) => Some(k + 1)
  }

  /** The text of the node after the first span labelled `caption`, if there is one. */
  function LabelledText(spans: seq<Span>, caption: string): Option<string> {
    match FindLabel(spans, caption)
    case None => None
    case Some(k) => Some(spans[k].nextText)
  }

  /** A raw-text caption: a word ending in its only colon, on one line. */
  predicate IsRawLabel(caption: string) {
    |caption| >= 1 && caption[|caption| - 1] == ':' && ':' !in caption[..|caption| - 1] && '\n' !in caption
  }

  /** What the raw-text fallback unwraps: a line feed somewhere after the caption, if it occurs. */
  predicate RawFieldEnds(text: string, caption: string) {
    Contains(text, caption) ==> Contains(text[Find(text, caption).value..], "\n")
  }

  /** Inside the text that starts with a raw caption, its colon comes before the first line feed. */
  lemma RawLabelBounds(rest: string, caption: string)
    requires IsRawLabel(caption) && OccursAt(rest, caption, 0) && Contains(rest, "\n")
    ensures Find(rest, ":") == Some(|caption| - 1)
    ensures Find(rest, "\n").value >= |caption|
  {
    assert rest[|caption| - 1] == caption[|caption| - 1];
    OccursAtChar(rest, ':', |caption| - 1);
    forall j | 0 <= j < |caption| - 1
      ensures !OccursAt(rest, ":", j)
    {
      assert rest[j] == caption[..|caption| - 1][j];
      OccursAtChar(rest, ':', j);
    }
    forall j | 0 <= j < |caption|
      ensures !OccursAt(rest, "\n", j)
    {
      assert rest[j] == caption[j];
      OccursAtChar(rest, '\n', j);
    }
  }

  /**
   * The raw-text fallback: the text between the colon that ends the first occurrence of
   * `caption` and the next line feed, or `None` when the caption does not occur.
   */
  function RawField(text: string, caption: string): (r: Option<string>)
    requires IsRawLabel(caption) && RawFieldEnds(text, caption)
    ensures r.Some? <==> Contains(text, caption)
    ensures r.Some? ==>
      var start := Find(text, caption).value + |caption|;
      start + |r.value| < |text| && text[start + |r.value|] == '\n'
      && r.value == text[start..start + |r.value|] && '\n' !in r.value
  {
    match Find(text, caption)
    case None => None
    case Some(i) =>
      var rest := text[i..];
      assert OccursAt(rest, caption, 0) by {
        forall m | 0 <= m < |caption| ensures rest[m] == caption[m] {
          assert rest[m] == text[i + m];
        }
      }
      RawLabelBounds(rest, caption);
      var colon := Find(rest, ":").value;
      var newline := Find(rest, "\n").value;
      OccursAtChar(rest, '\n', newline);
      assert forall j :: colon + 1 <= j < newline ==> rest[j] != '\n' by {
        forall j | colon + 1 <= j < newline ensures rest[j] != '\n' {
          OccursAtChar(rest, '\n', j);
        }
      }
      Some(rest[colon + 1..newline])
  }

  // The title.

  const TitleLabel: string := "標題"
  const RawTitleLabel: string := "標題:"

  /** What looking up the title unwraps: the raw fallback, when reached, ends in a line feed. */
  predicate TitleReadable(doc: Document) {
    doc.ogTitle.None? && LabelledText(doc.spans, TitleLabel).None? ==>
      RawFieldEnds(doc.mainContent, RawTitleLabel)
  }

  /**
   * The title as found on the page: the `og:title` meta content, else the text after the span
   * labelled 標題, else the raw text after "標題:"; an error when all three miss.
   */
  function TitleText(doc: Document): (r: Result<string, Error>)
    requires TitleReadable(doc)
    ensures r.Err? <==>
      doc.ogTitle.None? && LabelledText(doc.spans, TitleLabel).None?
      && !Contains(doc.mainContent, RawTitleLabel)
    ensures r.Err? ==> r.error == FieldNotFound("title")
    ensures doc.ogTitle.Some? ==> r == Ok(doc.ogTitle.value)
    ensures doc.ogTitle.None? && LabelledText(doc.spans, TitleLabel).Some? ==>
      r == Ok(LabelledText(doc.spans, TitleLabel).value)
    ensures (doc.ogTitle.None? && LabelledText(doc.spans, TitleLabel).None?
             && Contains(doc.mainContent, RawTitleLabel)) ==>
      r == Ok(RawField(doc.mainContent, RawTitleLabel).value)
  {
    if doc.ogTitle.Some? then Ok(doc.ogTitle.value)
    else match LabelledText(doc.spans, TitleLabel)
      case Some(t) => Ok(t)
      case None =>
        match RawField(doc.mainContent, RawTitleLabel)
        case Some(t) => Ok(t)
        case None => Err(FieldNotFound("title"))
  }

  predicate IsOpenBracket(c: char) {
    c == '[' || c == '［'
  }

  predicate IsCloseBracket(c: char) {
    c == ']' || c == '］'
  }

  predicate IsWord(s: string) {
    |s| >= 1 && forall k :: 0 <= k < |s| ==> IsWordChar(s[k])
  }

  /**
   * The title pattern `((\[|［)(?P<category>\w+)+(\]|］)\s*)?(?P<title>.+)` applied to a title
   * that does not start with whitespace. A bracketed word followed by optional whitespace and
   * at least one more character is split off as the category; the title is the rest of that
   * line (the regex `.` stops at a line feed).
   */
  function MatchTitle(t: string): (r: (Option<string>, string))
    requires t == [] || !IsWhitespace(t[0])
    ensures '\n' !in r.1
    ensures r.1 == [] <==> t == []
    ensures r.0.Some? ==> IsWord(r.0.value)
  {
    if t == [] then (None, [])
    else
      var k := RunEnd(t, 1, IsWordChar);
      var w := if k < |t| then RunEnd(t, k + 1, IsWhitespace) else |t|;
      if IsOpenBracket(t[0]) && 1 < k < |t| && IsCloseBracket(t[k]) && w < |t| then
        (Some(t[1..k]), t[w..LineEnd(t, w)])
      else
        (None, t[..LineEnd(t, 0)])
  }

  /** `parse_title`: the page's title, trimmed, split into its category and the title proper. */
  function ParseTitle(doc: Document): (r: Result<(Option<string>, string), Error>)
    requires TitleReadable(doc)
    ensures r.Err? <==> TitleText(doc).Err?
    ensures r.Err? ==> r.error == FieldNotFound("title")
  {
    match TitleText(doc)
    case Err(e) => Err(e)
    case Ok(t) => Ok(MatchTitle(Trim(t)))
  }

  /**
   * A title that opens with a bracketed word, then optional whitespace, then a one-line rest
   * is split into that word and that rest.
   */
  lemma TitleWithCategory(t: string, k: nat, w: nat)
    requires 1 < k < w < |t|
    requires IsOpenBracket(t[0]) && IsCloseBracket(t[k])
    requires forall j :: 1 <= j < k ==> IsWordChar(t[j])
    requires forall j :: k < j < w ==> IsWhitespace(t[j])
    requires !IsWhitespace(t[w]) && !IsWhitespace(t[|t| - 1])
    requires forall j :: w <= j < |t| ==> t[j] != '\n'
    ensures MatchTitle(Trim(t)) == (Some(t[1..k]), t[w..])
  {
    TrimOfTrimmed(t);
    RunEndIs(t, 1, k, IsWordChar);
    RunEndIs(t, k + 1, w, IsWhitespace);
    forall j | w <= j < |t|
      ensures IsNotNewline(t[j])
    {
    }
    RunEndIs(t, w, |t|, IsNotNewline);
  }

  /** The same, for a title assembled from its parts: the parts come back out. */
  lemma TitleRoundTrip(open: char, category: string, close: char, gap: string, rest: string)
    requires IsOpenBracket(open) && IsCloseBracket(close)
    requires IsWord(category)
    requires forall j :: 0 <= j < |gap| ==> IsWhitespace(gap[j])
    requires |rest| >= 1 && !IsWhitespace(rest[0]) && !IsWhitespace(rest[|rest| - 1]) && '\n' !in rest
    ensures MatchTitle(Trim([open] + category + [close] + gap + rest)) == (Some(category), rest)
  {
    var t := [open] + category + [close] + gap + rest;
    var k := 1 + |category|;
    var w := k + 1 + |gap|;
    AssembledTitle(open, category, close, gap, rest);
    TitleWithCategory(t, k, w);
  }

  /** Where each part of an assembled title lies. */
  lemma AssembledTitle(open: char, category: string, close: char, gap: string, rest: string)
    requires |rest| >= 1
    ensures var t := [open] + category + [close] + gap + rest;
      var k := 1 + |category|;
      var w := k + 1 + |gap|;
      |t| == w + |rest| && t[0] == open && t[k] == close && t[|t| - 1] == rest[|rest| - 1]
      && (forall j :: 1 <= j < k ==> t[j] == category[j - 1])
      && (forall j :: k < j < w ==> t[j] == gap[j - k - 1])
      && (forall j :: w <= j < |t| ==> t[j] == rest[j - w])
      && t[1..k] == category && t[w..] == rest
  {
  }

  /** A one-line title that does not open with a bracket is kept whole, with no category. */
  lemma TitleWithoutCategory(t: string)
    requires |t| >= 1 && !IsWhitespace(t[0]) && !IsWhitespace(t[|t| - 1])
    requires forall j :: 0 <= j < |t| ==> t[j] != '\n'
    requires !IsOpenBracket(t[0])
    ensures MatchTitle(Trim(t)) == (None, t)
  {
    TrimOfTrimmed(t);
    forall j | 0 <= j < |t|
      ensures IsNotNewline(t[j])
    {
    }
    RunEndIs(t, 0, |t|, IsNotNewline);
  }

  /** The title of a test page that carries a category. */
  lemma TitleExampleWithCategory(t: string)
    requires t == "[公告] Soft_Job 板試閱"
    ensures MatchTitle(Trim(t)) == (Some("公告"), "Soft_Job 板試閱")
  {
    CategoryExampleShape(t);
    TitleWithCategory(t, 3, 5);
    assert t[1..3] == "公告";
    assert t[5..] == "Soft_Job 板試閱";
  }

  lemma CategoryExampleShape(t: string)
    requires t == "[公告] Soft_Job 板試閱"
    ensures |t| == 17 && IsOpenBracket(t[0]) && IsCloseBracket(t[3]) && IsWhitespace(t[4])
    ensures IsWordChar(t[1]) && IsWordChar(t[2])
    ensures !IsWhitespace(t[5]) && !IsWhitespace(t[16])
    ensures forall j :: 5 <= j < |t| ==> t[j] != '\n'
  {
  }

  /** The titles of test pages without a category. */
  lemma TitleExamplesWithoutCategory(t1: string, t2: string)
    requires t1 == "搶頭香" && t2 == "Re: 有沒有俄國人的八卦？"
    ensures MatchTitle(Trim(t1)) == (None, t1)
    ensures MatchTitle(Trim(t2)) == (None, t2)
  {
    TitleWithoutCategory(t1);
    TitleWithoutCategory(t2);
  }

  /** A trimmed title: empty, or neither starting nor ending with whitespace. */
  predicate IsTrimmed(t: string) {
    t == [] || (!IsWhitespace(t[0]) && !IsWhitespace(t[|t| - 1]))
  }

  /**
   * The category group of the title pattern matches a trimmed title with its closing bracket
   * at `k`: an opening bracket, a word, a closing bracket, and more text after it for `.+`.
   */
  predicate CategoryEndsAt(t: string, k: nat) {
    1 < k < |t| - 1 && IsOpenBracket(t[0]) && IsCloseBracket(t[k])
    && forall j :: 1 <= j < k ==> IsWordChar(t[j])
  }

  /** A closing bracket is not a word character, so the word ends at the first one. */
  lemma CloseBracketNotWord(c: char)
    requires IsCloseBracket(c)
    ensures !IsWordChar(c)
  {
  }

  /**
   * A trimmed title has a category exactly when the category group matches it, and the
   * category is then the word between the brackets.
   */
  lemma TitleCategoryExact(t: string)
    requires IsTrimmed(t)
    ensures MatchTitle(t).0.Some? <==> exists k: nat :: CategoryEndsAt(t, k)
    ensures MatchTitle(t).0.Some? ==>
      var c := MatchTitle(t).0.value;
      CategoryEndsAt(t, |c| + 1) && c == t[1..|c| + 1]
  {
    if t != [] {
      var k0 := RunEnd(t, 1, IsWordChar);
      if MatchTitle(t).0.Some? {
        assert CategoryEndsAt(t, k0);
      }
      forall k: nat | CategoryEndsAt(t, k)
        ensures MatchTitle(t).0.Some?
      {
        CloseBracketNotWord(t[k]);
        RunEndIs(t, 1, k, IsWordChar);
        var w := RunEnd(t, k + 1, IsWhitespace);
        assert !IsWhitespace(t[|t| - 1]);
        assert w < |t|;
      }
    }
  }

  /**
   * A trimmed title without the category shape is kept up to its first line feed, with no
   * category: a bare "[公告]", an unclosed "[ab" or an empty "[ ]x" included.
   */
  lemma TitleFirstLine(t: string, n: nat)
    requires IsTrimmed(t) && |t| >= 1
    requires forall k: nat :: !CategoryEndsAt(t, k)
    requires n <= |t| && (n == |t| || t[n] == '\n')
    requires forall j :: 0 <= j < n ==> t[j] != '\n'
    ensures MatchTitle(t) == (None, t[..n])
  {
    TitleCategoryExact(t);
    forall j | 0 <= j < n
      ensures IsNotNewline(t[j])
    {
    }
    RunEndIs(t, 0, n, IsNotNewline);
  }

  /**
   * A trimmed title with the category shape: the category is the bracketed word and the title
   * runs from the first character after the whitespace up to the next line feed.
   */
  lemma TitleCategoryFirstLine(t: string, k: nat, w: nat, n: nat)
    requires IsTrimmed(t) && CategoryEndsAt(t, k)
    requires k < w < n <= |t| && !IsWhitespace(t[w])
    requires forall j :: k < j < w ==> IsWhitespace(t[j])
    requires n == |t| || t[n] == '\n'
    requires forall j :: w <= j < n ==> t[j] != '\n'
    ensures MatchTitle(t) == (Some(t[1..k]), t[w..n])
  {
    CloseBracketNotWord(t[k]);
    RunEndIs(t, 1, k, IsWordChar);
    RunEndIs(t, k + 1, w, IsWhitespace);
    forall j | w <= j < n
      ensures IsNotNewline(t[j])
    {
    }
    RunEndIs(t, w, n, IsNotNewline);
  }

  /** A bracketed word with nothing after it is no category: the title is kept whole. */
  lemma TitleBareCategoryExample(t: string)
    requires t == "[公告]"
    ensures MatchTitle(t) == (None, t)
  {
    assert |t| == 4 && t[2] == '告' && !IsCloseBracket(t[2]);
    TitleFirstLine(t, |t|);
    assert t[..|t|] == t;
  }

  /** An unclosed bracket is no category. */
  lemma TitleUnclosedExample(t: string)
    requires t == "[ab"
    ensures MatchTitle(t) == (None, t)
  {
    TitleFirstLine(t, |t|);
    assert t[..|t|] == t;
  }

  /** Empty brackets are no category. */
  lemma TitleEmptyBracketsExample(t: string)
    requires t == "[ ]x"
    ensures MatchTitle(t) == (None, t)
  {
    assert t[1] == ' ' && !IsWordChar(' ');
    TitleFirstLine(t, |t|);
    assert t[..|t|] == t;
  }

  /** A title of two lines keeps its first. */
  lemma TitleTwoLinesExample(t: string)
    requires t == "搶頭香\n第二行"
    ensures MatchTitle(t) == (None, "搶頭香")
  {
    assert t[3] == '\n' && !IsOpenBracket(t[0]);
    TitleFirstLine(t, 3);
    assert t[..3] == "搶頭香";
  }

  /** A two-line title with a category keeps the first line after the category. */
  lemma TitleCategoryExampleTwoLines(t: string)
    requires t == "[問卦] 有沒有\n第二行"
    ensures MatchTitle(t) == (Some("問卦"), "有沒有")
  {
    assert |t| == 12 && t[3] == ']' && t[4] == ' ' && t[8] == '\n';
    assert IsWordChar(t[1]) && IsWordChar(t[2]) && !IsWhitespace(t[5]);
    TitleCategoryFirstLine(t, 3, 5, 8);
    assert t[1..3] == "問卦" && t[5..8] == "有沒有";
  }

  // The author.

  const AuthorLabel: string := "作者"
  const RawAuthorLabel: string := "作者:"

  /** What looking up the author unwraps: the raw fallback, when reached, ends in a line feed. */
  predicate AuthorReadable(doc: Document) {
    |doc.metaValues| == 0 && LabelledText(doc.spans, AuthorLabel).None? ==>
      RawFieldEnds(doc.mainContent, RawAuthorLabel)
  }

  /**
   * The author as found on the page: the first meta value, else the text after the span
   * labelled 作者, else the raw text after "作者:"; an error when all three miss.
   */
  function AuthorText(doc: Document): (r: Result<string, Error>)
    requires AuthorReadable(doc)
    ensures r.Err? <==>
      |doc.metaValues| == 0 && LabelledText(doc.spans, AuthorLabel).None?
      && !Contains(doc.mainContent, RawAuthorLabel)
    ensures r.Err? ==> r.error == FieldNotFound("author")
    ensures |doc.metaValues| > 0 ==> r == Ok(doc.metaValues[0])
    ensures |doc.metaValues| == 0 && LabelledText(doc.spans, AuthorLabel).Some? ==>
      r == Ok(LabelledText(doc.spans, AuthorLabel).value)
    ensures (|doc.metaValues| == 0 && LabelledText(doc.spans, AuthorLabel).None?
             && Contains(doc.mainContent, RawAuthorLabel)) ==>
      r == Ok(RawField(doc.mainContent, RawAuthorLabel).value)
  {
    if |doc.metaValues| > 0 then Ok(doc.metaValues[0])
    else match LabelledText(doc.spans, AuthorLabel)
      case Some(t) => Ok(t)
      case None =>
        match RawField(doc.mainContent, RawAuthorLabel)
        case Some(t) => Ok(t)
        case None => Err(FieldNotFound("author"))
  }

  /** The last ')' at an index in [lo, hi). */
  function LastCloseParen(a: string, lo: nat, hi: nat): (r: Option<nat>)
    requires lo <= hi <= |a|
    ensures r.Some? ==> lo <= r.value < hi && a[r.value] == ')'
    ensures r.Some? ==> forall j :: r.value < j < hi ==> a[j] != ')'
    ensures r.None? ==> forall j :: lo <= j < hi ==> a[j] != ')'
    decreases hi - lo
  {
    if hi == lo then None
    else if a[hi - 1] == ')' then Some(hi - 1)
    else LastCloseParen(a, lo, hi - 1)
  }

  /** A match of the author pattern: where it starts and its two captures. */
  datatype AuthorMatch = AuthorMatch(start: nat, id: string, name: string)

  /**
   * `m` is a match of `(?P<id>\w+)\s\((?P<name>.+)\)` in `a`: a word, one whitespace
   * character, and a one-line name in parentheses.
   */
  predicate IsAuthorMatch(a: string, m: AuthorMatch) {
    var e := m.start + |m.id|;
    var close := e + 2 + |m.name|;
    close < |a| && IsWord(m.id) && a[m.start..e] == m.id
    && IsWhitespace(a[e]) && a[e + 1] == '('
    && |m.name| >= 1 && a[e + 2..close] == m.name && '\n' !in m.name && a[close] == ')'
  }

  /**
   * The leftmost match of the author pattern at or after `s`. At a start, `\w+` takes the
   * whole run of word characters (a shorter run would be followed by a word character, not
   * whitespace), and `.+` backs off from the end of the line to its last ')'.
   */
  function MatchAuthorFrom(a: string, s: nat): (r: Option<AuthorMatch>)
    requires s <= |a|
    ensures r.Some? ==> s <= r.value.start && IsAuthorMatch(a, r.value)
    decreases |a| - s
  {
    if s == |a| then None
    else
      var e := RunEnd(a, s, IsWordChar);
      if IsWordChar(a[s]) && e + 1 < |a| && IsWhitespace(a[e]) && a[e + 1] == '('
        && e + 3 <= LineEnd(a, e + 2) && LastCloseParen(a, e + 3, LineEnd(a, e + 2)).Some?
      then
        var close := LastCloseParen(a, e + 3, LineEnd(a, e + 2)).value;
        assert forall j :: e + 2 <= j < close ==> IsNotNewline(a[j]);
        Some(AuthorMatch(s, a[s..e], a[e + 2..close]))
      else
        MatchAuthorFrom(a, s + 1)
  }

  /**
   * Where the pattern matches, the test at that start finds a match: the word run is the whole
   * id, and the name runs to the last ')' of the line, so it is the longest one there.
   */
  lemma MatchAuthorAt(a: string, m: AuthorMatch)
    requires IsAuthorMatch(a, m)
    ensures MatchAuthorFrom(a, m.start).Some?
    ensures var r := MatchAuthorFrom(a, m.start).value;
      r.start == m.start && r.id == m.id && |m.name| <= |r.name|
  {
    var s, e := m.start, m.start + |m.id|;
    var close := e + 2 + |m.name|;
    forall k | s <= k < e
      ensures IsWordChar(a[k])
    {
      assert a[k] == m.id[k - s];
    }
    assert !IsWordChar(a[e]);
    RunEndIs(a, s, e, IsWordChar);
    assert IsWordChar(a[s]);
    var lineEnd := LineEnd(a, e + 2);
    forall j | e + 2 <= j <= close
      ensures a[j] != '\n'
    {
      if j < close {
        assert a[j] == m.name[j - e - 2];
      }
    }
    assert close < lineEnd;
    var found := LastCloseParen(a, e + 3, lineEnd);
    assert found.Some? && found.value >= close;
  }

  /**
   * The match found from `s` is the leftmost one: it starts no later than any match at or
   * after `s`, and at the same start its name is no shorter.
   */
  lemma {:induction false} MatchAuthorLeftmost(a: string, s: nat, m: AuthorMatch)
    requires s <= m.start && IsAuthorMatch(a, m)
    ensures MatchAuthorFrom(a, s).Some? && MatchAuthorFrom(a, s).value.start <= m.start
    ensures MatchAuthorFrom(a, s).value.start == m.start ==>
      |m.name| <= |MatchAuthorFrom(a, s).value.name|
    decreases m.start - s
  {
    if s == m.start {
      MatchAuthorAt(a, m);
    } else {
      MatchAuthorLeftmost(a, s + 1, m);
    }
  }

  /** When nothing is found from the start, the pattern matches nowhere. */
  lemma NoAuthorMatch(a: string)
    requires MatchAuthorFrom(a, 0).None?
    ensures forall m :: !IsAuthorMatch(a, m)
  {
    forall m | IsAuthorMatch(a, m)
      ensures false
    {
      MatchAuthorLeftmost(a, 0, m);
    }
  }

  /**
   * The author's id and display name: the trimmed author text split by the author pattern,
   * or the whole trimmed text and no name exactly when the pattern matches nowhere.
   */
  function SplitAuthor(author: string): (r: (string, Option<string>))
    ensures r.1.None? ==> r.0 == Trim(author)
    ensures r.1.None? <==> forall m :: !IsAuthorMatch(Trim(author), m)
    ensures r.1.Some? ==> exists m :: IsAuthorMatch(Trim(author), m) && r == (m.id, Some(m.name))
  {
    var a := Trim(author);
    match MatchAuthorFrom(a, 0)
    case Some(m) => (m.id, Some(m.name))
    case None => NoAuthorMatch(a); (a, None)
  }

  /** `parse_author`. */
  function ParseAuthor(doc: Document): (r: Result<(string, Option<string>), Error>)
    requires AuthorReadable(doc)
    ensures r.Err? <==> AuthorText(doc).Err?
    ensures r.Err? ==> r.error == FieldNotFound("author")
  {
    match AuthorText(doc)
    case Err(e) => Err(e)
    case Ok(a) => Ok(SplitAuthor(a))
  }

  /** `id (name)` splits back into that id and that name. */
  lemma AuthorRoundTrip(id: string, name: string)
    requires IsWord(id)
    requires |name| >= 1 && '\n' !in name
    ensures SplitAuthor(id + " (" + name + ")") == (id, Some(name))
  {
    var a := id + " (" + name + ")";
    assert a[0] == id[0] && a[|a| - 1] == ')';
    TrimOfTrimmed(a);
    var e := |id|;
    assert a[e] == ' ' && a[e + 1] == '(';
    RunEndIs(a, 0, e, IsWordChar);
    forall j | e + 2 <= j < |a|
      ensures IsNotNewline(a[j])
    {
      if j < |a| - 1 {
        assert a[j] == name[j - e - 2];
      }
    }
    RunEndIs(a, e + 2, |a|, IsNotNewline);
    assert LastCloseParen(a, e + 3, |a|) == Some(|a| - 1);
    assert a[0..e] == id;
    assert a[e + 2..|a| - 1] == name;
  }

  /** Without an opening parenthesis there is no display name, and the id is the whole text. */
  lemma AuthorWithoutName(author: string)
    requires '(' !in Trim(author)
    ensures SplitAuthor(author) == (Trim(author), None)
  {
  }

  /** The author of the Soft_Job test page, with a display name. */
  lemma AuthorExampleJunchoon(id: string, name: string)
    requires id == "Junchoon" && name == "裘髯客"
    ensures SplitAuthor(id + " (" + name + ")") == (id, Some(name))
  {
    AuthorRoundTrip(id, name);
  }

  /** The author of a second Soft_Job test page, whose display name holds dots. */
  lemma AuthorExampleEggimage(id: string, name: string)
    requires id == "eggimage" && name == "雞蛋非人哉啊...."
    ensures SplitAuthor(id + " (" + name + ")") == (id, Some(name))
  {
    AuthorRoundTrip(id, name);
  }

  /** The author of the test page that gives none. */
  lemma AuthorExampleWithoutName(a: string)
    requires a == "MOTHERGOOSE"
    ensures SplitAuthor(a) == (a, None)
  {
    TrimOfTrimmed(a);
    AuthorWithoutName(a);
  }

  // The board.

  const BoardLabel: string := "看板"

  /** The board's name as found on the page: the second meta value, else the span labelled 看板. */
  function BoardText(doc: Document): Option<string> {
    if |doc.metaValues| > 1 then Some(doc.metaValues[1]) else LabelledText(doc.spans, BoardLabel)
  }

  /**
   * `parse_board`: the board named on the page, or `Unknown` when the name is not one of the
   * table's; an error only when the page names no board at all.
   */
  function ParseBoard(doc: Document): (r: Result<BoardName, Error>)
    ensures r.Err? <==> |doc.metaValues| <= 1 && LabelledText(doc.spans, BoardLabel).None?
    ensures r.Err? ==> r.error == FieldNotFound("board")
    ensures r.Ok? ==>
      Serialize(r.value) == BoardText(doc).value
      || (r.value == Unknown && forall b :: Serialize(b) != BoardText(doc).value)
  {
    match BoardText(doc)
    case None => Err(FieldNotFound("board"))
    case Some(text) =>
      var board := ParseBoardName(text);
      assert board.None? ==> forall b :: Serialize(b) != text by {
        forall b ensures board.None? ==> Serialize(b) != text {
          ParseBoardNameExact(text, b);
        }
      }
      Ok(if board.Some? then board.value else Unknown)
  }

  /** The boards of the test pages: from the meta values, and from the labelled span. */
  lemma BoardExamples(doc1: Document, doc2: Document)
    requires |doc1.metaValues| > 1 && doc1.metaValues[1] == "Soft_Job"
    requires |doc2.metaValues| == 0 && LabelledText(doc2.spans, BoardLabel) == Some("Gossiping")
    ensures ParseBoard(doc1) == Ok(SoftJob)
    ensures ParseBoard(doc2) == Ok(Gossiping)
  {
    SoftJobName();
    GossipingName();
  }

  // The body.

  const ContentEnd: string := "\n※"

  /**
   * `parse_content`: the main text from its first line feed up to the first "\n※" after it,
   * trimmed. Without a line feed, or without a "\n※" after the first one, the page is
   * malformed.
   */
  function ParseContent(mainContent: string): (r: Result<string, Error>)
    ensures r.Err? ==> r.error == InvalidFormat
  {
    match Find(mainContent, "\n")
    case None => Err(InvalidFormat)
    case Some(start) => ContentFrom(mainContent, start)
  }

  /** The body once the first line feed is found at `start`. */
  function ContentFrom(mainContent: string, start: nat): (r: Result<string, Error>)
    requires start + 1 <= |mainContent|
    ensures r.Err? ==> r.error == InvalidFormat
  {
    match Find(mainContent[start + 1..], ContentEnd)
    case None => Err(InvalidFormat)
    case Some(offset) => Ok(Trim(mainContent[start..offset + start + 1]))
  }

  /** The page is malformed exactly when it has no line feed, or no "\n※" after the first one. */
  lemma ParseContentFails(mainContent: string)
    ensures ParseContent(mainContent).Err? <==>
      !Contains(mainContent, "\n")
      || !Contains(mainContent[Find(mainContent, "\n").value + 1..], ContentEnd)
  {
  }

  /**
   * The body is the trimmed text from the first line feed to the first "\n※" after it, so it
   * holds no "\n※" and is its own trim.
   */
  lemma ParseContentBody(mainContent: string, start: nat, offset: nat)
    requires Find(mainContent, "\n") == Some(start)
    requires start + 1 <= |mainContent|
    requires Find(mainContent[start + 1..], ContentEnd) == Some(offset)
    ensures offset + start + 1 <= |mainContent|
    ensures ParseContent(mainContent) == Ok(Trim(mainContent[start..offset + start + 1]))
    ensures !Contains(Trim(mainContent[start..offset + start + 1]), ContentEnd)
    ensures Trim(Trim(mainContent[start..offset + start + 1])) == Trim(mainContent[start..offset + start + 1])
  {
    ParseContentAt(mainContent, start, offset);
    LineFeedAt(mainContent, start);
    BodyHasNoEnd(mainContent, start, offset);
    TrimIdempotent(mainContent[start..offset + start + 1]);
  }

  /** Where `parse_content` cuts the body when both markers are found. */
  lemma ParseContentAt(mainContent: string, start: nat, offset: nat)
    requires Find(mainContent, "\n") == Some(start)
    requires start + 1 <= |mainContent|
    requires Find(mainContent[start + 1..], ContentEnd) == Some(offset)
    ensures offset + start + 1 <= |mainContent|
    ensures ParseContent(mainContent) == Ok(Trim(mainContent[start..offset + start + 1]))
  {
    ParseContentFrom(mainContent, start);
    ContentFromAt(mainContent, start, offset);
  }

  /** Once the first line feed is found, the rest of `parse_content` looks past it. */
  lemma ParseContentFrom(mainContent: string, start: nat)
    requires Find(mainContent, "\n") == Some(start)
    ensures start + 1 <= |mainContent| && ParseContent(mainContent) == ContentFrom(mainContent, start)
  {
  }

  /** Where the body ends when a "\n※" follows the line feed. */
  lemma ContentFromAt(mainContent: string, start: nat, offset: nat)
    requires start + 1 <= |mainContent|
    requires Find(mainContent[start + 1..], ContentEnd) == Some(offset)
    ensures offset + start + 1 <= |mainContent|
    ensures ContentFrom(mainContent, start) == Ok(Trim(mainContent[start..offset + start + 1]))
  {
  }

  /** The first line feed found is a line feed. */
  lemma LineFeedAt(s: string, start: nat)
    requires Find(s, "\n") == Some(start)
    ensures start < |s| && s[start] == '\n'
  {
    OccursAtChar(s, '\n', start);
  }

  /** The trimmed text from the line feed to the first "\n※" after it holds no "\n※". */
  lemma BodyHasNoEnd(mainContent: string, start: nat, offset: nat)
    requires start + 1 <= |mainContent| && mainContent[start] == '\n'
    requires Find(mainContent[start + 1..], ContentEnd) == Some(offset)
    ensures offset + start + 1 <= |mainContent|
    ensures !Contains(Trim(mainContent[start..offset + start + 1]), ContentEnd)
  {
    NoEndInPrefix(mainContent[start + 1..], offset);
    SliceOfSuffix(mainContent, start + 1, offset, offset + start + 1);
    SliceAfterFirst(mainContent, start, offset + start + 1);
    TrimPastLineFeed(mainContent[start..offset + start + 1], ContentEnd);
  }

  /** A text that opens with a line feed, and holds no `p` after it, holds none once trimmed. */
  lemma TrimPastLineFeed(t: string, p: string)
    requires |t| >= 1 && t[0] == '\n' && !Contains(t[1..], p)
    ensures !Contains(Trim(t), p)
  {
    TrimDropsWhitespace(t);
    NotContainsTrim(t[1..], p);
  }

  /** The text before the first "\n※" holds no "\n※": any would start before the first. */
  lemma NoEndInPrefix(rest: string, offset: nat)
    requires offset <= |rest|
    requires forall j :: 0 <= j < offset ==> !OccursAt(rest, ContentEnd, j)
    ensures !Contains(rest[..offset], ContentEnd)
  {
    forall k: int
      ensures !OccursAt(rest[..offset], ContentEnd, k)
    {
      OccursInSlice(rest, ContentEnd, 0, offset, k);
      assert rest[..offset] == rest[0..offset];
    }
  }
}
