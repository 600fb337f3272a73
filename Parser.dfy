/**
 * `parse` in `src/parser.rs`: the deleted-article check, the meta data, the body, the replies
 * and their tally, assembled into an `Article`.
 */
module Parser {
  import opened Wrappers
  import opened Strings
  import opened Boards
  import opened Articles
  import opened Html
  import opened Fields
  import opened Addresses
  import opened Replies

  /** The text a deleted article's page shows in its `.bbs-content`. */
  const DeletedMarker: string := "404 - Not Found."

  /** `is_article_exist`: no `.bbs-content` text holds the deleted-article marker. */
  function IsArticleExist(doc: Document): (r: bool)
    ensures r <==> forall k, j :: 0 <= k < |doc.bbsContents| ==> !OccursAt(doc.bbsContents[k], DeletedMarker, j)
  {
    forall k :: 0 <= k < |doc.bbsContents| ==> !Contains(doc.bbsContents[k], DeletedMarker)
  }

  // The meta data.

  /** What `parse_meta` unwraps, in the order it reaches them. */
  predicate IsMetaReadable(doc: Document) {
    HasCanonicalId(doc) && TitleReadable(doc) && (ParseTitle(doc).Ok? ==> AuthorReadable(doc))
  }

  /** The category of a title: the bracketed word, or the empty string when there is none. */
  function CategoryOf(category: Option<string>): (r: string)
    ensures category.Some? ==> r == category.value
    ensures r == [] <==> category.None? || category.value == []
  {
    match category
    case Some(c) => c
    case None => []
  }

  /**
   * `parse_meta`: the id, then the title, the author and the board, whose errors stop it in
   * that order; the date and the address never do, but are left out when they fail.
   */
  function ParseMeta(doc: Document): (r: Result<Meta, Error>)
    requires IsMetaReadable(doc)
    ensures ParseTitle(doc).Err? ==> r == Err(FieldNotFound("title"))
    ensures ParseTitle(doc).Ok? && ParseAuthor(doc).Err? ==> r == Err(FieldNotFound("author"))
    ensures (ParseTitle(doc).Ok? && ParseAuthor(doc).Ok? && ParseBoard(doc).Err?) ==>
      r == Err(FieldNotFound("board"))
    ensures r.Ok? <==> ParseTitle(doc).Ok? && ParseAuthor(doc).Ok? && ParseBoard(doc).Ok?
    ensures r.Ok? ==>
      var m := r.value;
      m.id == ParseId(doc) && m.board == ParseBoard(doc).value
      && m.title == ParseTitle(doc).value.1
      && (m.category == [] <==> ParseTitle(doc).value.0.None?)
      && (ParseTitle(doc).value.0.Some? ==> m.category == ParseTitle(doc).value.0.value)
      && (m.authorId, m.authorName) == ParseAuthor(doc).value
      && m.date == doc.articleDate
      && (m.ip.Some? <==> ParseIp(doc).Ok?)
      && (m.ip.Some? ==> m.ip.value == ParseIp(doc).value && ValidIpv4(m.ip.value))
  {
    var id := ParseId(doc);
    match ParseTitle(doc)
    case Err(e) => Err(e)
    case Ok((category, title)) =>
      match ParseAuthor(doc)
      case Err(e) => Err(e)
      case Ok((authorId, authorName)) =>
        match ParseBoard(doc)
        case Err(e) => Err(e)
        case Ok(board) =>
          var ip := ParseIp(doc);
          Ok(Meta(board, id, CategoryOf(category), title, authorId, authorName, doc.articleDate,
            if ip.Ok? then Some(ip.value) else None))
  }

  // The tally.

  /** How many of the replies are of the given kind: `iter().filter(..).count()`. */
  function Count(replies: seq<Reply>, t: ReplyType): (n: nat)
    ensures n <= |replies|
  {
    if |replies| == 0 then 0
    else (if replies[0].replyType == t then 1 else 0) + Count(replies[1..], t)
  }

  /** The three counts of `parse`. */
  function Tally(replies: seq<Reply>): (r: ReplyCount)
    ensures r.push + r.neutral + r.boo == |replies|
  {
    TallySum(replies);
    ReplyCount(Count(replies, Push), Count(replies, Neutral), Count(replies, Boo))
  }

  /** Every reply is counted once: the three counts add up to the number of replies. */
  lemma {:induction false} TallySum(replies: seq<Reply>)
    ensures Count(replies, Push) + Count(replies, Neutral) + Count(replies, Boo) == |replies|
  {
    if |replies| > 0 {
      TallySum(replies[1..]);
    }
  }

  /** Counting distributes over concatenation: the replies of two stretches of nodes are counted apart. */
  lemma {:induction false} CountAppend(a: seq<Reply>, b: seq<Reply>, t: ReplyType)
    ensures Count(a + b, t) == Count(a, t) + Count(b, t)
  {
    if |a| > 0 {
      assert (a + b)[1..] == a[1..] + b;
      CountAppend(a[1..], b, t);
    } else {
      assert a + b == b;
    }
  }

  /** A reply of a kind counts one for that kind and none for the others. */
  lemma CountOne(x: Reply, t: ReplyType)
    ensures Count([x], t) == if x.replyType == t then 1 else 0
  {
    assert [x][1..] == [];
  }

  // The article.

  /** What `parse` unwraps, in the order it reaches them. */
  predicate IsReadable(doc: Document) {
    IsArticleExist(doc) ==>
      IsMetaReadable(doc)
      && (ParseMeta(doc).Ok? && ParseContent(doc.mainContent).Ok? ==> AllReadable(doc.pushes))
  }

  /**
   * `parse`: a deleted article is reported before anything is read; then the meta data and
   * the body, whose errors stop it; then the replies, dated from the article's date, and
   * their tally.
   */
  function Parse(doc: Document): (r: Result<Article, Error>)
    requires IsReadable(doc)
    ensures !IsArticleExist(doc) ==> r == Err(DeletedArticle)
    ensures IsArticleExist(doc) && ParseMeta(doc).Err? ==> r == Err(ParseMeta(doc).error)
    ensures (IsArticleExist(doc) && ParseMeta(doc).Ok? && ParseContent(doc.mainContent).Err?) ==>
      r == Err(InvalidFormat)
    ensures (IsArticleExist(doc) && ParseMeta(doc).Ok? && ParseContent(doc.mainContent).Ok?) ==>
      r.Ok?
      && r.value.meta == ParseMeta(doc).value
      && r.value.content == ParseContent(doc.mainContent).value
      && r.value.replies == ParseReplies(doc.pushes, doc.articleDate)
      && r.value.replyCount == Tally(r.value.replies)
  {
    if !IsArticleExist(doc) then Err(DeletedArticle)
    else
      match ParseMeta(doc)
      case Err(e) => Err(e)
      case Ok(meta) =>
        match ParseContent(doc.mainContent)
        case Err(e) => Err(e)
        case Ok(content) =>
          var replies := ParseReplies(doc.pushes, meta.date);
          Ok(Article(meta, content, Tally(replies), replies))
  }

  /**
   * The errors of `parse`: a deleted article is the only page reported as deleted, and every
   * other failure is a missing title, author or board, or a malformed body.
   */
  lemma ParseErrors(doc: Document)
    requires IsReadable(doc)
    ensures Parse(doc) == Err(DeletedArticle) <==> !IsArticleExist(doc)
    ensures Parse(doc).Err? ==> Parse(doc).error in {DeletedArticle, InvalidFormat,
      FieldNotFound("title"), FieldNotFound("author"), FieldNotFound("board")}
  {
  }

  /** A deleted article is reported whatever else its page holds, broken fields included. */
  lemma DeletedFirst(doc: Document, k: nat)
    requires k < |doc.bbsContents| && Contains(doc.bbsContents[k], DeletedMarker)
    ensures IsReadable(doc) && Parse(doc) == Err(DeletedArticle)
  {
  }

  /** The counts of a parsed article add up to its number of replies, which is at most its number of reply nodes. */
  lemma ParsedCounts(doc: Document)
    requires IsReadable(doc) && Parse(doc).Ok?
    ensures var a := Parse(doc).value;
      a.replyCount.push + a.replyCount.neutral + a.replyCount.boo == |a.replies| <= |doc.pushes|
  {
    TallySum(Parse(doc).value.replies);
    ParseRepliesLength(doc.pushes, doc.articleDate);
  }

  /** An address that cannot be read leaves the article without one, and does not fail it. */
  lemma UnreadableIpTolerated(doc: Document)
    requires IsReadable(doc) && IsArticleExist(doc)
    requires ParseMeta(doc).Ok? && ParseContent(doc.mainContent).Ok? && ParseIp(doc).Err?
    ensures Parse(doc).Ok? && Parse(doc).value.meta.ip.None?
  {
  }
}
