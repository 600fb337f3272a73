/**
 * The records of `src/article.rs`: the article, its meta data, its replies and their tally,
 * and the three kinds of reply with the glyph each is written with.
 */
module Articles {
  import opened Wrappers
  import opened Boards

  /** A wall-clock time at the board's fixed UTC+8 offset (chrono's `DateTime<FixedOffset>`). */
  datatype DateTime = DateTime(year: int, month: nat, day: nat, hour: nat, minute: nat, second: nat)

  /** An IPv4 address (`std::net::Ipv4Addr`), one number per octet. */
  datatype Ipv4 = Ipv4(a: nat, b: nat, c: nat, d: nat)

  predicate ValidIpv4(ip: Ipv4) {
    ip.a <= 255 && ip.b <= 255 && ip.c <= 255 && ip.d <= 255
  }

  /** `Meta`: every field is required except the author's display name, the date and the ip. */
  datatype Meta = Meta(
    board: BoardName,
    id: string,
    category: string,
    title: string,
    authorId: string,
    authorName: Option<string>,
    date: Option<DateTime>,
    ip: Option<Ipv4>)

  /** `ReplyCount`: three unsigned counters. */
  datatype ReplyCount = ReplyCount(push: nat, neutral: nat, boo: nat)

  /** `Reply`: only the ip and the date may be absent. */
  datatype Reply = Reply(
    replyType: ReplyType,
    authorId: string,
    ip: Option<Ipv4>,
    date: Option<DateTime>,
    content: string)

  /** `Article`: the meta data, the body, the tally and the replies in document order. */
  datatype Article = Article(meta: Meta, content: string, replyCount: ReplyCount, replies: seq<Reply>)

  /** The three kinds of reply. */
  datatype ReplyType = Push | Neutral | Boo

  /** The glyph each kind of reply is written with. */
  function Glyph(t: ReplyType): string {
    match t
    case Push => "推"
    case Neutral => "→"
    case Boo => "噓"
  }

  /** `ReplyType::from_str`: exactly the three glyphs parse; anything else is an error. */
  function ParseReplyType(s: string): (r: Option<ReplyType>)
    ensures r.Some? <==> s in {"推", "→", "噓"}
  {
    if s == "推" then Some(Push)
    else if s == "→" then Some(Neutral)
    else if s == "噓" then Some(Boo)
    else None
  }

  /** Parsing is exactly the inverse of the glyph table, in both directions. */
  lemma ParseReplyTypeExact(s: string, t: ReplyType)
    ensures ParseReplyType(s) == Some(t) <==> s == Glyph(t)
  {
    assert Glyph(Push) != Glyph(Neutral) && Glyph(Push) != Glyph(Boo) && Glyph(Neutral) != Glyph(Boo);
  }

}
