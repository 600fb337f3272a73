# ptt-crawler article parser, modelled in Dafny

This project models the article extractor of ptt-crawler, a crawler for the PTT bulletin
board. Given an article page, the extractor produces the article's meta data, its body and
its replies with their tally. The model also covers the closed vocabularies the extractor
reads into: the three reply glyphs and the table of board names. It also covers the
page-range normalisation of the command line.

The page is not a DOM here. It is a record (`Html.Document`) of the strings that the
parser's `select` queries locate:

- the canonical link;
- the `og:title` content;
- the spans with the text of the node after each;
- the `article-meta-value` texts;
- the `f2` texts;
- the `main-content` text;
- the `bbs-content` texts;
- for each `div.push` node, its text and the texts of its tag, user id, content and
  ip/date-time spans.

On top of that record, the model writes out each step of the parser as it is written:

- **Field extraction.** `parse_id`, the three-tier lookups of the title and the author, and
  the board lookup.
- **The patterns the parser uses.** The title regex, the author regex, the dotted-quad
  address and the reply time stamp are each hand-written as a function. The address and
  author searches are proved against match predicates of their own (`Addresses.QuadAt`,
  `Fields.IsAuthorMatch`): what is found is a match, no match starts earlier, and none at the
  same start is longer. The title function is proved to find a category exactly for titles of
  the category shape (`Fields.CategoryEndsAt`) and to keep one line. The stamp search is
  proved leftmost only with respect to its own match function, `Replies.StampAt`. Written
  addresses, clocks and stamps are proved to read back.
- **The body.** The slice between the first line feed and the first "\n※".
- **Reply dates.** Dates are rebuilt from the article's year. The search for the next leap
  year for 02/29 is a method with a loop, proved against a closed form.
- **Assembly.** The assembly in `parse`, which drops malformed replies in order and tallies
  the rest.

`adjust_board_range` is a method that reorders its vector of page numbers. It is proved
against a function of its inputs.

Panicking `unwrap`s of the source are preconditions, named after what they unwrap:

- `Fields.HasCanonicalId`;
- `Fields.TitleReadable` and `Fields.AuthorReadable`;
- `Replies.IsReadableReply`;
- `Parser.IsReadable`.

An unknown reply tag panics (src/parser.rs:347-348); the model makes a known tag part of
`Replies.IsReadableReply`.

The title regex ends in `(?P<title>.+)`. The regex `.` does not match a line feed, so the
title is the rest of its first line (`Fields.MatchTitle`), not the whole remaining text.

## Model

| member | source | states |
|---|---|---|
| Strings.Find | src/parser.rs:93 | `str::find`: the index returned is an occurrence and none occurs before it; `None` exactly when the pattern occurs nowhere |
| Strings.Trim | src/parser.rs:134 | `str::trim`: the result is the slice of the input after its leading whitespace, only whitespace follows it, and it neither starts nor ends with whitespace |
| Strings.TrimIdempotent | src/parser.rs:318 | trimming a trimmed text changes nothing |
| Strings.TrimStartBy | src/parser.rs:359 | `trim_start_matches`: a suffix of the input, every dropped character satisfies the predicate, and the first kept one does not |
| Strings.AfterLast | src/parser.rs:91-92 | the last piece of a split holds no separator, is a suffix of the input, and is preceded by the separator when it is not the whole input |
| Strings.AfterLastAppend | src/parser.rs:91-92 | the last piece of `s + sep + t`, where `t` holds no separator, is `t` |
| Strings.BeforeFirstOccurrence | src/parser.rs:93-94 | the text before the first occurrence of a pattern does not contain it |
| Strings.NatToDecimal | src/parser.rs:397 | the decimal rendering of a number is a non-empty digit string with no leading zero that reads back as the number |
| Strings.DecimalRoundTrip | src/parser.rs:373-374 | digits with no leading zero, read as a number and rendered again, give the same digits |
| Articles.ParseReplyType | src/article.rs:46-54 | exactly the three glyphs 推, → and 噓 parse |
| Articles.ParseReplyTypeExact | src/article.rs:46-54 | parsing is exactly the inverse of the glyph table, in both directions |
| Boards.Serialize | src/article.rs:58-227 | `Display`: every board name is 2 to 12 characters long |
| Boards.ParseBoardName | src/article.rs:58-227 | `EnumString`: a board parsed from a name renders as that name |
| Boards.SerializeAsWritten | src/article.rs:68-69 | as compiled, every board but `Biker` renders as in the corrected table |
| Boards.ParseBoardNameAsWritten | src/article.rs:68-69 | as compiled, a board parsed from a name renders as that name |
| Boards.CandidateForSerialize | src/article.rs:58-227 | every board is found again from its name by the table indexed by length and first, second and last characters |
| Boards.ParseBoardNameExact | src/article.rs:58-227 | `from_str` succeeds exactly on the rendered names, with the board so named |
| Boards.BoardRoundTrip | src/article.rs:58-227 | rendering a board and parsing the name gives the board back |
| Boards.SerializeInjective | src/article.rs:58-227 | no two boards share a name |
| Boards.UnknownIsABoard | src/article.rs:226 | `Unknown` is a member that renders as "Unknown" and parses back |
| Boards.SoftJobName | src/article.rs:200-201 | a renamed board: `SoftJob` is "Soft_Job" both ways |
| Boards.GossipingName | src/article.rs:117 | a board without a rename is known by its variant name both ways |
| Boards.SoftJobVariantNameUnknown | src/article.rs:200-201 | the variant name of a renamed board is not a board name |
| Boards.BikerVariantNameUnknown | src/article.rs:68-69 | with the corrected table, "Biker" is not a board name |
| Boards.ParseBoardNameAsWrittenExact | src/article.rs:68-69 | the table as compiled, with `Biker` keeping its variant name, is still exact in both directions |
| Boards.AsWrittenExactOnBiker | src/article.rs:68-69 | in the table as compiled, only `Biker` is named "Biker" |
| Boards.AsWrittenExactOnLowerBiker | src/article.rs:68-69 | in the table as compiled, no board is named "biker" |
| Boards.BikerMissingAsWritten | src/article.rs:68-69 | the table as compiled does not know "biker", and the corrected table maps it to `Biker` |
| Fields.ParseId | src/parser.rs:84-96 | the id holds no slash and no ".html"; it is a prefix of the link's last segment and ".html" follows it there |
| Fields.ReadId | src/parser.rs:91-95 | the step-by-step cut of the reassigned `id` gives `ParseId` |
| Fields.ParseIdOfCanonical | src/parser.rs:84-96 | a link `<prefix>/<id>.html`, with no slash in the id and no '.' before an 'h' in it, gives that id |
| Fields.ParseIdExample | src/parser.rs:464-469 | the link of the Soft_Job test page gives `M.1181801925.A.86E` |
| Fields.FindLabel | src/parser.rs:110-113 | the first span whose trimmed text is the caption, and no earlier span has it |
| Fields.RawField | src/parser.rs:118-125 | the raw fallback succeeds exactly when the caption occurs; it is the text from the caption's colon up to the next line feed and holds no line feed |
| Fields.RawLabelBounds | src/parser.rs:121-123 | in the text from the caption on, the first colon ends the caption and the first line feed comes after it |
| Fields.TitleText | src/parser.rs:104-133 | `og:title` first, then the text after the 標題 span, then the raw text after "標題:" up to the line feed; `FieldNotFound("title")` exactly when all three miss |
| Fields.MatchTitle | src/parser.rs:135-144 | the title proper holds no line feed and is empty only for an empty input; a category is a word |
| Fields.ParseTitle | src/parser.rs:98-145 | fails exactly when no title is found, with `FieldNotFound("title")` |
| Fields.TitleWithCategory | src/parser.rs:100-101 | a bracketed word, optional whitespace and a one-line rest split into that word and that rest, with either kind of bracket |
| Fields.TitleRoundTrip | src/parser.rs:135-142 | a title assembled from a bracketed category, whitespace and a rest gives back the category and the rest |
| Fields.TitleWithoutCategory | src/parser.rs:135-144 | a one-line title that does not open with a bracket is kept whole, with no category |
| Fields.TitleExampleWithCategory | src/parser.rs:471-479 | "[公告] Soft_Job 板試閱" splits into 公告 and "Soft_Job 板試閱" |
| Fields.TitleExamplesWithoutCategory | src/parser.rs:481-509 | the test titles without a category are kept whole |
| Fields.TitleCategoryExact | src/parser.rs:101 | a trimmed title yields a category exactly when the category group matches (`CategoryEndsAt`), and the category is the word between the brackets |
| Fields.TitleFirstLine | src/parser.rs:135-144 | a trimmed title without the category shape is kept up to its first line feed, with no category |
| Fields.TitleCategoryFirstLine | src/parser.rs:135-144 | with the category shape, the title runs from the first character after the whitespace up to the next line feed |
| Fields.TitleBareCategoryExample | src/parser.rs:101 | "[公告]" alone has no category and is kept whole |
| Fields.TitleUnclosedExample | src/parser.rs:101 | "[ab" has no category and is kept whole |
| Fields.TitleEmptyBracketsExample | src/parser.rs:101 | "[ ]x" has no category and is kept whole |
| Fields.TitleTwoLinesExample | src/parser.rs:101 | a two-line title without a category keeps its first line |
| Fields.TitleCategoryExampleTwoLines | src/parser.rs:101 | a two-line title with a category keeps the first line after the category |
| Fields.AuthorText | src/parser.rs:152-181 | the first meta value, then the text after the 作者 span, then the raw text after "作者:" up to the line feed; `FieldNotFound("author")` exactly when all three miss |
| Fields.MatchAuthorFrom | src/parser.rs:149 | a match found is a match of `(?P<id>\w+)\s\((?P<name>.+)\)` at or after the start |
| Fields.MatchAuthorAt | src/parser.rs:149 | wherever the pattern matches, the search from that position finds a match there, with the same id and a name no shorter |
| Fields.MatchAuthorLeftmost | src/parser.rs:183-185 | the match found starts no later than any match, and at the same start its name is no shorter: the leftmost, greedy match of `captures` |
| Fields.SplitAuthor | src/parser.rs:182-186 | an author match's id and name, or the whole trimmed text and no name exactly when the pattern matches nowhere |
| Fields.ParseAuthor | src/parser.rs:147-187 | fails exactly when no author text is found, with `FieldNotFound("author")` |
| Fields.AuthorRoundTrip | src/parser.rs:183-184 | `id (name)`, with a word for id and a one-line name, splits into that id and that name |
| Fields.AuthorWithoutName | src/parser.rs:185 | without an opening parenthesis the whole trimmed text is the id, with no name |
| Fields.AuthorExampleJunchoon | src/parser.rs:511-519 | the test author `Junchoon (裘髯客)` splits into its id and name |
| Fields.AuthorExampleEggimage | src/parser.rs:521-529 | the test author `eggimage (雞蛋非人哉啊....)` splits into its id and name |
| Fields.AuthorExampleWithoutName | src/parser.rs:531-539 | `MOTHERGOOSE` has no display name |
| Fields.ParseBoard | src/parser.rs:189-208 | `FieldNotFound("board")` exactly when neither the second meta value nor the 看板 span exists; otherwise the board with that name, or `Unknown` when no board has it |
| Fields.BoardExamples | src/parser.rs:550-562 | "Soft_Job" from the meta values and "Gossiping" from the span give `SoftJob` and `Gossiping` |
| Fields.ParseContent | src/parser.rs:301-319 | every failure is `InvalidFormat` |
| Fields.ParseContentFails | src/parser.rs:303-316 | the body fails exactly when there is no line feed, or no "\n※" after the first one |
| Fields.ParseContentBody | src/parser.rs:310-318 | the body is the trimmed slice from the first line feed to the first "\n※" after it, holds no "\n※", and is its own trim |
| Fields.BodyHasNoEnd | src/parser.rs:310-318 | the trimmed slice up to the first "\n※" holds no "\n※" |
| Addresses.QuadFrom | src/parser.rs:261 | a match found at a position is a match of `\d{1,3}\.\d{1,3}\.\d{1,3}\.\d{1,3}` there |
| Addresses.QuadFromComplete | src/parser.rs:261 | every match at a position has the dots of the one found and ends no later: the match found is the greedy one |
| Addresses.FindQuad | src/parser.rs:278 | the match found starts at the first position where the pattern matches |
| Addresses.FindQuadLeftmost | src/parser.rs:278 | no match starts before the one found, and none starting with it is longer |
| Addresses.ParseIpText | src/parser.rs:278-290 | the value of the leftmost match when every octet is at most 255, and `FieldNotFound("ip")` otherwise or when nothing matches |
| Addresses.ReadJoinedGroups | src/parser.rs:278-285 | four digit groups joined by dots, after text without digits, read as the address they spell, or an error when a group is above 255 |
| Addresses.GroupsWriteBack | src/parser.rs:397 | groups without leading zeros are written back exactly by the address's rendering |
| Addresses.WrittenIpRead | src/parser.rs:278-290 | a written address with octets of up to three digits reads back as itself when valid, and as `FieldNotFound("ip")` when an octet is above 255 |
| Addresses.IpRoundTrip | src/parser.rs:278-285 | a valid address written after text without digits reads back as itself |
| Addresses.WrittenIpQuad | src/parser.rs:261 | a written address is the match at its position, ending where it ends, with its octets as values |
| Addresses.IpExample | src/parser.rs:648-655 | the origin line of the Soft_Job test page reads as 125.232.236.105 |
| Addresses.OutOfRangeIp | src/parser.rs:675-682 | an out-of-range leftmost address is an error even when a valid one follows |
| Addresses.FindOriginLine | src/parser.rs:264-268 | the first `f2` text that names an origin and is not an edit line |
| Addresses.IpSource | src/parser.rs:264-277 | the origin line, else the main text from its first "來自:", else from its first "From:", else all of it |
| Addresses.ParseIp | src/parser.rs:259-291 | every failure is `FieldNotFound("ip")` and every address read has octets of at most 255 |
| Replies.StampAt | src/parser.rs:331 | a stamp matches only at a digit or a whitespace character, and a stamp with an address starts with a dotted-quad match |
| Replies.StampStartFrom | src/parser.rs:331 | the first position at or after the start where the reply stamp pattern matches |
| Replies.FindStampExact | src/parser.rs:385 | a stamp is found exactly when the pattern matches somewhere, and it is the stamp at a matching position |
| Replies.ClockAtText | src/parser.rs:331 | a written `MM/DD hh:mm` reads back whole |
| Replies.ClockAtDateText | src/parser.rs:375-382 | a written `MM/DD` with no time reads as 00:00 |
| Replies.FindStampOfIpClock | src/parser.rs:331 | an address, a space and a clock after text without digits are found as a stamp with that address and clock |
| Replies.FindStampOfClock | src/parser.rs:331 | a clock after text without digits is found as a stamp with no address |
| Replies.FindStampOfDate | src/parser.rs:375-382 | a date at the end, after text without digits, is found as a stamp at 00:00 |
| Replies.IsLeapYear | src/parser.rs:436-438 | a leap year is a multiple of four; multiples of 400 are leap years and other centuries are not |
| Replies.LeapYearAtOrAfter | src/parser.rs:412-416 | a leap year at or after the given year, less than eight years on |
| Replies.NoLeapYearBefore | src/parser.rs:412-416 | no year from the given one up to `LeapYearAtOrAfter` is a leap year |
| Replies.ReplyDateOf | src/parser.rs:410-425 | a reply date exists only when the article's date does, and has zero seconds |
| Replies.ReplyDate | src/parser.rs:410-425 | the closure with its leap-year loop computes `ReplyDateOf` |
| Replies.ReplyDateExact | src/parser.rs:410-425 | a date exists exactly when the article's date does and the clock in the reply's year is a valid date and time; it keeps the clock's month, day, hour and minute |
| Replies.ReplyDateKeepsYear | src/parser.rs:411-412 | any day but 02/29 keeps the article's year |
| Replies.ReplyDateLeapDay | src/parser.rs:412-416 | 02/29 lands in the first leap year at or after the article's year |
| Replies.ReplyDateInvalidDay | src/parser.rs:619-634 | a day past 31 leaves the reply without a date |
| Replies.ReplyDateExample | src/parser.rs:619-634 | 03/32 gives no date; a normal day keeps the year; 02/29 from 2021 lands in 2024 and from 2097 in 2104 |
| Replies.ParseReply | src/parser.rs:328-434 | `InvalidFormat` exactly for the oversize warning node or a node with no stamp in its time span or its text; otherwise the tag's type and the node's user id, and the address and date of the stamp found (in the time span first, else in the text), with the whole reply text when the stamp is in the time span or has no address |
| Replies.ReadReply | src/parser.rs:354-433 | the step-by-step reading, with the text cut in place and the date from the loop, gives `ParseReply` |
| Replies.ReplyText | src/parser.rs:354-361 | the text kept is the trim of what follows the whole leading run of colons and spaces; it is no longer than the span's and is already trimmed |
| Replies.ReplyTextAfterLead | src/parser.rs:354-361 | for any leading run of colons and spaces that stops at another character, the text kept is the trim of the rest |
| Replies.ReplyTextAfterColon | src/parser.rs:354-361 | a text written as ": " before its words keeps those words, trimmed |
| Replies.ReplyWithClock | src/parser.rs:385-386 | a time span holding a clock dates the reply from it and keeps the text whole |
| Replies.ReplyWithIpClock | src/parser.rs:365-386 | a time span holding an address, a space and a clock gives a reply with that address, dated from that clock, with the whole reply text |
| Replies.ReplyWithDate | src/parser.rs:375-382 | a time span holding only a date dates the reply at 00:00 |
| Replies.WarningNodeRejected | src/parser.rs:336-339 | the oversize warning node is `InvalidFormat` |
| Replies.ReplyFromTextStamp | src/parser.rs:392-400 | a stamp with an address found only in the text dates the reply, and the text is cut before the address's first occurrence |
| Replies.TextWithIpClock | src/parser.rs:392-398 | text ending with an address and a clock holds that stamp, and the address is first found where it was written |
| Replies.ReplyWithStampInText | src/parser.rs:392-400 | an empty time span and a text ending with an address and a clock give that date, that address and the text before the address |
| Replies.ParseReplies | src/parser.rs:321-326 | at most one reply per node |
| Replies.Outcomes | src/parser.rs:321-326 | one outcome per node, in document order, each the node's own reading |
| Replies.ParseRepliesLength | src/parser.rs:321-326 | no more replies than nodes, and as many when every node reads |
| Replies.ParseRepliesAppend | src/parser.rs:321-326 | the replies of two runs of nodes are the first run's followed by the second's |
| Replies.ParseRepliesKeeps | src/parser.rs:321-326 | every node that reads as a reply has its reply kept |
| Replies.ParseRepliesSource | src/parser.rs:321-326 | every kept reply is what some node reads as |
| Replies.WarningAlone | src/parser.rs:606-617 | the warning node alone leaves no reply |
| Replies.ParseRepliesSkipsWarning | src/parser.rs:606-617 | a warning node between two runs of nodes leaves nothing behind, and the rest stay in order |
| Parser.IsArticleExist | src/parser.rs:54-58 | an article exists exactly when the deleted-article marker occurs at no position of any `bbs-content` text |
| Parser.CategoryOf | src/parser.rs:62-66 | the category is the bracketed word when there is one, and empty exactly when the title has none or an empty one |
| Parser.ParseMeta | src/parser.rs:60-82 | title, author and board errors stop it in that order; otherwise it holds the id, the title, the category word, the author, the board and the article date, and the address exactly when one is read |
| Parser.Tally | src/parser.rs:32-45 | the three counts add up to the number of replies |
| Parser.Count | src/parser.rs:32-45 | a count is at most the number of replies |
| Parser.TallySum | src/parser.rs:32-45 | the three counts add up to the number of replies |
| Parser.CountAppend | src/parser.rs:32-45 | counting distributes over concatenation |
| Parser.CountOne | src/parser.rs:32-45 | a reply counts one for its own kind and none for the others |
| Parser.Parse | src/parser.rs:22-52 | deleted first, then meta and body errors; otherwise the meta data, the body, the replies dated from the article's date, and their tally |
| Parser.ParseErrors | src/parser.rs:22-29 | `DeletedArticle` exactly for a deleted page; every other error is a missing title, author or board, or a malformed body |
| Parser.DeletedFirst | src/parser.rs:22-26 | a deleted page is reported whatever else it holds, unreadable fields included |
| Parser.ParsedCounts | src/parser.rs:30-45 | the counts of a parsed article add up to its replies, which are at most its reply nodes |
| Parser.UnreadableIpTolerated | src/parser.rs:69-70 | an unreadable address leaves the article without one and does not fail it |
| BoardRange.RangeOf | src/main.rs:211-231 | an accepted range never ends past the last page, and a range given is ascending |
| BoardRange.AdjustBoardRange | src/main.rs:211-231 | the method that completes and swaps the vector in place computes `RangeOf` |
| BoardRange.WholeBoard | src/main.rs:229 | no range means every page from 1 to the page count |
| BoardRange.SinglePage | src/main.rs:217-219 | one page number acts as that page and the last page |
| BoardRange.TwoPages | src/main.rs:220-227 | two page numbers in either order give the same range, ascending, with exactly those two ends, and an error exactly when either is past the last page |
| BoardRange.PageZeroAccepted | src/main.rs:224-227 | page 0 is accepted as the lower end |
| BoardRange.ExtraPagesIgnored | src/main.rs:221-227 | numbers after the first two are ignored |

## Left out

- HTTP crawling (`src/crawler.rs`), the command line, JSON output, file writing and logging are I/O with nothing to prove.
- `main.rs` apart from `adjust_board_range` is left out, and `src/lib.rs` only declares modules.
- `select` queries are not modelled: the page is the `Html.Document` record of the strings they locate.
- The `main-content` div is assumed present, and so is the node after each labelled span (the `unwrap`s at src/parser.rs:115, 163, 204, 297), and so is the `content` attribute of the `og:title` meta (the `unwrap` at src/parser.rs:108): `Document.ogTitle` holds its value.
- Each `div.push` node is assumed to hold its tag, user id, content and ip/date-time spans (the `unwrap`s at src/parser.rs:344, 352, 357, 365): `Html.PushNode` always carries their texts.
- Fields.ParseBoard: built on the corrected board table, so the pipeline (`Parser.ParseMeta`, `Parser.Parse`) reads "biker" as `Biker` and "Biker" as `Unknown`. The program as compiled does the opposite; `Boards.ParseBoardNameAsWritten` models that table (see Findings).
- `parse_date` and `parse_date_from_str`: chrono's `strftime` parsing is library behaviour. The article's date is an input of the page record (`Document.articleDate`).
- The fixed UTC+8 offset is not modelled: a fixed offset always gives `LocalResult::Single`, so a date is its calendar fields.
- The general regex engine is not modelled. Only the title, author, address and reply-stamp patterns are written out, as leftmost-match functions.
- `\d` is read as the ASCII digits, although Rust's `\d` also accepts other Unicode decimal digits.
- `\w` is approximated: ASCII letters, digits and `_`, plus every non-ASCII character that is neither whitespace nor in `Strings.NonWordSymbols`.
- Strings are sequences of characters; Rust's byte offsets into UTF-8 are not modelled.
- Parser.Tally: counts are unbounded naturals, so the source's `as i16` casts into `u16` fields (src/parser.rs:36-44) are not modelled.
- Integer widths are not modelled: years are `int` and months, days, hours and minutes are `nat`, for the source's `i32` and `u32`. The leap-year loop moves at most seven years from a year within chrono's range, so it cannot overflow.
- Addresses.ParseIpText: an octet written with a leading zero, such as `01`, reads as its value; `Ipv4Addr::from_str` in recent Rust releases refuses such octets.
- Replies.IsReadableReply: the same holds for a reply's address (src/parser.rs:372): a stamp such as `01.2.3.4 03/05 10:20` meets the precondition and reads as 1.2.3.4, where recent Rust releases refuse the octet and the `unwrap` panics.
- Panicking `unwrap`s are preconditions rather than error results:
  - a missing canonical link or ".html" (src/parser.rs:88-93, `Fields.HasCanonicalId`);
  - a raw label with no line feed after it (src/parser.rs:122, 170, `Fields.TitleReadable`, `Fields.AuthorReadable`);
  - an unknown reply tag, a reply address with an octet above 255, or an address not found again in the text (src/parser.rs:347-348, 372, 397, `Replies.IsReadableReply`).

## Findings

| source | as written | input that shows it | evidently intended | confidence | as-written member | corrected member |
|---|---|---|---|---|---|---|
| src/article.rs:68 | `#[strum(serialize"biker")]` lacks its `=`, so it is not a `serialize` directive and `Biker` keeps its variant name "Biker" | the board name "biker", as the site writes it, parses to nothing, and the board falls back to `Unknown` | `Biker` is "biker" both ways, like every other renamed board | medium (depends on how the strum version reads a malformed attribute); not executed | Boards.BikerMissingAsWritten | Boards.BoardRoundTrip |
