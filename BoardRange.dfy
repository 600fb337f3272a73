/**
 * `adjust_board_range` in `src/main.rs`: the pages of a board to crawl, from an optional
 * range of one or two page numbers and the board's page count.
 */
module BoardRange {
  import opened Wrappers

  function Min(a: nat, b: nat): nat {
    if a <= b then a else b
  }

  function Max(a: nat, b: nat): nat {
    if a <= b then b else a
  }

  /**
   * The range asked for, as an inclusive pair of pages: every page without a range; from the
   * one page given to the last page; between the two pages given, in either order. It is an
   * error when its upper end lies past the last page; its lower end is never checked.
   */
  function RangeOf(pageCount: nat, range: Option<seq<nat>>): (r: Result<(nat, nat), ()>)
    requires range.Some? ==> |range.value| >= 1
    ensures r.Ok? ==> r.value.1 <= pageCount
    ensures range.Some? && r.Ok? ==> r.value.0 <= r.value.1
  {
    match range
    case None => Ok((1, pageCount))
    case Some(r) =>
      var a := r[0];
      var b := if |r| == 1 then pageCount else r[1];
      if Max(a, b) > pageCount then Err(()) else Ok((Min(a, b), Max(a, b)))
  }

  /**
   * `adjust_board_range`: the vector of page numbers is completed with the page count when it
   * holds one number, and its first two numbers are swapped when they are in decreasing
   * order, before the upper end is checked.
   */
  method AdjustBoardRange(pageCount: nat, range: Option<seq<nat>>) returns (result: Result<(nat, nat), ()>)
    requires range.Some? ==> |range.value| >= 1
    ensures result == RangeOf(pageCount, range)
  {
    match range {
      case None =>
        result := Ok((1, pageCount));
      case Some(given) =>
        var r := given;
        if |r| == 1 {
          r := r + [pageCount];
        }
        if r[0] > r[1] {
          r := r[0 := r[1]][1 := r[0]];
        }
        if r[1] > pageCount {
          return Err(());
        }
        result := Ok((r[0], r[1]));
    }
  }

  /** Without a range, every page from the first to the last. */
  lemma WholeBoard(pageCount: nat)
    ensures RangeOf(pageCount, None) == Ok((1, pageCount))
  {
  }

  /** One page number reads as that page and the last page. */
  lemma SinglePage(pageCount: nat, a: nat)
    ensures RangeOf(pageCount, Some([a])) == RangeOf(pageCount, Some([a, pageCount]))
  {
  }

  /**
   * Two page numbers, in either order, give the same range: ascending, with exactly those two
   * numbers as its ends, and an error exactly when the larger one lies past the last page.
   */
  lemma TwoPages(pageCount: nat, a: nat, b: nat)
    ensures RangeOf(pageCount, Some([a, b])) == RangeOf(pageCount, Some([b, a]))
    ensures RangeOf(pageCount, Some([a, b])).Err? <==> a > pageCount || b > pageCount
    ensures RangeOf(pageCount, Some([a, b])).Ok? ==>
      var (lo, hi) := RangeOf(pageCount, Some([a, b])).value;
      lo <= hi && multiset{lo, hi} == multiset{a, b}
  {
  }

  /** Page 0 is accepted as a lower end. */
  lemma PageZeroAccepted(pageCount: nat, b: nat)
    requires b <= pageCount
    ensures RangeOf(pageCount, Some([0, b])) == Ok((0, b))
  {
  }

  /** Numbers past the first two are ignored. */
  lemma ExtraPagesIgnored(pageCount: nat, r: seq<nat>)
    requires |r| >= 2
    ensures RangeOf(pageCount, Some(r)) == RangeOf(pageCount, Some(r[..2]))
  {
  }
}
