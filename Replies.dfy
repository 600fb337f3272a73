/**
 * The replies of an article as `src/parser.rs` reads them: the time stamp each `div.push`
 * node carries (an optional address, a month and day, an optional time), the year it is
 * given from the article's date, and the reply records in document order.
 */
module Replies {
  import opened Wrappers
  import opened Strings
  import opened Articles
  import opened Html
  import opened Fields
  import opened Addresses

  // The time stamp.

  /** What a stamp says of the time: month, day, hour and minute; 00:00 when it has no time. */
  datatype Clock = Clock(month: nat, day: nat, hour: nat, minute: nat)

  /** A match of the stamp pattern: the address it starts with, if any, and the clock. */
  datatype Stamp = Stamp(ip: Option<Ipv4>, clock: Clock)

  predicate IsTwoDigitsAt(s: string, i: nat) {
    i + 2 <= |s| && IsDigit(s[i]) && IsDigit(s[i + 1])
  }

  /** `\d{2}` read by `str::parse::<u32>`. */
  function TwoDigitValue(s: string, i: nat): (n: nat)
    requires IsTwoDigitsAt(s, i)
    ensures n < 100
  {
    10 * DigitValue(s[i]) + DigitValue(s[i + 1])
  }

  /**
   * `(\s*(?P<hour>\d{2}):(?P<min>\d{2}))?` at `i`. The whitespace is greedy, and giving some
   * of it back cannot help, since the hour must start with a digit.
   */
  function TimeAt(s: string, i: nat): Option<(nat, nat)>
    requires i <= |s|
  {
    var w := RunEnd(s, i, IsWhitespace);
    if IsTwoDigitsAt(s, w) && w + 2 < |s| && s[w + 2] == ':' && IsTwoDigitsAt(s, w + 3) then
      Some((TwoDigitValue(s, w), TwoDigitValue(s, w + 3)))
    else None
  }

  /** `(?P<month>\d{2})/(?P<day>\d{2})` and the optional time at `q`; no time reads as 00:00. */
  function ClockAt(s: string, q: nat): Option<Clock>
    requires q <= |s|
  {
    if IsTwoDigitsAt(s, q) && q + 2 < |s| && s[q + 2] == '/' && IsTwoDigitsAt(s, q + 3) then
      match TimeAt(s, q + 5)
      case Some((hour, minute)) => Some(Clock(TwoDigitValue(s, q), TwoDigitValue(s, q + 3), hour, minute))
      case None => Some(Clock(TwoDigitValue(s, q), TwoDigitValue(s, q + 3), 0, 0))
    else None
  }

  /**
   * `\s?` and then the clock. The optional whitespace is taken when it is there; giving it
   * back cannot help, since the month must start with a digit.
   */
  function ClockAfter(s: string, a: nat): Option<Clock>
    requires a <= |s|
  {
    if a < |s| && IsWhitespace(s[a]) then ClockAt(s, a + 1) else ClockAt(s, a)
  }

  /**
   * The branch with an address: its last group ends at `k`, and when no clock follows, the
   * regex backtracks into the last group, one digit at a time.
   */
  function ClockAfterQuad(s: string, q: Quad, k: nat): (r: Option<Stamp>)
    requires IsQuad(s, q) && q.dot3 + 1 < k <= q.end
    ensures r.Some? ==> r.value.ip.Some?
    decreases k
  {
    var shortened := Quad(q.start, q.dot1, q.dot2, q.dot3, k);
    assert IsQuad(s, shortened);
    match ClockAfter(s, k)
    case Some(c) => Some(Stamp(Some(QuadValue(s, shortened)), c))
    case None => if k == q.dot3 + 2 then None else ClockAfterQuad(s, q, k - 1)
  }

  /**
   * The stamp pattern `(?P<ip>…)?\s?(?P<month>\d{2})/(?P<day>\d{2})(\s*(?P<hour>\d{2}):(?P<min>\d{2}))?`
   * at `p`: the optional address is greedy, so the branch with an address is tried first.
   */
  function StampAt(s: string, p: nat): (r: Option<Stamp>)
    requires p <= |s|
    ensures r.Some? ==> p < |s| && (IsDigit(s[p]) || IsWhitespace(s[p]))
    ensures r.Some? && r.value.ip.Some? ==> QuadFrom(s, p).Some?
  {
    var withIp := match QuadFrom(s, p)
      case Some(q) => ClockAfterQuad(s, q, q.end)
      case None => None;
    if withIp.Some? then withIp
    else match ClockAfter(s, p)
      case Some(c) => Some(Stamp(None, c))
      case None => None
  }

  /** The leftmost position at or after `p` where the stamp pattern matches. */
  function StampStartFrom(s: string, p: nat): (r: Option<nat>)
    requires p <= |s|
    ensures r.Some? ==> p <= r.value <= |s| && StampAt(s, r.value).Some?
    ensures forall i: nat :: p <= i <= |s| && (r.None? || i < r.value) ==> StampAt(s, i).None?
  {
    var matches := (i: nat) => i <= |s| && StampAt(s, i).Some?;
    assert forall i: nat :: matches(i) == (i <= |s| && StampAt(s, i).Some?);
    FirstWhere(matches, p, |s|)
  }

  /** `Regex::captures` with the stamp pattern: the match at the leftmost position. */
  function FindStamp(s: string): Option<Stamp> {
    match StampStartFrom(s, 0)
    case Some(p) => StampAt(s, p)
    case None => None
  }

  /** A stamp is found exactly when the pattern matches somewhere. */
  lemma FindStampExact(s: string)
    ensures FindStamp(s).Some? <==> exists i: nat :: i <= |s| && StampAt(s, i).Some?
    ensures FindStamp(s).Some? ==> exists i: nat :: i <= |s| && FindStamp(s) == StampAt(s, i)
  {
  }

  // Writing a clock.

  predicate IsClockWritable(c: Clock) {
    c.month < 100 && c.day < 100 && c.hour < 100 && c.minute < 100
  }

  /** A number below 100 in two digits. */
  function TwoDigitText(n: nat): (r: string)
    requires n < 100
    ensures |r| == 2 && IsTwoDigitsAt(r, 0) && TwoDigitValue(r, 0) == n
  {
    [DigitChar(n / 10), DigitChar(n % 10)]
  }

  /** The month and the day as the board writes them: `MM/DD`. */
  function DateText(c: Clock): (r: string)
    requires IsClockWritable(c)
    ensures |r| == 5
  {
    TwoDigitText(c.month) + "/" + TwoDigitText(c.day)
  }

  /** The whole clock as the board writes it: `MM/DD hh:mm`. */
  function ClockText(c: Clock): (r: string)
    requires IsClockWritable(c)
    ensures |r| == 11
  {
    DateText(c) + " " + TwoDigitText(c.hour) + ":" + TwoDigitText(c.minute)
  }

  /** Two written digits at `i` read back as their number. */
  lemma TwoDigitsPlaced(s: string, i: nat, n: nat)
    requires n < 100 && OccursAt(s, TwoDigitText(n), i)
    ensures IsTwoDigitsAt(s, i) && TwoDigitValue(s, i) == n
  {
    var t := TwoDigitText(n);
    assert s[i] == t[0] && s[i + 1] == t[1];
  }

  /** The character facts of a written date at `q`. */
  lemma DatePlaced(s: string, q: nat, c: Clock)
    requires IsClockWritable(c) && OccursAt(s, DateText(c), q)
    ensures OccursAt(s, TwoDigitText(c.month), q) && s[q + 2] == '/'
    ensures OccursAt(s, TwoDigitText(c.day), q + 3)
  {
    var t := DateText(c);
    assert s[q + 2] == t[2];
    forall m | 0 <= m < 2
      ensures s[q + m] == TwoDigitText(c.month)[m] && s[q + 3 + m] == TwoDigitText(c.day)[m]
    {
      assert s[q + m] == t[m] && s[q + 3 + m] == t[3 + m];
    }
  }

  /** The character facts of a written clock at `q`. */
  lemma ClockPlaced(s: string, q: nat, c: Clock)
    requires IsClockWritable(c) && OccursAt(s, ClockText(c), q)
    ensures OccursAt(s, DateText(c), q) && s[q + 5] == ' '
    ensures OccursAt(s, TwoDigitText(c.hour), q + 6) && s[q + 8] == ':'
    ensures OccursAt(s, TwoDigitText(c.minute), q + 9)
  {
    var t := ClockText(c);
    assert s[q + 5] == t[5] && s[q + 8] == t[8];
    forall m | 0 <= m < 5
      ensures s[q + m] == DateText(c)[m]
    {
      assert s[q + m] == t[m];
    }
    forall m | 0 <= m < 2
      ensures s[q + 6 + m] == TwoDigitText(c.hour)[m] && s[q + 9 + m] == TwoDigitText(c.minute)[m]
    {
      assert s[q + 6 + m] == t[6 + m] && s[q + 9 + m] == t[9 + m];
    }
  }

  /** A written clock is read back whole. */
  lemma ClockAtText(s: string, q: nat, c: Clock)
    requires IsClockWritable(c) && OccursAt(s, ClockText(c), q)
    ensures ClockAt(s, q) == Some(c)
  {
    ClockPlaced(s, q, c);
    DatePlaced(s, q, c);
    TwoDigitsPlaced(s, q, c.month);
    TwoDigitsPlaced(s, q + 3, c.day);
    TwoDigitsPlaced(s, q + 6, c.hour);
    TwoDigitsPlaced(s, q + 9, c.minute);
    RunEndIs(s, q + 5, q + 6, IsWhitespace);
  }

  /** A written date that ends the text is read with the time 00:00. */
  lemma ClockAtDateText(s: string, q: nat, c: Clock)
    requires IsClockWritable(c) && OccursAt(s, DateText(c), q) && q + 5 == |s|
    ensures ClockAt(s, q) == Some(Clock(c.month, c.day, 0, 0))
  {
    DatePlaced(s, q, c);
    TwoDigitsPlaced(s, q, c.month);
    TwoDigitsPlaced(s, q + 3, c.day);
  }

  /** A month and day at `p` start no address: the address needs a dot within its first four characters. */
  lemma NoQuadAtClock(s: string, p: nat)
    requires IsTwoDigitsAt(s, p) && p + 2 < |s| && s[p + 2] == '/'
    ensures QuadFrom(s, p).None?
  {
    RunEndIs(s, p, p + 2, IsDigit);
  }

  /** An address starts no month and day: its first dot comes within its first four characters. */
  lemma NoClockAtQuad(s: string, q: Quad)
    requires IsQuad(s, q)
    ensures ClockAt(s, q.start).None?
  {
  }

  /**
   * No stamp starts at `k` in text without digits, unless `k` is its last character and is
   * whitespace.
   */
  lemma NoStampInText(s: string, n: nat, k: nat)
    requires n <= |s| && NoDigitBefore(s, n) && k < n
    requires k + 1 < n || !IsWhitespace(s[k])
    ensures StampAt(s, k).None?
  {
  }

  /** The search from `p` stops at or before a position where the pattern matches. */
  lemma StampStartReaches(s: string, p: nat, n: nat)
    requires p <= n <= |s| && StampAt(s, n).Some?
    ensures StampStartFrom(s, p).Some? && StampStartFrom(s, p).value <= n
  {
  }

  /** The search from `p` goes past positions where the pattern does not match. */
  lemma StampStartPasses(s: string, p: nat, n: nat)
    requires p <= n <= |s|
    requires forall k: nat :: p <= k < n ==> StampAt(s, k).None?
    ensures StampStartFrom(s, p).None? || StampStartFrom(s, p).value >= n
  {
  }

  /** A position found no later and no earlier than `n` is `n`. */
  lemma FoundAt(r: Option<nat>, n: nat)
    requires r.Some? && r.value <= n && (r.None? || r.value >= n)
    ensures r == Some(n)
  {
  }

  /** The search from `p` stops at `n` when the pattern matches at `n` and nowhere before. */
  lemma StampStartSkips(s: string, p: nat, n: nat)
    requires p <= n <= |s| && StampAt(s, n).Some?
    requires forall k: nat :: p <= k < n ==> StampAt(s, k).None?
    ensures StampStartFrom(s, p) == Some(n)
  {
    StampStartReaches(s, p, n);
    StampStartPasses(s, p, n);
    FoundAt(StampStartFrom(s, p), n);
  }

  /** The characters of three texts joined. */
  lemma Joined(pre: string, mid: string, post: string)
    ensures var s := pre + mid + post;
      OccursAt(s, mid, |pre|) && OccursAt(s, post, |pre| + |mid|)
      && forall k :: 0 <= k < |pre| ==> s[k] == pre[k]
  {
  }

  /** Text without digits keeps none when joined before something else. */
  lemma NoDigitBeforeJoined(pre: string, rest: string)
    requires NoDigitBefore(pre, |pre|)
    ensures NoDigitBefore(pre + rest, |pre|)
  {
    Joined(pre, rest, []);
  }

  /** An address matched at `n` and followed by a space and a clock is read with that clock. */
  lemma StampAtQuadClock(s: string, n: nat, ip: Ipv4, c: Clock)
    requires n <= |s| && QuadFrom(s, n).Some? && QuadValue(s, QuadFrom(s, n).value) == ip
    requires IsClockWritable(c)
    requires var e := QuadFrom(s, n).value.end; e < |s| && s[e] == ' ' && OccursAt(s, ClockText(c), e + 1)
    ensures StampAt(s, n) == Some(Stamp(Some(ip), c))
  {
    var q := QuadFrom(s, n).value;
    ClockAfterSpace(s, q.end, c);
    ClockRightAfterQuad(s, q, ip, c);
  }

  /** A clock written after a space is the clock read after that position. */
  lemma ClockAfterSpace(s: string, e: nat, c: Clock)
    requires IsClockWritable(c) && e < |s| && s[e] == ' ' && OccursAt(s, ClockText(c), e + 1)
    ensures ClockAfter(s, e) == Some(c)
  {
    ClockAtText(s, e + 1, c);
  }

  /** A clock right after a whole match is read with the match's address, without backtracking. */
  lemma ClockRightAfterQuad(s: string, q: Quad, ip: Ipv4, c: Clock)
    requires IsQuad(s, q) && QuadValue(s, q) == ip && ClockAfter(s, q.end) == Some(c)
    ensures ClockAfterQuad(s, q, q.end) == Some(Stamp(Some(ip), c))
  {
    assert Quad(q.start, q.dot1, q.dot2, q.dot3, q.end) == q;
  }

  /** When an address is matched at `n`, after text without digits, the stamp there is the one found. */
  lemma StampsBeforeQuad(s: string, n: nat, st: Stamp)
    requires n <= |s| && NoDigitBefore(s, n) && QuadFrom(s, n).Some? && StampAt(s, n) == Some(st)
    ensures FindStamp(s) == Some(st)
  {
    forall k: nat | k < n
      ensures StampAt(s, k).None?
    {
      NoStampBeforeQuad(s, n, k);
    }
    StampStartSkips(s, 0, n);
  }

  /** No stamp starts in the digit-free text before a matched address. */
  lemma NoStampBeforeQuad(s: string, n: nat, k: nat)
    requires n <= |s| && NoDigitBefore(s, n) && QuadFrom(s, n).Some? && k < n
    ensures StampAt(s, k).None?
  {
    if k + 1 < n || !IsWhitespace(s[k]) {
      NoStampInText(s, n, k);
    } else {
      NoClockAtQuad(s, QuadFrom(s, n).value);
    }
  }

  /**
   * An address, a space and a clock, after text without digits, are read as a stamp with that
   * address and that clock.
   */
  lemma FindStampOfIpClock(s: string, pre: string, ip: Ipv4, c: Clock)
    requires ip.a <= 999 && ip.b <= 999 && ip.c <= 999 && ip.d <= 999
    requires IsClockWritable(c) && NoDigitBefore(pre, |pre|)
    requires s == pre + IpText(ip) + " " + ClockText(c)
    ensures FindStamp(s) == Some(Stamp(Some(ip), c))
  {
    IpClockLayout(s, pre, ip, c);
    StampOfLaidOutIpClock(s, |pre|, ip, c);
  }

  /** An address matched at `n` after text without digits, then a space and a clock. */
  predicate IpClockAt(s: string, n: nat, ip: Ipv4, c: Clock) {
    IsClockWritable(c) && n <= |s| && NoDigitBefore(s, n)
    && QuadFrom(s, n).Some? && QuadValue(s, QuadFrom(s, n).value) == ip
    && var e := QuadFrom(s, n).value.end; e < |s| && s[e] == ' ' && OccursAt(s, ClockText(c), e + 1)
  }

  /** An address matched at `n` after text without digits, then a space and a clock, is the stamp found. */
  lemma StampOfLaidOutIpClock(s: string, n: nat, ip: Ipv4, c: Clock)
    requires IsClockWritable(c) && IpClockAt(s, n, ip, c)
    ensures FindStamp(s) == Some(Stamp(Some(ip), c))
  {
    StampAtQuadClock(s, n, ip, c);
    StampsBeforeQuad(s, n, Stamp(Some(ip), c));
  }

  /** Where the parts of an address, a space and a clock written after `pre` stand. */
  lemma IpClockLayout(s: string, pre: string, ip: Ipv4, c: Clock)
    requires ip.a <= 999 && ip.b <= 999 && ip.c <= 999 && ip.d <= 999
    requires IsClockWritable(c) && NoDigitBefore(pre, |pre|)
    requires s == pre + IpText(ip) + " " + ClockText(c)
    ensures IpClockAt(s, |pre|, ip, c)
  {
    var rest := " " + ClockText(c);
    AppendAssoc(pre + IpText(ip), " ", ClockText(c));
    WrittenIpQuad(pre, ip, rest);
    ClockAfterIp(s, pre, IpText(ip), c);
  }

  /** The space and the clock after an address, and the text without digits before it. */
  lemma ClockAfterIp(s: string, pre: string, t: string, c: Clock)
    requires IsClockWritable(c) && NoDigitBefore(pre, |pre|)
    requires s == pre + t + (" " + ClockText(c))
    ensures var e := |pre| + |t|;
      NoDigitBefore(s, |pre|) && e < |s| && s[e] == ' ' && OccursAt(s, ClockText(c), e + 1)
  {
    var rest := " " + ClockText(c);
    var e := |pre| + |t|;
    Joined(pre, t, rest);
    assert s[e] == rest[0];
    forall m | 0 <= m < |ClockText(c)|
      ensures s[e + 1 + m] == ClockText(c)[m]
    {
      assert s[e + 1 + m] == rest[1 + m];
    }
  }

  /** A clock after text without digits is read as a stamp with no address. */
  lemma FindStampOfClock(s: string, pre: string, c: Clock)
    requires IsClockWritable(c) && NoDigitBefore(pre, |pre|)
    requires s == pre + ClockText(c)
    ensures FindStamp(s) == Some(Stamp(None, c))
  {
    var n := |pre|;
    Joined(pre, ClockText(c), []);
    assert s == pre + ClockText(c) + [];
    ClockAtText(s, n, c);
    ClockPlaced(s, n, c);
    DatePlaced(s, n, c);
    TwoDigitsPlaced(s, n, c.month);
    NoQuadAtClock(s, n);
    assert StampAt(s, n) == Some(Stamp(None, c));
    NoDigitBeforeJoined(pre, ClockText(c));
    StampsBeforeClock(s, n, Stamp(None, c));
  }

  /** A date that ends a text, after text without digits, is read as a stamp at 00:00. */
  lemma FindStampOfDate(s: string, pre: string, c: Clock)
    requires IsClockWritable(c) && NoDigitBefore(pre, |pre|)
    requires s == pre + DateText(c)
    ensures FindStamp(s) == Some(Stamp(None, Clock(c.month, c.day, 0, 0)))
  {
    var n := |pre|;
    Joined(pre, DateText(c), []);
    assert s == pre + DateText(c) + [];
    ClockAtDateText(s, n, c);
    DatePlaced(s, n, c);
    TwoDigitsPlaced(s, n, c.month);
    NoQuadAtClock(s, n);
    assert StampAt(s, n) == Some(Stamp(None, Clock(c.month, c.day, 0, 0)));
    NoDigitBeforeJoined(pre, DateText(c));
    StampsBeforeClock(s, n, Stamp(None, Clock(c.month, c.day, 0, 0)));
  }

  /**
   * When a stamp with no address is matched at `n`, after text without digits, the stamp
   * found is that one, whether the match starts at `n` or on whitespace just before it.
   */
  lemma StampsBeforeClock(s: string, n: nat, st: Stamp)
    requires n <= |s| && NoDigitBefore(s, n) && st.ip.None?
    requires IsTwoDigitsAt(s, n) && StampAt(s, n) == Some(st)
    ensures FindStamp(s) == Some(st)
  {
    if n > 0 && IsWhitespace(s[n - 1]) {
      NoStampsInText(s, n, n - 1);
      ClockAfterWhitespace(s, n, st);
      StampStartSkips(s, 0, n - 1);
    } else {
      NoStampsInText(s, n, n);
      StampStartSkips(s, 0, n);
    }
  }

  /** Nothing matches before `m` in text without digits, short of whitespace right before `n`. */
  lemma NoStampsInText(s: string, n: nat, m: nat)
    requires n <= |s| && NoDigitBefore(s, n) && m <= n
    requires m < n || n == 0 || !IsWhitespace(s[n - 1])
    ensures forall k: nat :: 0 <= k < m ==> StampAt(s, k).None?
  {
    forall k: nat | k < m
      ensures StampAt(s, k).None?
    {
      NoStampInText(s, n, k);
    }
  }

  /** A stamp with no address at `n` also matches from the whitespace just before it. */
  lemma ClockAfterWhitespace(s: string, n: nat, st: Stamp)
    requires 0 < n <= |s| && IsWhitespace(s[n - 1]) && st.ip.None?
    requires IsTwoDigitsAt(s, n) && StampAt(s, n) == Some(st)
    ensures StampAt(s, n - 1) == Some(st)
  {
    assert !IsWhitespace(s[n]);
    assert ClockAfter(s, n) == Some(st.clock);
    assert !IsDigit(s[n - 1]);
    assert QuadFrom(s, n - 1).None?;
    assert ClockAfter(s, n) == ClockAt(s, n);
  }

  // The year of a reply.

  /**
   * `is_leap_year`: the Gregorian rule. Rust's `%` truncates where Dafny's does not, but the
   * two agree on whether the remainder is zero, which is all the rule asks.
   */
  function IsLeapYear(year: int): (r: bool)
    ensures r ==> year % 4 == 0
    ensures year % 400 == 0 ==> r
    ensures year % 100 == 0 && year % 400 != 0 ==> !r
  {
    CenturyMultiples(year);
    year % 4 == 0 && (year % 100 != 0 || year % 400 == 0)
  }

  /** A multiple of 400 is a multiple of 4 and of 100. */
  lemma CenturyMultiples(year: int)
    ensures year % 400 == 0 ==> year % 4 == 0 && year % 100 == 0
  {
    if year % 400 == 0 {
      var q := year / 400;
      assert year == 4 * (100 * q);
      assert year == 100 * (4 * q);
    }
  }

  /**
   * The first leap year at or after `year`, in closed form: the next multiple of four, or the
   * one after it when that is a century not divisible by 400.
   */
  function LeapYearAtOrAfter(year: int): (r: int)
    ensures year <= r < year + 8 && IsLeapYear(r)
  {
    var m := year + (4 - year % 4) % 4;
    NextMultipleOfFour(year);
    if IsLeapYear(m) then m
    else
      CenturyPlusFour(m);
      m + 4
  }

  /** `year + (4 - year % 4) % 4` is the first multiple of four at or after `year`. */
  lemma NextMultipleOfFour(year: int)
    ensures var m := year + (4 - year % 4) % 4; year <= m < year + 4 && m % 4 == 0
  {
    var q := year / 4;
    var k := year % 4;
    assert year == 4 * q + k && 0 <= k < 4;
    if k == 0 {
      assert (4 - k) % 4 == 0;
    } else {
      assert (4 - k) % 4 == 4 - k;
      assert year + (4 - k) == 4 * (q + 1);
    }
  }

  /** Four years after a century that is no leap year comes a leap year. */
  lemma CenturyPlusFour(m: int)
    requires m % 4 == 0 && !IsLeapYear(m)
    ensures IsLeapYear(m + 4)
  {
    var t := m / 100;
    assert m == 100 * t;
    assert m + 4 == 4 * (25 * t + 1);
    assert (m + 4) % 100 == 4;
  }

  /** A year strictly between two consecutive multiples of four is not a leap year. */
  lemma NotLeapBetween(q: int, y: int)
    requires 4 * q < y < 4 * q + 4
    ensures !IsLeapYear(y)
  {
    assert y % 4 == y - 4 * q;
  }

  /** No year from `year` up to `LeapYearAtOrAfter(year)` is a leap year: it is the first. */
  lemma NoLeapYearBefore(year: int)
    ensures forall y :: year <= y < LeapYearAtOrAfter(year) ==> !IsLeapYear(y)
  {
    NextMultipleOfFour(year);
    var m := year + (4 - year % 4) % 4;
    var q := m / 4;
    assert m == 4 * q;
    var leap := LeapYearAtOrAfter(year);
    assert leap == m || (leap == m + 4 && !IsLeapYear(m));
    forall y | year <= y < leap
      ensures !IsLeapYear(y)
    {
      if y < m {
        NotLeapBetween(q - 1, y);
      } else if y > m {
        NotLeapBetween(q, y);
      }
    }
  }

  /** The year a reply's month and day are placed in: the article's, but a leap year for 02/29. */
  function ReplyYear(articleYear: int, month: nat, day: nat): int {
    if month == 2 && day == 29 then LeapYearAtOrAfter(articleYear) else articleYear
  }

  /** chrono's range of years (`NaiveDate::MIN` to `NaiveDate::MAX`). */
  const MinYear: int := -262144
  const MaxYear: int := 262143

  function DaysInMonth(year: int, month: nat): nat
    requires 1 <= month <= 12
  {
    if month == 2 then (if IsLeapYear(year) then 29 else 28)
    else if month == 4 || month == 6 || month == 9 || month == 11 then 30
    else 31
  }

  /** What `ymd_opt(..).and_hms_opt(hour, min, 0)` accepts. */
  predicate IsValidDateTime(year: int, month: nat, day: nat, hour: nat, minute: nat) {
    MinYear <= year <= MaxYear && 1 <= month <= 12 && 1 <= day <= DaysInMonth(year, month)
    && hour < 24 && minute < 60
  }

  /**
   * The date of a reply: none without the article's date; otherwise the clock placed in the
   * reply's year, when that is a valid date and time, and none when it is not.
   */
  function ReplyDateOf(articleDate: Option<DateTime>, c: Clock): (r: Option<DateTime>)
    ensures r.Some? ==> articleDate.Some? && r.value.second == 0
  {
    match articleDate
    case None => None
    case Some(t) =>
      var year := ReplyYear(t.year, c.month, c.day);
      if IsValidDateTime(year, c.month, c.day, c.hour, c.minute) then
        Some(DateTime(year, c.month, c.day, c.hour, c.minute, 0))
      else None
  }

  /**
   * The closure of `parse_reply` that dates a reply, with the loop that counts up to a leap
   * year for 02/29.
   */
  method ReplyDate(articleDate: Option<DateTime>, c: Clock) returns (date: Option<DateTime>)
    ensures date == ReplyDateOf(articleDate, c)
  {
    match articleDate {
      case None =>
        date := None;
      case Some(t) =>
        var year := t.year;
        if c.month == 2 && c.day == 29 {
          NoLeapYearBefore(t.year);
          while !IsLeapYear(year)
            invariant t.year <= year <= LeapYearAtOrAfter(t.year)
            decreases LeapYearAtOrAfter(t.year) - year
          {
            year := year + 1;
          }
        }
        assert year == ReplyYear(t.year, c.month, c.day);
        if IsValidDateTime(year, c.month, c.day, c.hour, c.minute) {
          date := Some(DateTime(year, c.month, c.day, c.hour, c.minute, 0));
        } else {
          date := None;
        }
    }
  }

  /**
   * A reply has a date exactly when the article has one and the clock, placed in the reply's
   * year, is a valid date and time; the date is then that clock with no seconds.
   */
  lemma ReplyDateExact(articleDate: Option<DateTime>, c: Clock)
    ensures ReplyDateOf(articleDate, c).Some? <==>
      articleDate.Some? && IsValidDateTime(ReplyYear(articleDate.value.year, c.month, c.day), c.month, c.day, c.hour, c.minute)
    ensures ReplyDateOf(articleDate, c).Some? ==>
      var d := ReplyDateOf(articleDate, c).value;
      d.month == c.month && d.day == c.day && d.hour == c.hour && d.minute == c.minute
  {
  }

  /** Every day but 02/29 keeps the article's year. */
  lemma ReplyDateKeepsYear(t: DateTime, c: Clock)
    requires !(c.month == 2 && c.day == 29)
    requires ReplyDateOf(Some(t), c).Some?
    ensures ReplyDateOf(Some(t), c).value.year == t.year
  {
  }

  /**
   * 02/29 with a valid time lands in the first leap year at or after the article's year, when
   * that year is within chrono's range.
   */
  lemma ReplyDateLeapDay(t: DateTime, c: Clock)
    requires c.month == 2 && c.day == 29 && c.hour < 24 && c.minute < 60
    requires MinYear <= t.year && LeapYearAtOrAfter(t.year) <= MaxYear
    ensures ReplyDateOf(Some(t), c).Some?
    ensures var y := ReplyDateOf(Some(t), c).value.year;
      t.year <= y && IsLeapYear(y) && forall z :: t.year <= z < y ==> !IsLeapYear(z)
  {
    NoLeapYearBefore(t.year);
  }

  /** A day past the end of its month, such as 03/32, leaves the reply without a date. */
  lemma ReplyDateInvalidDay(t: DateTime, c: Clock)
    requires 1 <= c.month <= 12 && c.day > 31
    ensures ReplyDateOf(Some(t), c).None?
  {
  }

  /** The article of 2006-04-01 and a reply stamped 03/32 02:05. */
  lemma ReplyDateExample()
    ensures ReplyDateOf(Some(DateTime(2006, 4, 1, 18, 9, 31)), Clock(3, 32, 2, 5)).None?
    ensures ReplyDateOf(Some(DateTime(2007, 6, 14, 14, 18, 43)), Clock(6, 14, 14, 20))
      == Some(DateTime(2007, 6, 14, 14, 20, 0))
    ensures ReplyDateOf(Some(DateTime(2021, 3, 1, 0, 0, 0)), Clock(2, 29, 8, 0))
      == Some(DateTime(2024, 2, 29, 8, 0, 0))
    ensures ReplyDateOf(Some(DateTime(2097, 3, 1, 0, 0, 0)), Clock(2, 29, 8, 0))
      == Some(DateTime(2104, 2, 29, 8, 0, 0))
  {
    assert LeapYearAtOrAfter(2021) == 2024;
    assert LeapYearAtOrAfter(2097) == 2104;
  }

  // A reply.

  /** The text of the node that stands where a reply would when the page is cut short. */
  const OversizeWarning: string := "檔案過大！部分文章無法顯示"

  /** A character that `parse_reply` drops from the front of a reply's text. */
  predicate IsReplyLead(c: char) {
    c == ':' || c == ' '
  }

  /**
   * The reply's own text: the run of colons and spaces at its front dropped, then trimmed.
   * The result is the trim of what follows the whole run.
   */
  function ReplyText(content: string): (r: string)
    ensures |r| <= |content|
    ensures IsTrimmed(r) && Trim(r) == r
    ensures exists k :: (0 <= k <= |content| && (forall i :: 0 <= i < k ==> IsReplyLead(content[i]))
      && (k < |content| ==> !IsReplyLead(content[k])) && r == Trim(content[k..]))
  {
    var u := TrimStartBy(content, IsReplyLead);
    var k := |content| - |u|;
    assert u == content[k..];
    var t := Trim(u);
    TrimOfTrimmed(t);
    t
  }

  /** The text after any run of leading colons and spaces that stops at a kept character. */
  lemma ReplyTextAfterLead(content: string, k: nat)
    requires k <= |content| && forall i :: 0 <= i < k ==> IsReplyLead(content[i])
    requires k < |content| ==> !IsReplyLead(content[k])
    ensures ReplyText(content) == Trim(content[k..])
  {
    var u := TrimStartBy(content, IsReplyLead);
    var j := |content| - |u|;
    if j < k {
      assert false;
    } else if k < j {
      assert false;
    }
  }

  /** The usual layout, a colon and a space before the text: the text is what follows, trimmed. */
  lemma ReplyTextAfterColon(w: string)
    requires w == [] || !IsReplyLead(w[0])
    ensures ReplyText(": " + w) == Trim(w)
  {
    var content := ": " + w;
    assert content[2..] == w;
    ReplyTextAfterLead(content, 2);
  }

  /** What reading a reply unwraps: a known tag, addresses that parse, an address to cut at. */
  predicate IsReadableReply(node: PushNode) {
    node.text != OversizeWarning ==>
      ParseReplyType(Trim(node.tag)).Some?
      && match FindStamp(Trim(node.ipDateTime))
        case Some(st) => st.ip.None? || ValidIpv4(st.ip.value)
        case None =>
          match FindStamp(ReplyText(node.content))
          case None => true
          case Some(st) =>
            st.ip.None? || (ValidIpv4(st.ip.value) && Contains(ReplyText(node.content), IpText(st.ip.value)))
  }

  /**
   * `parse_reply`: the warning node and a node with no stamp, neither in its time span nor in
   * its text, are malformed. The stamp is looked for in the time span first; when it is found
   * only in the text, the text is cut before the address, if the stamp has one.
   */
  function ParseReply(node: PushNode, articleDate: Option<DateTime>): (r: Result<Reply, Error>)
    requires IsReadableReply(node)
    ensures r.Err? ==> r.error == InvalidFormat
    ensures r.Err? <==> (node.text == OversizeWarning
      || (FindStamp(Trim(node.ipDateTime)).None? && FindStamp(ReplyText(node.content)).None?))
    ensures r.Ok? ==> (Some(r.value.replyType) == ParseReplyType(Trim(node.tag))
      && r.value.authorId == node.userId)
    ensures r.Ok? && FindStamp(Trim(node.ipDateTime)).Some? ==>
      var st := FindStamp(Trim(node.ipDateTime)).value;
      r.value.ip == st.ip && r.value.date == ReplyDateOf(articleDate, st.clock)
      && r.value.content == ReplyText(node.content)
    ensures r.Ok? && FindStamp(Trim(node.ipDateTime)).None? ==>
      var st := FindStamp(ReplyText(node.content)).value;
      r.value.ip == st.ip && r.value.date == ReplyDateOf(articleDate, st.clock)
      && (st.ip.None? ==> r.value.content == ReplyText(node.content))
  {
    if node.text == OversizeWarning then Err(InvalidFormat)
    else
      var replyType := ParseReplyType(Trim(node.tag)).value;
      var content := ReplyText(node.content);
      match FindStamp(Trim(node.ipDateTime))
      case Some(st) =>
        Ok(Reply(replyType, node.userId, st.ip, ReplyDateOf(articleDate, st.clock), content))
      case None =>
        match FindStamp(content)
        case None => Err(InvalidFormat)
        case Some(st) =>
          var text := if st.ip.Some? then Trim(content[..Find(content, IpText(st.ip.value)).value]) else content;
          Ok(Reply(replyType, node.userId, st.ip, ReplyDateOf(articleDate, st.clock), text))
  }

  /**
   * `parse_reply` as written: the stamp is looked for in the time span, then in the text, whose
   * local copy is cut before the address in place; the date comes from the loop of ReplyDate.
   */
  method ReadReply(node: PushNode, articleDate: Option<DateTime>) returns (r: Result<Reply, Error>)
    requires IsReadableReply(node)
    ensures r == ParseReply(node, articleDate)
  {
    if node.text == OversizeWarning {
      return Err(InvalidFormat);
    }
    var replyType := ParseReplyType(Trim(node.tag)).value;
    var content := ReplyText(node.content);
    var stamp := FindStamp(Trim(node.ipDateTime));
    if stamp.None? {
      stamp := FindStamp(content);
      if stamp.None? {
        return Err(InvalidFormat);
      }
      if stamp.value.ip.Some? {
        var ipStartIndex := Find(content, IpText(stamp.value.ip.value)).value;
        content := Trim(content[..ipStartIndex]);
      }
    }
    var date := ReplyDate(articleDate, stamp.value.clock);
    r := Ok(Reply(replyType, node.userId, stamp.value.ip, date, content));
  }

  /** A reply whose time span holds a clock is dated from it, with its text kept whole. */
  lemma ReplyWithClock(node: PushNode, articleDate: Option<DateTime>, c: Clock, t: ReplyType)
    requires node.text != OversizeWarning && Trim(node.tag) == Glyph(t)
    requires IsClockWritable(c) && Trim(node.ipDateTime) == ClockText(c)
    ensures IsReadableReply(node)
    ensures ParseReply(node, articleDate)
      == Ok(Reply(t, node.userId, None, ReplyDateOf(articleDate, c), ReplyText(node.content)))
  {
    ParseReplyTypeExact(Trim(node.tag), t);
    FindStampOfClock(Trim(node.ipDateTime), [], c);
    AppendEmpty(ClockText(c));
  }

  /** A reply whose time span holds only a date is dated at 00:00. */
  lemma ReplyWithDate(node: PushNode, articleDate: Option<DateTime>, c: Clock, t: ReplyType)
    requires node.text != OversizeWarning && Trim(node.tag) == Glyph(t)
    requires IsClockWritable(c) && Trim(node.ipDateTime) == DateText(c)
    ensures IsReadableReply(node)
    ensures ParseReply(node, articleDate) == Ok(Reply(t, node.userId, None,
      ReplyDateOf(articleDate, Clock(c.month, c.day, 0, 0)), ReplyText(node.content)))
  {
    ParseReplyTypeExact(Trim(node.tag), t);
    FindStampOfDate(Trim(node.ipDateTime), [], c);
    AppendEmpty(DateText(c));
  }

  /**
   * The usual time span, an address, a space and a clock: the reply carries that address and is
   * dated from that clock, with its text kept whole.
   */
  lemma ReplyWithIpClock(node: PushNode, articleDate: Option<DateTime>, ip: Ipv4, c: Clock, t: ReplyType)
    requires node.text != OversizeWarning && Trim(node.tag) == Glyph(t)
    requires ValidIpv4(ip) && IsClockWritable(c)
    requires Trim(node.ipDateTime) == IpText(ip) + " " + ClockText(c)
    ensures IsReadableReply(node)
    ensures ParseReply(node, articleDate)
      == Ok(Reply(t, node.userId, Some(ip), ReplyDateOf(articleDate, c), ReplyText(node.content)))
  {
    ParseReplyTypeExact(Trim(node.tag), t);
    IpClockStamp(Trim(node.ipDateTime), ip, c);
  }

  /** A text that is an address, a space and a clock is read as that stamp. */
  lemma IpClockStamp(s: string, ip: Ipv4, c: Clock)
    requires ValidIpv4(ip) && IsClockWritable(c) && s == IpText(ip) + " " + ClockText(c)
    ensures FindStamp(s) == Some(Stamp(Some(ip), c))
  {
    AppendEmpty(IpText(ip));
    FindStampOfIpClock(s, [], ip, c);
  }

  /** The warning node is malformed, whatever else it holds. */
  lemma WarningNodeRejected(node: PushNode, articleDate: Option<DateTime>)
    requires node.text == OversizeWarning
    ensures IsReadableReply(node) && ParseReply(node, articleDate) == Err(InvalidFormat)
  {
  }

  /** An address written after text without digits is first found where it was written. */
  lemma FindIpAfterText(s: string, n: nat, ip: Ipv4)
    requires OccursAt(s, IpText(ip), n) && NoDigitBefore(s, n)
    ensures Find(s, IpText(ip)) == Some(n)
  {
    var t := IpText(ip);
    assert t[0] == NatToDecimal(ip.a)[0];
    assert IsDigit(t[0]);
  }

  /** The empty time span holds no stamp. */
  lemma NoStampInEmpty(s: string)
    requires s == []
    ensures FindStamp(s).None?
  {
    assert StampAt(s, 0).None?;
  }

  /** Text that ends with an address and a clock: the address is first found after the text before it. */
  lemma AddressInText(content: string, pre: string, ip: Ipv4, rest: string)
    requires NoDigitBefore(pre, |pre|)
    requires content == pre + IpText(ip) + rest
    ensures Find(content, IpText(ip)) == Some(|pre|) && content[..|pre|] == pre
  {
    Joined(pre, IpText(ip), rest);
    NoDigitBeforeJoined(pre, IpText(ip) + rest);
    AppendAssoc(pre, IpText(ip), rest);
    FindIpAfterText(content, |pre|, ip);
  }

  /**
   * A reply with no stamp in its time span whose text holds a stamp with an address is dated
   * from that stamp, and its text is cut before the first occurrence of the address.
   */
  lemma ReplyFromTextStamp(node: PushNode, articleDate: Option<DateTime>, t: ReplyType, ip: Ipv4, c: Clock, n: nat)
    requires node.text != OversizeWarning && ParseReplyType(Trim(node.tag)) == Some(t)
    requires FindStamp(Trim(node.ipDateTime)).None? && ValidIpv4(ip)
    requires FindStamp(ReplyText(node.content)) == Some(Stamp(Some(ip), c))
    requires Find(ReplyText(node.content), IpText(ip)) == Some(n)
    ensures IsReadableReply(node) && n <= |ReplyText(node.content)|
    ensures ParseReply(node, articleDate) == Ok(Reply(t, node.userId, Some(ip), ReplyDateOf(articleDate, c),
      Trim(ReplyText(node.content)[..n])))
  {
  }

  /**
   * Text that ends with an address, a space and a clock, after text without digits: the stamp
   * found in it has that address and that clock, and the address is first found where it was
   * written.
   */
  lemma TextWithIpClock(content: string, pre: string, ip: Ipv4, c: Clock)
    requires ValidIpv4(ip) && IsClockWritable(c) && NoDigitBefore(pre, |pre|)
    requires content == pre + IpText(ip) + " " + ClockText(c)
    ensures FindStamp(content) == Some(Stamp(Some(ip), c))
    ensures Find(content, IpText(ip)) == Some(|pre|) && content[..|pre|] == pre
  {
    FindStampOfIpClock(content, pre, ip, c);
    AppendAssoc(pre + IpText(ip), " ", ClockText(c));
    AddressInText(content, pre, ip, " " + ClockText(c));
  }

  /**
   * A reply with an empty time span whose text ends with an address and a clock is dated from
   * that clock, and its text is cut before the address.
   */
  lemma ReplyWithStampInText(node: PushNode, articleDate: Option<DateTime>, t: ReplyType, pre: string, ip: Ipv4, c: Clock)
    requires node.text != OversizeWarning && Trim(node.tag) == Glyph(t) && Trim(node.ipDateTime) == []
    requires ValidIpv4(ip) && IsClockWritable(c) && NoDigitBefore(pre, |pre|)
    requires ReplyText(node.content) == pre + IpText(ip) + " " + ClockText(c)
    ensures IsReadableReply(node)
    ensures ParseReply(node, articleDate) == Ok(Reply(t, node.userId, Some(ip), ReplyDateOf(articleDate, c), Trim(pre)))
  {
    ParseReplyTypeExact(Trim(node.tag), t);
    NoStampInEmpty(Trim(node.ipDateTime));
    TextWithIpClock(ReplyText(node.content), pre, ip, c);
    ReplyFromTextStamp(node, articleDate, t, ip, c, |pre|);
  }

  // The replies.

  predicate AllReadable(nodes: seq<PushNode>) {
    forall k :: 0 <= k < |nodes| ==> IsReadableReply(nodes[k])
  }

  /** Each node read as a reply, in document order, the malformed ones included. */
  function Outcomes(nodes: seq<PushNode>, articleDate: Option<DateTime>): (r: seq<Result<Reply, Error>>)
    requires AllReadable(nodes)
    ensures |r| == |nodes|
    ensures forall k :: 0 <= k < |nodes| ==> r[k] == ParseReply(nodes[k], articleDate)
  {
    if |nodes| == 0 then []
    else [ParseReply(nodes[0], articleDate)] + Outcomes(nodes[1..], articleDate)
  }

  /** The replies among some outcomes, in their order: `flat_map` over `Result::ok`. */
  function Survivors(outcomes: seq<Result<Reply, Error>>): seq<Reply> {
    if |outcomes| == 0 then []
    else
      (match outcomes[0] case Ok(reply) => [reply] case Err(_) => []) + Survivors(outcomes[1..])
  }

  /** `parse_replies`: every node read in document order, and the malformed ones dropped. */
  function ParseReplies(nodes: seq<PushNode>, articleDate: Option<DateTime>): (r: seq<Reply>)
    requires AllReadable(nodes)
    ensures |r| <= |nodes|
  {
    SurvivorsBound(Outcomes(nodes, articleDate));
    Survivors(Outcomes(nodes, articleDate))
  }

  lemma {:induction false} SurvivorsAppend(a: seq<Result<Reply, Error>>, b: seq<Result<Reply, Error>>)
    ensures Survivors(a + b) == Survivors(a) + Survivors(b)
  {
    if |a| > 0 {
      assert (a + b)[0] == a[0] && (a + b)[1..] == a[1..] + b;
      SurvivorsAppend(a[1..], b);
    } else {
      assert a + b == b;
    }
  }

  lemma {:induction false} SurvivorsBound(outcomes: seq<Result<Reply, Error>>)
    ensures |Survivors(outcomes)| <= |outcomes|
    ensures (forall k :: 0 <= k < |outcomes| ==> outcomes[k].Ok?) ==> |Survivors(outcomes)| == |outcomes|
  {
    if |outcomes| > 0 {
      SurvivorsBound(outcomes[1..]);
    }
  }

  lemma {:induction false} SurvivorsKeeps(outcomes: seq<Result<Reply, Error>>, k: nat)
    requires k < |outcomes| && outcomes[k].Ok?
    ensures outcomes[k].value in Survivors(outcomes)
  {
    if k > 0 {
      SurvivorsKeeps(outcomes[1..], k - 1);
    }
  }

  lemma {:induction false} SurvivorsSource(outcomes: seq<Result<Reply, Error>>, i: nat)
    requires i < |Survivors(outcomes)|
    ensures exists k :: 0 <= k < |outcomes| && outcomes[k] == Ok(Survivors(outcomes)[i])
  {
    var rest := Survivors(outcomes[1..]);
    if outcomes[0].Ok? && i == 0 {
      assert outcomes[0] == Ok(Survivors(outcomes)[i]);
    } else {
      var j: nat := if outcomes[0].Ok? then i - 1 else i;
      assert Survivors(outcomes)[i] == rest[j];
      SurvivorsSource(outcomes[1..], j);
      var k :| 0 <= k < |outcomes[1..]| && outcomes[1..][k] == Ok(rest[j]);
      assert outcomes[k + 1] == Ok(rest[j]);
    }
  }

  /** No more replies than nodes, and as many when every node reads as a reply. */
  lemma ParseRepliesLength(nodes: seq<PushNode>, articleDate: Option<DateTime>)
    requires AllReadable(nodes)
    ensures |ParseReplies(nodes, articleDate)| <= |nodes|
    ensures (forall k :: 0 <= k < |nodes| ==> ParseReply(nodes[k], articleDate).Ok?) ==>
      |ParseReplies(nodes, articleDate)| == |nodes|
  {
    SurvivorsBound(Outcomes(nodes, articleDate));
  }

  /** The replies of two runs of nodes are the replies of the first followed by the second's. */
  lemma ParseRepliesAppend(a: seq<PushNode>, b: seq<PushNode>, articleDate: Option<DateTime>)
    requires AllReadable(a) && AllReadable(b)
    ensures AllReadable(a + b)
    ensures ParseReplies(a + b, articleDate) == ParseReplies(a, articleDate) + ParseReplies(b, articleDate)
  {
    assert AllReadable(a + b);
    OutcomesAppend(a, b, articleDate);
    SurvivorsAppend(Outcomes(a, articleDate), Outcomes(b, articleDate));
  }

  lemma {:induction false} OutcomesAppend(a: seq<PushNode>, b: seq<PushNode>, articleDate: Option<DateTime>)
    requires AllReadable(a) && AllReadable(b) && AllReadable(a + b)
    ensures Outcomes(a + b, articleDate) == Outcomes(a, articleDate) + Outcomes(b, articleDate)
  {
    if |a| == 0 {
      assert a + b == b;
    } else {
      assert (a + b)[0] == a[0] && (a + b)[1..] == a[1..] + b;
      assert AllReadable(a[1..]);
      OutcomesAppend(a[1..], b, articleDate);
    }
  }

  /** Every node that reads as a reply has that reply kept. */
  lemma ParseRepliesKeeps(nodes: seq<PushNode>, articleDate: Option<DateTime>, k: nat)
    requires AllReadable(nodes) && k < |nodes| && ParseReply(nodes[k], articleDate).Ok?
    ensures ParseReply(nodes[k], articleDate).value in ParseReplies(nodes, articleDate)
  {
    SurvivorsKeeps(Outcomes(nodes, articleDate), k);
  }

  /** Every kept reply is what some node reads as. */
  lemma ParseRepliesSource(nodes: seq<PushNode>, articleDate: Option<DateTime>, i: nat)
    requires AllReadable(nodes) && i < |ParseReplies(nodes, articleDate)|
    ensures exists k :: 0 <= k < |nodes| && ParseReply(nodes[k], articleDate) == Ok(ParseReplies(nodes, articleDate)[i])
  {
    var outcomes := Outcomes(nodes, articleDate);
    SurvivorsSource(outcomes, i);
    var k :| 0 <= k < |outcomes| && outcomes[k] == Ok(Survivors(outcomes)[i]);
    assert ParseReply(nodes[k], articleDate) == outcomes[k];
  }

  /** The warning node alone leaves no reply. */
  lemma WarningAlone(w: PushNode, articleDate: Option<DateTime>)
    requires w.text == OversizeWarning
    ensures AllReadable([w]) && ParseReplies([w], articleDate) == []
  {
    assert [w][0] == w;
    var o := Outcomes([w], articleDate);
    assert o[0] == Err(InvalidFormat) && o[1..] == [];
    assert Survivors(o) == [] + Survivors(o[1..]);
  }

  /** The warning node between two runs of nodes leaves no reply behind. */
  lemma ParseRepliesSkipsWarning(a: seq<PushNode>, w: PushNode, b: seq<PushNode>, articleDate: Option<DateTime>)
    requires AllReadable(a) && AllReadable(b) && w.text == OversizeWarning
    ensures AllReadable(a + [w] + b)
    ensures ParseReplies(a + [w] + b, articleDate) == ParseReplies(a, articleDate) + ParseReplies(b, articleDate)
  {
    WarningAlone(w, articleDate);
    var left := a + [w];
    ParseRepliesAppend(a, [w], articleDate);
    assert ParseReplies(left, articleDate) == ParseReplies(a, articleDate);
    ParseRepliesAppend(left, b, articleDate);
  }
}
