/**
 * The parts of Rust's `str` API that the parser relies on, over strings as sequences of
 * characters: `find`, `contains`, `trim`, `trim_start_matches`, `split(..).last()`, decimal
 * digits, and the character classes `\s`, `\d` and `\w` of the `regex` crate.
 */
module Strings {
  import opened Wrappers

  /** Unicode White_Space: the class of `char::is_whitespace`, of `str::trim` and of `\s`. */
  predicate IsWhitespace(c: char) {
    c == ' ' || ('\t' <= c <= '\r') || c == '\U{85}' || c == '\U{A0}' || c == '\U{1680}'
    || ('\U{2000}' <= c <= '\U{200A}') || c == '\U{2028}' || c == '\U{2029}'
    || c == '\U{202F}' || c == '\U{205F}' || c == '\U{3000}'
  }

  /** `\d`, restricted to the ASCII digits, the only ones the board ever writes. */
  predicate IsDigit(c: char) {
    '0' <= c <= '9'
  }

  /** Punctuation, full width included, that `\w` does not match. */
  const NonWordSymbols: set<char> :=
    {'［', '］', '（', '）', '：', '；', '！', '？', '，', '。', '、', '．', '「', '」', '『', '』',
     '【', '】', '《', '》', '〈', '〉', '…', '—', '～'}

  /**
   * `\w`: letters, digits and the underscore. Outside ASCII every character that is neither
   * whitespace nor one of NonWordSymbols counts as a letter, which covers the CJK text of the
   * board.
   */
  predicate IsWordChar(c: char) {
    ('a' <= c <= 'z') || ('A' <= c <= 'Z') || IsDigit(c) || c == '_'
    || (c > '\U{7F}' && !IsWhitespace(c) && c !in NonWordSymbols)
  }

  /** Any character but the line feed: the class of the regex `.`. */
  predicate IsNotNewline(c: char) {
    c != '\n'
  }

  predicate IsDigits(s: string) {
    forall i :: 0 <= i < |s| ==> IsDigit(s[i])
  }

  /** `p` occurs in `s` starting at index `i`. */
  predicate OccursAt(s: string, p: string, i: int) {
    0 <= i && i + |p| <= |s| && forall m :: 0 <= m < |p| ==> s[i + m] == p[m]
  }

  /** The first occurrence of `p` in `s` at or after `i`. */
  function FindFrom(s: string, p: string, i: nat): (r: Option<nat>)
    requires i <= |s|
    ensures r.Some? ==> i <= r.value && OccursAt(s, p, r.value)
    ensures forall j :: i <= j && (r.None? || j < r.value) ==> !OccursAt(s, p, j)
    decreases |s| - i
  {
    if i + |p| > |s| then None
    else if OccursAt(s, p, i) then Some(i)
    else FindFrom(s, p, i + 1)
  }

  /** `str::find`: the index of the first occurrence of `p` in `s`, if there is one. */
  function Find(s: string, p: string): (r: Option<nat>)
    ensures r.Some? ==> OccursAt(s, p, r.value)
    ensures r.Some? ==> forall j :: 0 <= j < r.value ==> !OccursAt(s, p, j)
    ensures r.None? <==> forall j :: !OccursAt(s, p, j)
  {
    FindFrom(s, p, 0)
  }

  /** The leftmost index from `p` up to and including `n` where `P` holds, if there is one. */
  function FirstWhere(P: nat -> bool, p: nat, n: nat): (r: Option<nat>)
    requires p <= n
    ensures r.Some? ==> p <= r.value <= n && P(r.value)
    ensures forall i: nat :: p <= i <= n && (r.None? || i < r.value) ==> !P(i)
    decreases n - p
  {
    if P(p) then Some(p) else if p == n then None else FirstWhere(P, p + 1, n)
  }

  /** Concatenation regroups. */
  lemma AppendAssoc(a: string, b: string, c: string)
    ensures a + b + c == a + (b + c)
  {
  }

  /** The empty string is the unit of concatenation. */
  lemma AppendEmpty(a: string)
    ensures [] + a == a && a + [] == a
  {
  }

  /** A pattern that occurs in a slice occurs in the whole string, shifted by the slice's start. */
  lemma OccursInSlice(s: string, p: string, i: nat, j: nat, k: int)
    requires i <= j <= |s|
    ensures OccursAt(s[i..j], p, k) ==> OccursAt(s, p, i + k) && i + k + |p| <= j
  {
  }

  /** The first `n` characters of the suffix from `i` are the slice from `i` to `i + n`. */
  lemma SliceOfSuffix(s: string, i: nat, n: nat, j: nat)
    requires j == i + n <= |s|
    ensures s[i..][..n] == s[i..j]
  {
  }

  /** A slice without its first character is the slice one further on. */
  lemma SliceAfterFirst(s: string, i: nat, j: nat)
    requires i < j <= |s|
    ensures s[i..j][1..] == s[i + 1..j]
  {
  }

  /** A one-character pattern occurs exactly where that character stands. */
  lemma OccursAtChar(s: string, c: char, i: int)
    ensures OccursAt(s, [c], i) <==> 0 <= i < |s| && s[i] == c
  {
    assert [c][0] == c;
  }

  /** `str::contains`. */
  predicate Contains(s: string, p: string) {
    Find(s, p).Some?
  }

  /** A pattern absent from a string is absent from every slice of it. */
  lemma NotContainsSlice(s: string, p: string, i: nat, j: nat)
    requires i <= j <= |s|
    requires !Contains(s, p)
    ensures !Contains(s[i..j], p)
  {
    forall k | OccursAt(s[i..j], p, k)
      ensures OccursAt(s, p, i + k)
    {
    }
  }

  /** The end of the longest run of characters satisfying `P` that starts at `i`. */
  function RunEnd(s: string, i: nat, P: char -> bool): (e: nat)
    requires i <= |s|
    ensures i <= e <= |s|
    ensures forall k :: i <= k < e ==> P(s[k])
    ensures e < |s| ==> !P(s[e])
    decreases |s| - i
  {
    if i < |s| && P(s[i]) then RunEnd(s, i + 1, P) else i
  }

  /** The start of the longest run of characters satisfying `P` that ends just before `j`. */
  function RunStart(s: string, j: nat, P: char -> bool): (b: nat)
    requires j <= |s|
    ensures b <= j
    ensures forall k :: b <= k < j ==> P(s[k])
    ensures 0 < b ==> !P(s[b - 1])
  {
    if 0 < j && P(s[j - 1]) then RunStart(s, j - 1, P) else j
  }

  /** A run of `P` characters from `i` to `e` that nothing extends is the longest one. */
  lemma RunEndIs(s: string, i: nat, e: nat, P: char -> bool)
    requires i <= e <= |s|
    requires forall k :: i <= k < e ==> P(s[k])
    requires e == |s| || !P(s[e])
    ensures RunEnd(s, i, P) == e
  {
  }

  /** The end of the line that holds index `i`: the first line feed at or after `i`, or the end. */
  function LineEnd(s: string, i: nat): nat
    requires i <= |s|
  {
    RunEnd(s, i, IsNotNewline)
  }

  /** `str::trim_start_matches` with a character predicate. */
  function TrimStartBy(s: string, P: char -> bool): (r: string)
    ensures |r| <= |s| && r == s[|s| - |r|..]
    ensures forall k :: 0 <= k < |s| - |r| ==> P(s[k])
    ensures r == [] || !P(r[0])
  {
    s[RunEnd(s, 0, P)..]
  }

  /**
   * `str::trim`: `s` without its leading and trailing whitespace. The result is the slice of
   * `s` that starts after the leading whitespace, everything after it is whitespace, and it
   * neither starts nor ends with whitespace.
   */
  function Trim(s: string): (r: string)
    ensures RunEnd(s, 0, IsWhitespace) + |r| <= |s|
    ensures r == s[RunEnd(s, 0, IsWhitespace)..RunEnd(s, 0, IsWhitespace) + |r|]
    ensures forall k :: RunEnd(s, 0, IsWhitespace) + |r| <= k < |s| ==> IsWhitespace(s[k])
    ensures r == [] || (!IsWhitespace(r[0]) && !IsWhitespace(r[|r| - 1]))
  {
    var t := s[RunEnd(s, 0, IsWhitespace)..];
    t[..RunStart(t, |t|, IsWhitespace)]
  }

  /** A string that neither starts nor ends with whitespace is its own trim. */
  lemma TrimOfTrimmed(s: string)
    requires s == [] || (!IsWhitespace(s[0]) && !IsWhitespace(s[|s| - 1]))
    ensures Trim(s) == s
  {
  }

  /** A pattern absent from a string is absent from its trim. */
  lemma NotContainsTrim(s: string, p: string)
    requires !Contains(s, p)
    ensures !Contains(Trim(s), p)
  {
    var b := RunEnd(s, 0, IsWhitespace);
    NotContainsSlice(s, p, b, b + |Trim(s)|);
  }

  /** Trimming twice is trimming once. */
  lemma TrimIdempotent(s: string)
    ensures Trim(Trim(s)) == Trim(s)
  {
    TrimOfTrimmed(Trim(s));
  }

  /** Leading whitespace makes no difference to the trim. */
  lemma TrimDropsWhitespace(s: string)
    requires |s| >= 1 && IsWhitespace(s[0])
    ensures Trim(s) == Trim(s[1..])
  {
    var b := RunEnd(s[1..], 0, IsWhitespace);
    forall k | 0 <= k < 1 + b
      ensures IsWhitespace(s[k])
    {
      if k > 0 {
        assert s[k] == s[1..][k - 1];
      }
    }
    RunEndIs(s, 0, 1 + b, IsWhitespace);
    assert s[1 + b..] == s[1..][b..];
  }

  /**
   * The last piece of `s` split at `sep` (`s.split(sep).last()`): the suffix after the last
   * separator, or all of `s` when it holds none.
   */
  function AfterLast(s: string, sep: char): (r: string)
    ensures sep !in r
    ensures |r| <= |s| && r == s[|s| - |r|..]
    ensures |r| < |s| ==> s[|s| - |r| - 1] == sep
  {
    if |s| == 0 || s[|s| - 1] == sep then []
    else AfterLast(s[..|s| - 1], sep) + [s[|s| - 1]]
  }

  /** The last piece after a separator is what follows its last occurrence. */
  lemma {:induction false} AfterLastAppend(s: string, sep: char, t: string)
    requires sep !in t
    ensures AfterLast(s + [sep] + t, sep) == t
  {
    var w := s + [sep] + t;
    if t != [] {
      var init := t[..|t| - 1];
      assert w[..|w| - 1] == s + [sep] + init;
      AfterLastAppend(s, sep, init);
      assert t == init + [t[|t| - 1]];
    }
  }

  /** The text before the first occurrence of a non-empty pattern does not contain it. */
  lemma BeforeFirstOccurrence(s: string, p: string)
    requires |p| > 0 && Contains(s, p)
    ensures !Contains(s[..Find(s, p).value], p)
  {
    var k := Find(s, p).value;
    forall j
      ensures !OccursAt(s[..k], p, j)
    {
      if OccursAt(s[..k], p, j) {
        assert OccursAt(s, p, j);
      }
    }
  }

  function DigitValue(c: char): nat
    requires IsDigit(c)
  {
    c as int - '0' as int
  }

  function DigitChar(d: nat): (c: char)
    requires d < 10
    ensures IsDigit(c) && DigitValue(c) == d
  {
    ('0' as int + d) as char
  }

  /** The value of a string of decimal digits, as `str::parse::<u32>` reads it. */
  function Decimal(ds: string): nat
    requires IsDigits(ds)
  {
    if ds == [] then 0 else 10 * Decimal(ds[..|ds| - 1]) + DigitValue(ds[|ds| - 1])
  }

  /** `u8::to_string`: the shortest decimal rendering, which has no leading zero. */
  function NatToDecimal(n: nat): (r: string)
    ensures 1 <= |r| && IsDigits(r) && Decimal(r) == n
    ensures r[0] == '0' ==> r == "0"
  {
    var d := DigitChar(n % 10);
    if n < 10 then [d]
    else
      var r := NatToDecimal(n / 10) + [d];
      assert r[..|r| - 1] == NatToDecimal(n / 10);
      r
  }

  /** Reading the digits of a number and rendering it again gives the same digits back. */
  lemma {:induction false} DecimalRoundTrip(ds: string)
    requires 1 <= |ds| && IsDigits(ds)
    requires ds[0] == '0' ==> ds == "0"
    ensures NatToDecimal(Decimal(ds)) == ds
  {
    var init := ds[..|ds| - 1];
    if |ds| == 1 {
    } else {
      assert init[0] == ds[0];
      DecimalPositive(init);
      DecimalRoundTrip(init);
      var n := Decimal(ds);
      assert n / 10 == Decimal(init) && n % 10 == DigitValue(ds[|ds| - 1]);
      assert NatToDecimal(n) == NatToDecimal(Decimal(init)) + [ds[|ds| - 1]];
    }
  }

  /** A digit string that does not start with zero reads as a positive number. */
  lemma {:induction false} DecimalPositive(ds: string)
    requires 1 <= |ds| && IsDigits(ds) && ds[0] != '0'
    ensures Decimal(ds) > 0
  {
    if |ds| > 1 {
      DecimalPositive(ds[..|ds| - 1]);
    }
  }
}
