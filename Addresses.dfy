/**
 * The poster's address as `parse_ip` in `src/parser.rs` finds it: the text that carries it,
 * the leftmost match of `\d{1,3}\.\d{1,3}\.\d{1,3}\.\d{1,3}` in that text, and the reading of
 * the match as an IPv4 address. The dotted-quad matcher is shared with the reply stamps.
 */
module Addresses {
  import opened Wrappers
  import opened Strings
  import opened Articles
  import opened Html
  import opened Fields

  // The dotted quad.

  /** `s[i..j]` is a group of one to three digits (`\d{1,3}`). */
  predicate IsGroup(s: string, i: nat, j: nat) {
    i < j <= i + 3 && j <= |s| && forall k :: i <= k < j ==> IsDigit(s[k])
  }

  /** The pattern matches `s[i..e]` with its three dots at `j1`, `j2` and `j3`. */
  predicate QuadAt(s: string, i: nat, j1: nat, j2: nat, j3: nat, e: nat) {
    IsGroup(s, i, j1) && j1 < |s| && s[j1] == '.'
    && IsGroup(s, j1 + 1, j2) && j2 < |s| && s[j2] == '.'
    && IsGroup(s, j2 + 1, j3) && j3 < |s| && s[j3] == '.'
    && IsGroup(s, j3 + 1, e)
  }

  /** A match of the pattern: where it starts, where its dots are, and where it ends. */
  datatype Quad = Quad(start: nat, dot1: nat, dot2: nat, dot3: nat, end: nat)

  predicate IsQuad(s: string, q: Quad) {
    QuadAt(s, q.start, q.dot1, q.dot2, q.dot3, q.end)
  }

  /** The dot that ends a group starting at `i`: only the whole digit run can be that group. */
  function GroupDot(s: string, i: nat): (r: Option<nat>)
    requires i <= |s|
    ensures r.Some? ==> IsGroup(s, i, r.value) && r.value < |s| && s[r.value] == '.'
    ensures forall j: nat :: IsGroup(s, i, j) && j < |s| && s[j] == '.' ==> r == Some(j)
  {
    var e := RunEnd(s, i, IsDigit);
    if i < e <= i + 3 && e < |s| && s[e] == '.' then Some(e) else None
  }

  function Min(a: nat, b: nat): nat {
    if a <= b then a else b
  }

  /**
   * The match that starts at `i`, if any: the three dots are forced, and the last group takes
   * as many digits as it can, up to three.
   */
  function QuadFrom(s: string, i: nat): (r: Option<Quad>)
    requires i <= |s|
    ensures r.Some? ==> r.value.start == i && IsQuad(s, r.value)
  {
    match GroupDot(s, i)
    case None => None
    case Some(j1) =>
      match GroupDot(s, j1 + 1)
      case None => None
      case Some(j2) =>
        match GroupDot(s, j2 + 1)
        case None => None
        case Some(j3) =>
          var e := RunEnd(s, j3 + 1, IsDigit);
          if e == j3 + 1 then None else Some(Quad(i, j1, j2, j3, Min(e, j3 + 4)))
  }

  /**
   * Every match that starts at `i` is found there: it has the dots of the one found, and it
   * ends no later.
   */
  lemma QuadFromComplete(s: string, i: nat, j1: nat, j2: nat, j3: nat, e: nat)
    requires QuadAt(s, i, j1, j2, j3, e)
    ensures QuadFrom(s, i).Some?
    ensures var q := QuadFrom(s, i).value; q.dot1 == j1 && q.dot2 == j2 && q.dot3 == j3 && e <= q.end
  {
  }

  /** A match whose last group cannot go on is exactly the one found. */
  lemma QuadFromExact(s: string, i: nat, j1: nat, j2: nat, j3: nat, e: nat)
    requires QuadAt(s, i, j1, j2, j3, e)
    requires e == |s| || !IsDigit(s[e])
    ensures QuadFrom(s, i) == Some(Quad(i, j1, j2, j3, e))
  {
    QuadFromComplete(s, i, j1, j2, j3, e);
    RunEndIs(s, j3 + 1, e, IsDigit);
  }

  /** `Regex::captures`: the leftmost match in `s`. */
  function FindQuad(s: string): (r: Option<Quad>)
    ensures r.Some? ==> r.value.start <= |s| && QuadFrom(s, r.value.start) == r
    ensures forall i: nat :: i <= |s| && (r.None? || i < r.value.start) ==> QuadFrom(s, i).None?
  {
    var matches := (i: nat) => i <= |s| && QuadFrom(s, i).Some?;
    assert forall i: nat :: matches(i) == (i <= |s| && QuadFrom(s, i).Some?);
    match FirstWhere(matches, 0, |s|)
    case Some(i) => QuadFrom(s, i)
    case None => None
  }

  /**
   * No match at all starts before the one found, and none that starts where it does is
   * longer: it is the leftmost match, and the greedy one.
   */
  lemma FindQuadLeftmost(s: string, i: nat, j1: nat, j2: nat, j3: nat, e: nat)
    requires QuadAt(s, i, j1, j2, j3, e)
    ensures FindQuad(s).Some? && FindQuad(s).value.start <= i
    ensures i == FindQuad(s).value.start ==> e <= FindQuad(s).value.end
  {
    QuadFromComplete(s, i, j1, j2, j3, e);
  }

  /** No match starts at a character that is not a digit. */
  lemma NoQuadAt(s: string, k: nat)
    requires k < |s| && !IsDigit(s[k])
    ensures QuadFrom(s, k).None?
  {
    assert RunEnd(s, k, IsDigit) == k;
  }

  /** The match at `i`, with none before it, is the one found. */
  lemma FindQuadFirst(s: string, i: nat)
    requires i <= |s| && QuadFrom(s, i).Some?
    requires forall k: nat :: k < i ==> QuadFrom(s, k).None?
    ensures FindQuad(s) == QuadFrom(s, i)
  {
    var r := FindQuad(s);
    assert r.Some?;
    assert r.value.start <= i;
    assert r.value.start >= i;
  }

  /**
   * A match with no digit before it and none right after it is the one found.
   */
  lemma FindQuadAt(s: string, i: nat, j1: nat, j2: nat, j3: nat, e: nat)
    requires QuadAt(s, i, j1, j2, j3, e)
    requires e == |s| || !IsDigit(s[e])
    requires NoDigitBefore(s, i)
    ensures FindQuad(s) == Some(Quad(i, j1, j2, j3, e))
  {
    QuadFromExact(s, i, j1, j2, j3, e);
    forall k: nat | k < i
      ensures QuadFrom(s, k).None?
    {
      NoQuadAt(s, k);
    }
    FindQuadFirst(s, i);
  }

  /** The number a group spells. */
  function GroupValue(s: string, i: nat, j: nat): nat
    requires IsGroup(s, i, j)
  {
    assert IsDigits(s[i..j]) by {
      forall k | 0 <= k < j - i
        ensures IsDigit(s[i..j][k])
      {
        assert s[i..j][k] == s[i + k];
      }
    }
    Decimal(s[i..j])
  }

  /** The four numbers a match spells. */
  function QuadValue(s: string, q: Quad): Ipv4
    requires IsQuad(s, q)
  {
    Ipv4(GroupValue(s, q.start, q.dot1), GroupValue(s, q.dot1 + 1, q.dot2),
         GroupValue(s, q.dot2 + 1, q.dot3), GroupValue(s, q.dot3 + 1, q.end))
  }

  // Reading and writing an address.

  /**
   * The address the leftmost match spells, or `FieldNotFound("ip")` when nothing matches or an
   * octet is above 255 (`Ipv4Addr::from_str` refuses it); a later, valid match is never
   * consulted.
   */
  function ParseIpText(t: string): (r: Result<Ipv4, Error>)
    ensures r.Err? ==> r.error == FieldNotFound("ip")
    ensures r.Ok? ==> ValidIpv4(r.value)
    ensures r.Ok? ==> FindQuad(t).Some? && r.value == QuadValue(t, FindQuad(t).value)
    ensures FindQuad(t).None? ==> r.Err?
  {
    match FindQuad(t)
    case None => Err(FieldNotFound("ip"))
    case Some(q) =>
      var ip := QuadValue(t, q);
      if ValidIpv4(ip) then Ok(ip) else Err(FieldNotFound("ip"))
  }

  /** `Ipv4Addr`'s `Display`: the four octets in decimal, joined by dots. */
  function IpText(ip: Ipv4): string {
    NatToDecimal(ip.a) + "." + NatToDecimal(ip.b) + "." + NatToDecimal(ip.c) + "." + NatToDecimal(ip.d)
  }

  /** A written address, between two texts, is its four groups of digits and the dots between them. */
  lemma IpTextAround(pre: string, ip: Ipv4, post: string)
    ensures pre + IpText(ip) + post == pre + NatToDecimal(ip.a) + "." + NatToDecimal(ip.b) + "."
      + NatToDecimal(ip.c) + "." + NatToDecimal(ip.d) + post
  {
  }

  /** An octet is written with one to three digits. */
  lemma {:induction false} OctetLength(n: nat)
    requires n <= 999
    ensures 1 <= |NatToDecimal(n)| <= 3
    ensures n < 100 ==> |NatToDecimal(n)| <= 2
    ensures n < 10 ==> |NatToDecimal(n)| == 1
  {
    if n >= 10 {
      OctetLength(n / 10);
    }
  }

  /** The positions of the four groups of a written address placed after `pre`. */
  lemma AssembledIp(pre: string, g1: string, g2: string, g3: string, g4: string, post: string)
    ensures var s := pre + g1 + "." + g2 + "." + g3 + "." + g4 + post;
      var j1 := |pre| + |g1|;
      var j2 := j1 + 1 + |g2|;
      var j3 := j2 + 1 + |g3|;
      var e := j3 + 1 + |g4|;
      e + |post| == |s| && s[..|pre|] == pre
      && s[|pre|..j1] == g1 && s[j1] == '.' && s[j1 + 1..j2] == g2 && s[j2] == '.'
      && s[j2 + 1..j3] == g3 && s[j3] == '.' && s[j3 + 1..e] == g4 && s[e..] == post
  {
  }

  /** No digit stands in `s` before `i`. */
  predicate NoDigitBefore(s: string, i: nat) {
    forall k :: 0 <= k < i && k < |s| ==> !IsDigit(s[k])
  }

  /**
   * A match with no digit before it and none right after it is what is read: the address
   * its groups spell when none is above 255, and an error otherwise.
   */
  lemma ParseQuadText(s: string, i: nat, j1: nat, j2: nat, j3: nat, e: nat, v: Ipv4)
    requires QuadAt(s, i, j1, j2, j3, e)
    requires NoDigitBefore(s, i) && (e == |s| || !IsDigit(s[e]))
    requires GroupValue(s, i, j1) == v.a && GroupValue(s, j1 + 1, j2) == v.b
    requires GroupValue(s, j2 + 1, j3) == v.c && GroupValue(s, j3 + 1, e) == v.d
    ensures ParseIpText(s) == if ValidIpv4(v) then Ok(v) else Err(FieldNotFound("ip"))
  {
    QuadValueAt(s, i, j1, j2, j3, e, v);
    FindQuadAt(s, i, j1, j2, j3, e);
    ReadFoundQuad(s, Quad(i, j1, j2, j3, e), v);
  }

  /** A match whose groups read as the octets of `v` reads as `v`. */
  lemma QuadValueAt(s: string, i: nat, j1: nat, j2: nat, j3: nat, e: nat, v: Ipv4)
    requires QuadAt(s, i, j1, j2, j3, e)
    requires GroupValue(s, i, j1) == v.a && GroupValue(s, j1 + 1, j2) == v.b
    requires GroupValue(s, j2 + 1, j3) == v.c && GroupValue(s, j3 + 1, e) == v.d
    ensures IsQuad(s, Quad(i, j1, j2, j3, e)) && QuadValue(s, Quad(i, j1, j2, j3, e)) == v
  {
  }

  /** What is read is the value of the match found, when that value is an address. */
  lemma ReadFoundQuad(s: string, q: Quad, v: Ipv4)
    requires IsQuad(s, q) && FindQuad(s) == Some(q) && QuadValue(s, q) == v
    ensures ParseIpText(s) == if ValidIpv4(v) then Ok(v) else Err(FieldNotFound("ip"))
  {
  }

  /** A group of one to three digits placed at `i` is a group of the pattern there, and reads as its value. */
  lemma PlacedGroup(s: string, i: nat, j: nat, g: string)
    requires 1 <= |g| <= 3 && IsDigits(g)
    requires j == i + |g| && j <= |s| && s[i..j] == g
    ensures IsGroup(s, i, j) && GroupValue(s, i, j) == Decimal(g)
  {
    forall k | i <= k < j
      ensures IsDigit(s[k])
    {
      assert s[k] == g[k - i];
    }
  }

  /** One to three digits. */
  predicate IsOctetText(g: string) {
    1 <= |g| <= 3 && IsDigits(g)
  }

  /** The value four groups of digits spell. */
  function GroupsValue(g1: string, g2: string, g3: string, g4: string): Ipv4
    requires IsOctetText(g1) && IsOctetText(g2) && IsOctetText(g3) && IsOctetText(g4)
  {
    Ipv4(Decimal(g1), Decimal(g2), Decimal(g3), Decimal(g4))
  }

  /** Four groups of digits placed at `i` and joined by dots are what is read. */
  lemma ReadPlacedGroups(s: string, i: nat, j1: nat, j2: nat, j3: nat, e: nat,
                         g1: string, g2: string, g3: string, g4: string)
    requires IsOctetText(g1) && IsOctetText(g2) && IsOctetText(g3) && IsOctetText(g4)
    requires j1 == i + |g1| && j2 == j1 + 1 + |g2| && j3 == j2 + 1 + |g3| && e == j3 + 1 + |g4| && e <= |s|
    requires s[i..j1] == g1 && s[j1] == '.' && s[j1 + 1..j2] == g2 && s[j2] == '.'
    requires s[j2 + 1..j3] == g3 && s[j3] == '.' && s[j3 + 1..e] == g4
    requires NoDigitBefore(s, i) && (e == |s| || !IsDigit(s[e]))
    ensures var v := GroupsValue(g1, g2, g3, g4);
      ParseIpText(s) == if ValidIpv4(v) then Ok(v) else Err(FieldNotFound("ip"))
  {
    PlacedGroupsAt(s, i, j1, j2, j3, e, g1, g2, g3, g4);
    ParseQuadText(s, i, j1, j2, j3, e, GroupsValue(g1, g2, g3, g4));
  }

  /**
   * Four groups of one to three digits joined by dots, between text without digits and text
   * that does not go on with a digit, are what is read: the address they spell when no group
   * is above 255, and an error otherwise.
   */
  lemma ReadJoinedGroups(pre: string, g1: string, g2: string, g3: string, g4: string, post: string)
    requires IsOctetText(g1) && IsOctetText(g2) && IsOctetText(g3) && IsOctetText(g4)
    requires NoDigitBefore(pre, |pre|)
    requires post == [] || !IsDigit(post[0])
    ensures var v := GroupsValue(g1, g2, g3, g4);
      ParseIpText(pre + g1 + "." + g2 + "." + g3 + "." + g4 + post)
      == if ValidIpv4(v) then Ok(v) else Err(FieldNotFound("ip"))
  {
    var s := pre + g1 + "." + g2 + "." + g3 + "." + g4 + post;
    AssembledIp(pre, g1, g2, g3, g4, post);
    var i := |pre|;
    var j1 := i + |g1|;
    var j2 := j1 + 1 + |g2|;
    var j3 := j2 + 1 + |g3|;
    var e := j3 + 1 + |g4|;
    assert NoDigitBefore(s, i) by {
      forall k | 0 <= k < i
        ensures !IsDigit(s[k])
      {
        assert s[k] == s[..i][k];
      }
    }
    assert e < |s| ==> s[e] == s[e..][0];
    ReadPlacedGroups(s, i, j1, j2, j3, e, g1, g2, g3, g4);
  }

  /** Groups without a leading zero are written back as they were read. */
  lemma GroupsWriteBack(g1: string, g2: string, g3: string, g4: string)
    requires IsOctetText(g1) && IsOctetText(g2) && IsOctetText(g3) && IsOctetText(g4)
    requires (g1[0] == '0' ==> g1 == "0") && (g2[0] == '0' ==> g2 == "0")
    requires (g3[0] == '0' ==> g3 == "0") && (g4[0] == '0' ==> g4 == "0")
    ensures IpText(GroupsValue(g1, g2, g3, g4)) == g1 + "." + g2 + "." + g3 + "." + g4
  {
    DecimalRoundTrip(g1);
    DecimalRoundTrip(g2);
    DecimalRoundTrip(g3);
    DecimalRoundTrip(g4);
  }

  /**
   * A written address with octets of at most three digits, between text without digits and
   * text that does not go on with a digit, is read back as that address when it is one, and
   * is an error when an octet is above 255.
   */
  lemma WrittenIpRead(pre: string, ip: Ipv4, post: string)
    requires ip.a <= 999 && ip.b <= 999 && ip.c <= 999 && ip.d <= 999
    requires NoDigitBefore(pre, |pre|)
    requires post == [] || !IsDigit(post[0])
    ensures ParseIpText(pre + IpText(ip) + post)
      == if ValidIpv4(ip) then Ok(ip) else Err(FieldNotFound("ip"))
  {
    var g1, g2, g3, g4 := NatToDecimal(ip.a), NatToDecimal(ip.b), NatToDecimal(ip.c), NatToDecimal(ip.d);
    OctetLength(ip.a);
    OctetLength(ip.b);
    OctetLength(ip.c);
    OctetLength(ip.d);
    IpTextAround(pre, ip, post);
    ReadJoinedGroups(pre, g1, g2, g3, g4, post);
  }

  /**
   * A written address between text without digits and text that does not go on with a digit
   * reads back as that address.
   */
  lemma IpRoundTrip(pre: string, ip: Ipv4, post: string)
    requires ValidIpv4(ip)
    requires NoDigitBefore(pre, |pre|)
    requires post == [] || !IsDigit(post[0])
    ensures ParseIpText(pre + IpText(ip) + post) == Ok(ip)
  {
    WrittenIpRead(pre, ip, post);
  }

  /** A match with no digit right after it is the match at its start, and reads as its groups' values. */
  lemma QuadTextAt(s: string, i: nat, j1: nat, j2: nat, j3: nat, e: nat, v: Ipv4)
    requires QuadAt(s, i, j1, j2, j3, e)
    requires e == |s| || !IsDigit(s[e])
    requires GroupValue(s, i, j1) == v.a && GroupValue(s, j1 + 1, j2) == v.b
    requires GroupValue(s, j2 + 1, j3) == v.c && GroupValue(s, j3 + 1, e) == v.d
    ensures QuadFrom(s, i) == Some(Quad(i, j1, j2, j3, e)) && QuadValue(s, Quad(i, j1, j2, j3, e)) == v
  {
    QuadValueAt(s, i, j1, j2, j3, e, v);
    QuadFromExact(s, i, j1, j2, j3, e);
  }

  /** Four groups of digits joined by dots at `i` are a match of the pattern, with their values. */
  lemma PlacedGroupsAt(s: string, i: nat, j1: nat, j2: nat, j3: nat, e: nat,
                       g1: string, g2: string, g3: string, g4: string)
    requires IsOctetText(g1) && IsOctetText(g2) && IsOctetText(g3) && IsOctetText(g4)
    requires j1 == i + |g1| && j2 == j1 + 1 + |g2| && j3 == j2 + 1 + |g3| && e == j3 + 1 + |g4| && e <= |s|
    requires s[i..j1] == g1 && s[j1] == '.' && s[j1 + 1..j2] == g2 && s[j2] == '.'
    requires s[j2 + 1..j3] == g3 && s[j3] == '.' && s[j3 + 1..e] == g4
    ensures QuadAt(s, i, j1, j2, j3, e)
    ensures GroupValue(s, i, j1) == Decimal(g1) && GroupValue(s, j1 + 1, j2) == Decimal(g2)
    ensures GroupValue(s, j2 + 1, j3) == Decimal(g3) && GroupValue(s, j3 + 1, e) == Decimal(g4)
  {
    PlacedGroup(s, i, j1, g1);
    PlacedGroup(s, j1 + 1, j2, g2);
    PlacedGroup(s, j2 + 1, j3, g3);
    PlacedGroup(s, j3 + 1, e, g4);
  }

  /** Four groups of digits joined by dots at `i`, with no digit after them, are the match at `i`. */
  lemma PlacedGroupsQuad(s: string, i: nat, j1: nat, j2: nat, j3: nat, e: nat,
                         g1: string, g2: string, g3: string, g4: string)
    requires IsOctetText(g1) && IsOctetText(g2) && IsOctetText(g3) && IsOctetText(g4)
    requires j1 == i + |g1| && j2 == j1 + 1 + |g2| && j3 == j2 + 1 + |g3| && e == j3 + 1 + |g4| && e <= |s|
    requires s[i..j1] == g1 && s[j1] == '.' && s[j1 + 1..j2] == g2 && s[j2] == '.'
    requires s[j2 + 1..j3] == g3 && s[j3] == '.' && s[j3 + 1..e] == g4
    requires e == |s| || !IsDigit(s[e])
    ensures QuadFrom(s, i) == Some(Quad(i, j1, j2, j3, e))
    ensures QuadValue(s, Quad(i, j1, j2, j3, e)) == GroupsValue(g1, g2, g3, g4)
  {
    PlacedGroupsAt(s, i, j1, j2, j3, e, g1, g2, g3, g4);
    QuadTextAt(s, i, j1, j2, j3, e, GroupsValue(g1, g2, g3, g4));
  }

  /** Four groups of digits joined by dots after `pre`, with no digit after them, are the match there. */
  lemma JoinedGroupsQuad(pre: string, g1: string, g2: string, g3: string, g4: string, post: string)
    requires IsOctetText(g1) && IsOctetText(g2) && IsOctetText(g3) && IsOctetText(g4)
    requires post == [] || !IsDigit(post[0])
    ensures var s := pre + g1 + "." + g2 + "." + g3 + "." + g4 + post;
      var i := |pre|;
      QuadFrom(s, i).Some? && QuadFrom(s, i).value.end == i + |g1| + |g2| + |g3| + |g4| + 3
      && QuadValue(s, QuadFrom(s, i).value) == GroupsValue(g1, g2, g3, g4)
  {
    var s := pre + g1 + "." + g2 + "." + g3 + "." + g4 + post;
    AssembledIp(pre, g1, g2, g3, g4, post);
    var j1 := |pre| + |g1|;
    var j2 := j1 + 1 + |g2|;
    var j3 := j2 + 1 + |g3|;
    var e := j3 + 1 + |g4|;
    assert e < |s| ==> s[e] == s[e..][0];
    PlacedGroupsQuad(s, |pre|, j1, j2, j3, e, g1, g2, g3, g4);
  }

  /**
   * An address with octets of at most three digits written after `pre`, with no digit after
   * it, is the match there, and its groups read as its octets.
   */
  lemma WrittenIpQuad(pre: string, ip: Ipv4, post: string)
    requires ip.a <= 999 && ip.b <= 999 && ip.c <= 999 && ip.d <= 999
    requires post == [] || !IsDigit(post[0])
    ensures var s := pre + IpText(ip) + post;
      QuadFrom(s, |pre|).Some? && QuadFrom(s, |pre|).value.end == |pre| + |IpText(ip)|
      && QuadValue(s, QuadFrom(s, |pre|).value) == ip
  {
    var g1, g2, g3, g4 := NatToDecimal(ip.a), NatToDecimal(ip.b), NatToDecimal(ip.c), NatToDecimal(ip.d);
    OctetLength(ip.a);
    OctetLength(ip.b);
    OctetLength(ip.c);
    OctetLength(ip.d);
    IpTextAround(pre, ip, post);
    JoinedGroupsQuad(pre, g1, g2, g3, g4, post);
  }

  /** The address of the Soft_Job page M.1181801925.A.86E, from its origin line. */
  lemma IpExample(line: string)
    requires line == "※ 發信站: 批踢踢實業坊(ptt.cc), 來自: " + IpText(Ipv4(125, 232, 236, 105)) + "\n"
    ensures ParseIpText(line) == Ok(Ipv4(125, 232, 236, 105))
  {
    IpRoundTrip("※ 發信站: 批踢踢實業坊(ptt.cc), 來自: ", Ipv4(125, 232, 236, 105), "\n");
  }

  /**
   * An out-of-range octet in the leftmost match is an error even when a valid address
   * follows it.
   */
  lemma OutOfRangeIp(pre: string, bad: Ipv4, ip: Ipv4)
    requires 256 <= bad.a <= 999 && bad.b <= 255 && bad.c <= 255 && bad.d <= 255
    requires NoDigitBefore(pre, |pre|)
    ensures ParseIpText(pre + IpText(bad) + " " + IpText(ip)) == Err(FieldNotFound("ip"))
  {
    AppendAssoc(pre + IpText(bad), " ", IpText(ip));
    WrittenIpRead(pre, bad, " " + IpText(ip));
  }

  // Where the address is looked for.

  /** An `f2` line that carries the address: it names where the post came from, not an edit. */
  predicate IsOriginLine(s: string) {
    !Contains(s, "編輯") && (Contains(s, "來自:") || Contains(s, "From:"))
  }

  /** The first origin line among the `f2` texts. */
  function FindOriginLine(texts: seq<string>): (r: Option<nat>)
    ensures r.Some? ==> r.value < |texts| && IsOriginLine(texts[r.value])
    ensures forall k :: 0 <= k < |texts| && (r.None? || k < r.value) ==> !IsOriginLine(texts[k])
  {
    if |texts| == 0 then None
    else if IsOriginLine(texts[0]) then Some(0)
    else match FindOriginLine(texts[1..])
      case None => None
      case Some(k) => Some(k + 1)
  }

  /**
   * The text searched for the address: the first origin line, else the main text from its
   * first "來自:", else from its first "From:", else all of it.
   */
  function IpSource(doc: Document): (r: string)
    ensures FindOriginLine(doc.f2Texts).Some? ==> r == doc.f2Texts[FindOriginLine(doc.f2Texts).value]
    ensures FindOriginLine(doc.f2Texts).None? ==>
      |r| <= |doc.mainContent| && r == doc.mainContent[|doc.mainContent| - |r|..]
    ensures FindOriginLine(doc.f2Texts).None? && Contains(doc.mainContent, "來自:") ==>
      OccursAt(r, "來自:", 0) && |doc.mainContent| - |r| == Find(doc.mainContent, "來自:").value
    ensures (FindOriginLine(doc.f2Texts).None? && !Contains(doc.mainContent, "來自:")
             && Contains(doc.mainContent, "From:")) ==>
      OccursAt(r, "From:", 0) && |doc.mainContent| - |r| == Find(doc.mainContent, "From:").value
    ensures (FindOriginLine(doc.f2Texts).None? && !Contains(doc.mainContent, "來自:")
             && !Contains(doc.mainContent, "From:")) ==> r == doc.mainContent
  {
    match FindOriginLine(doc.f2Texts)
    case Some(k) => doc.f2Texts[k]
    case None =>
      var mc := doc.mainContent;
      var start := match Find(mc, "來自:")
        case Some(i) => i
        case None => match Find(mc, "From:")
          case Some(i) => i
          case None => 0;
      assert start <= |mc|;
      mc[start..]
  }

  /** `parse_ip`. */
  function ParseIp(doc: Document): (r: Result<Ipv4, Error>)
    ensures r.Err? ==> r.error == FieldNotFound("ip")
    ensures r.Ok? ==> ValidIpv4(r.value)
  {
    ParseIpText(IpSource(doc))
  }
}
