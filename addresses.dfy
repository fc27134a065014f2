/** Address extraction from a header value: the leftmost, greedy scan that
    `re.findall` performs with the pattern
    local `[a-zA-Z0-9._%+-]+`, then `@`, domain `[a-zA-Z0-9.-]+`, then `\.`,
    then a top-level part `[a-zA-Z]{2,}`. */
module Addresses {
  import opened Wrappers
  import opened Text

  predicate IsAlpha(c: char) {
    'a' <= c <= 'z' || 'A' <= c <= 'Z'
  }

  predicate IsDigit(c: char) {
    '0' <= c <= '9'
  }

  predicate IsLocalChar(c: char) {
    IsAlpha(c) || IsDigit(c) || c == '.' || c == '_' || c == '%' || c == '+' || c == '-'
  }

  predicate IsDomainChar(c: char) {
    IsAlpha(c) || IsDigit(c) || c == '.' || c == '-'
  }

  /** `a` is `local@domain.tld` split at `at` and `dot`, each part drawn from
      its character class, the top-level part at least two letters long. */
  predicate ShapeAt(a: string, at: nat, dot: nat) {
    && 0 < at
    && at + 1 < dot
    && dot + 2 < |a|
    && a[at] == '@'
    && a[dot] == '.'
    && (forall k :: 0 <= k < at ==> IsLocalChar(a[k]))
    && (forall k :: at < k < dot ==> IsDomainChar(a[k]))
    && (forall k :: dot < k < |a| ==> IsAlpha(a[k]))
  }

  /** `a` matches the address pattern as a whole. */
  predicate IsAddress(a: string) {
    exists at, dot | 0 <= at < |a| && 0 <= dot < |a| :: ShapeAt(a, at, dot)
  }

  /** A dot at `j` followed by at least two letters. */
  predicate TopLevelDotAt(s: string, j: nat) {
    j + 2 < |s| && s[j] == '.' && IsAlpha(s[j + 1]) && IsAlpha(s[j + 2])
  }

  /** The largest `j` in `[lo, hi)` with a dot followed by two letters: the
      split point the greedy domain part backtracks to first. */
  function LastTopLevelDot(s: string, lo: nat, hi: nat): (r: Option<nat>)
    requires lo <= hi <= |s|
    ensures r.Some? ==> lo <= r.value < hi && TopLevelDotAt(s, r.value)
    ensures r.Some? ==> forall j :: r.value < j < hi ==> !TopLevelDotAt(s, j)
    ensures r.None? ==> forall j :: lo <= j < hi ==> !TopLevelDotAt(s, j)
    decreases hi
  {
    if hi == lo then None
    else if TopLevelDotAt(s, hi - 1) then Some(hi - 1)
    else LastTopLevelDot(s, lo, hi - 1)
  }

  /** Where a match found at some start position ends: the index of its `@`,
      of the dot before the top-level part, and one past its last letter. */
  datatype Match = Match(at: nat, dot: nat, end: nat)

  /** The pattern tried at position `p` alone. */
  function MatchAt(s: string, p: nat): (r: Option<Match>)
    requires p <= |s|
    ensures r.Some? ==> p < r.value.at < r.value.dot < r.value.end <= |s|
    ensures r.Some? ==> ShapeAt(s[p..r.value.end], r.value.at - p, r.value.dot - p)
  {
    var at := SkipWhile(s, p, IsLocalChar);
    if at == p || at == |s| || s[at] != '@' then None
    else
      var domainEnd := SkipWhile(s, at + 1, IsDomainChar);
      if domainEnd <= at + 2 then None
      else match LastTopLevelDot(s, at + 2, domainEnd)
      case None => None
      case Some(dot) =>
        var end := SkipWhile(s, dot + 1, IsAlpha);
        ShapeOfSlice(s, p, at, dot, end);
        Some(Match(at, dot, end))
  }

  /** The pattern's shape, read on the whole string, is the shape of the
      slice it covers. */
  lemma ShapeOfSlice(s: string, p: nat, at: nat, dot: nat, end: nat)
    requires p < at && at + 1 < dot && dot + 2 < end <= |s|
    requires s[at] == '@' && s[dot] == '.'
    requires forall k :: p <= k < at ==> IsLocalChar(s[k])
    requires forall k :: at < k < dot ==> IsDomainChar(s[k])
    requires forall k :: dot < k < end ==> IsAlpha(s[k])
    ensures ShapeAt(s[p..end], at - p, dot - p)
  {
    var a := s[p..end];
    assert forall k :: 0 <= k < |a| ==> a[k] == s[k + p];
  }

  /** `re.findall` from position `p`: at each position try the pattern; on a
      match record it and resume after it, otherwise move one character on. */
  function FindAllFrom(s: string, p: nat): (r: seq<string>)
    requires p <= |s|
    ensures forall i :: 0 <= i < |r| ==> IsAddress(r[i])
    decreases |s| - p
  {
    if p == |s| then []
    else match MatchAt(s, p)
      case Some(m) =>
        assert IsAddress(s[p..m.end]) by {
          assert ShapeAt(s[p..m.end], m.at - p, m.dot - p);
        }
        [s[p..m.end]] + FindAllFrom(s, m.end)
      case None => FindAllFrom(s, p + 1)
  }

  /** `_extract_email_addresses`: the distinct matches in a header value. */
  function ExtractAddresses(headerValue: string): (r: set<string>)
    ensures forall a :: a in r ==> IsAddress(a)
    ensures headerValue == "" ==> r == {}
  {
    var found := FindAllFrom(headerValue, 0);
    set a | a in found
  }

  /** A header value that is one address, and nothing else, yields exactly
      that address: the scan from its first character matches all of it. */
  lemma AddressFoundAsItself(s: string)
    requires IsAddress(s)
    ensures ExtractAddresses(s) == {s}
  {
    var at, dot :| 0 <= at < |s| && 0 <= dot < |s| && ShapeAt(s, at, dot);
    WholeMatch(s, at, dot);
    assert s[0..|s|] == s;
    assert FindAllFrom(s, |s|) == [];
    assert FindAllFrom(s, 0) == [s];
  }

  /** The pattern tried at the start of a whole address ends at its end. */
  lemma WholeMatch(s: string, at: nat, dot: nat)
    requires ShapeAt(s, at, dot)
    ensures MatchAt(s, 0) == Some(Match(at, dot, |s|))
  {
    SkipWhileStopsAt(s, 0, IsLocalChar, at);
    SkipWhileStopsAt(s, at + 1, IsDomainChar, |s|);
    assert TopLevelDotAt(s, dot);
    assert LastTopLevelDot(s, at + 2, |s|) == Some(dot);
    SkipWhileStopsAt(s, dot + 1, IsAlpha, |s|);
  }

  /** A single bare address is found as itself. */
  lemma {:induction false} BareAddressExample()
    ensures ExtractAddresses("a@b.co") == {"a@b.co"}
  {
    var s := "a@b.co";
    assert FindAllFrom(s, 0) == [s] by {
      assert MatchAt(s, 0) == Some(Match(1, 3, 6)) by {
        assert SkipWhile(s, 0, IsLocalChar) == 1;
        assert SkipWhile(s, 2, IsDomainChar) == 6;
        assert LastTopLevelDot(s, 3, 6) == Some(3);
        assert SkipWhile(s, 4, IsAlpha) == 6;
      }
      assert FindAllFrom(s, 6) == [];
      assert s[0..6] == s;
    }
    assert forall a :: a in ExtractAddresses(s) <==> a == s;
  }
}
