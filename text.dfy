/** The string operations of Python's `str` that the threading code relies on:
    `lower`, `strip`, `strip(chars)`, `split()`, `startswith`, the `in`
    substring test, and `str(int)`. Case mapping covers the ASCII letters
    only; whitespace is the set `str.isspace()` accepts below U+0100, so
    wider Unicode spaces (U+2003, U+3000, ...) count as ordinary characters. */
module Text {

  /** Characters below U+0100 for which Python's `str.isspace()` holds. */
  predicate IsSpace(c: char) {
    c == ' ' || c == '\t' || c == '\n' || c == '\r' || c == '\U{0B}' || c == '\U{0C}'
    || ('\U{1C}' <= c <= '\U{1F}') || c == '\U{85}' || c == '\U{A0}'
  }

  function LowerChar(c: char): (d: char)
    ensures 'A' <= c <= 'Z' ==> d as int == c as int + 32
    ensures !('A' <= c <= 'Z') ==> d == c
  {
    if 'A' <= c <= 'Z' then (c as int + 32) as char else c
  }

  predicate IsLowered(s: string) {
    forall i :: 0 <= i < |s| ==> !('A' <= s[i] <= 'Z')
  }

  /** `s.lower()` on ASCII letters. */
  function Lower(s: string): (r: string)
    ensures |r| == |s|
    ensures forall i :: 0 <= i < |s| ==> r[i] == LowerChar(s[i])
    ensures IsLowered(r)
  {
    seq(|s|, i requires 0 <= i < |s| => LowerChar(s[i]))
  }

  lemma LowerIdempotent(s: string)
    requires IsLowered(s)
    ensures Lower(s) == s
  {
  }

  /** `s.startswith(p)` */
  predicate StartsWith(s: string, p: string) {
    |p| <= |s| && s[..|p|] == p
  }

  lemma StartsWithHead(s: string, p: string)
    requires p != [] && StartsWith(s, p)
    ensures s != [] && s[0] == p[0]
  {
    assert s[..|p|][0] == s[0];
  }

  /** Python's `q in s` for strings: `q` occurs in `s` as a contiguous slice. */
  predicate Contains(s: string, q: string) {
    exists i | 0 <= i <= |s| - |q| :: q <= s[i..]
  }

  /** The end of the run of characters satisfying `drop` that starts at `i`. */
  function SkipWhile(s: string, i: nat, drop: char -> bool): (k: nat)
    requires i <= |s|
    ensures i <= k <= |s|
    ensures forall m :: i <= m < k ==> drop(s[m])
    ensures k == |s| || !drop(s[k])
    decreases |s| - i
  {
    if i == |s| || !drop(s[i]) then i else SkipWhile(s, i + 1, drop)
  }

  /** The run is determined by its end: the first index from `i` on whose
      character does not satisfy `drop`. */
  lemma SkipWhileStopsAt(s: string, i: nat, drop: char -> bool, k: nat)
    requires i <= k <= |s|
    requires forall m :: i <= m < k ==> drop(s[m])
    requires k == |s| || !drop(s[k])
    ensures SkipWhile(s, i, drop) == k
  {
  }

  /** The start of the run of characters satisfying `drop` that ends at `j`,
      not going below `lo`. */
  function SkipBackWhile(s: string, lo: nat, j: nat, drop: char -> bool): (k: nat)
    requires lo <= j <= |s|
    ensures lo <= k <= j
    ensures forall m :: k <= m < j ==> drop(s[m])
    ensures k == lo || !drop(s[k - 1])
    decreases j
  {
    if j == lo || !drop(s[j - 1]) then j else SkipBackWhile(s, lo, j - 1, drop)
  }

  /** `r` is `s[a..b]`, everything outside `[a, b)` satisfies `drop`, and `r`
      neither starts nor ends with such a character. */
  ghost predicate TrimmedAt(s: string, r: string, a: nat, b: nat, drop: char -> bool) {
    && a <= b <= |s|
    && r == s[a..b]
    && (forall m :: 0 <= m < a ==> drop(s[m]))
    && (forall m :: b <= m < |s| ==> drop(s[m]))
    && (r != [] ==> !drop(r[0]) && !drop(r[|r| - 1]))
  }

  /** `s.strip(chars)`: remove every leading and trailing character in the
      class, and nothing else. */
  function StripBy(s: string, drop: char -> bool): (r: string)
    ensures exists a, b :: TrimmedAt(s, r, a, b, drop)
    ensures |r| <= |s|
  {
    var a := SkipWhile(s, 0, drop);
    var b := SkipBackWhile(s, a, |s|, drop);
    assert s[a..b] != [] ==> !drop(s[a..b][0]) by {
      if a < b { assert s[a..b][0] == s[a]; }
    }
    assert TrimmedAt(s, s[a..b], a, b, drop);
    s[a..b]
  }

  /** `s.strip()` */
  function Strip(s: string): (r: string)
    ensures exists a, b :: TrimmedAt(s, r, a, b, IsSpace)
    ensures |r| <= |s|
  {
    StripBy(s, IsSpace)
  }

  predicate IsAngle(c: char) {
    c == '<' || c == '>'
  }

  /** `s.strip("<>")` */
  function StripAngles(s: string): (r: string)
    ensures exists a, b :: TrimmedAt(s, r, a, b, IsAngle)
    ensures |r| <= |s|
  {
    StripBy(s, IsAngle)
  }

  lemma {:induction false} StripAnglesExamples()
    ensures StripAngles("<<a>>") == "a"
    ensures StripAngles("<>") == ""
    ensures StripAngles("<a<b>") == "a<b"
  {
    var s := "<<a>>";
    assert SkipWhile(s, 2, IsAngle) == 2;
    assert SkipWhile(s, 0, IsAngle) == 2;
    assert SkipBackWhile(s, 2, 3, IsAngle) == 3;
    assert SkipBackWhile(s, 2, 5, IsAngle) == 3;
    var t := "<>";
    assert SkipWhile(t, 0, IsAngle) == 2;
    var u := "<a<b>";
    assert SkipWhile(u, 0, IsAngle) == 1;
    assert SkipBackWhile(u, 1, 5, IsAngle) == 4;
  }

  /** The non-whitespace characters of `s`, in order. */
  function RemoveSpaces(s: string): (r: string)
    decreases |s|
  {
    if s == [] then []
    else RemoveSpaces(s[..|s| - 1]) + (if IsSpace(s[|s| - 1]) then [] else [s[|s| - 1]])
  }

  lemma {:induction false} RemoveSpacesAppend(a: string, b: string)
    ensures RemoveSpaces(a + b) == RemoveSpaces(a) + RemoveSpaces(b)
    decreases |b|
  {
    if b == [] {
      assert a + b == a;
    } else {
      assert (a + b)[..|a + b| - 1] == a + b[..|b| - 1];
      RemoveSpacesAppend(a, b[..|b| - 1]);
    }
  }

  lemma {:induction false} RemoveSpacesOfSpaces(s: string)
    requires forall i :: 0 <= i < |s| ==> IsSpace(s[i])
    ensures RemoveSpaces(s) == []
    decreases |s|
  {
    if s != [] { RemoveSpacesOfSpaces(s[..|s| - 1]); }
  }

  lemma {:induction false} RemoveSpacesOfToken(s: string)
    requires forall i :: 0 <= i < |s| ==> !IsSpace(s[i])
    ensures RemoveSpaces(s) == s
    decreases |s|
  {
    if s != [] {
      RemoveSpacesOfToken(s[..|s| - 1]);
      assert s == s[..|s| - 1] + [s[|s| - 1]];
    }
  }

  function Concat(ts: seq<string>): string {
    if ts == [] then [] else ts[0] + Concat(ts[1..])
  }

  predicate IsNonSpace(c: char) {
    !IsSpace(c)
  }

  predicate IsToken(t: string) {
    t != [] && forall i :: 0 <= i < |t| ==> !IsSpace(t[i])
  }

  /** `s.split()`: the maximal runs of non-whitespace characters, in order. */
  function Split(s: string): (r: seq<string>)
    ensures forall i :: 0 <= i < |r| ==> IsToken(r[i])
    decreases |s|
  {
    var i := SkipWhile(s, 0, IsSpace);
    if i == |s| then []
    else
      var j := SkipWhile(s, i, IsNonSpace);
      [s[i..j]] + Split(s[j..])
  }

  /** A string splits into no token exactly when it is all whitespace. */
  lemma SplitBlank(s: string)
    ensures Split(s) == [] <==> forall i :: 0 <= i < |s| ==> IsSpace(s[i])
  {
    var i := SkipWhile(s, 0, IsSpace);
    if i < |s| {
      assert !IsSpace(s[i]);
    }
  }

  /** Splitting loses only whitespace: the tokens put back together are
      exactly the non-whitespace characters of the input. */
  lemma {:induction false} SplitKeepsText(s: string)
    ensures Concat(Split(s)) == RemoveSpaces(s)
    decreases |s|
  {
    var i := SkipWhile(s, 0, IsSpace);
    if i == |s| {
      RemoveSpacesOfSpaces(s);
    } else {
      var j := SkipWhile(s, i, IsNonSpace);
      var rest := s[j..];
      assert Split(s) == [s[i..j]] + Split(rest);
      SplitKeepsText(rest);
      SplitPieces(s, i, j);
    }
  }

  lemma {:induction false} SplitPieces(s: string, i: nat, j: nat)
    requires i < j <= |s|
    requires forall m :: 0 <= m < i ==> IsSpace(s[m])
    requires forall m :: i <= m < j ==> !IsSpace(s[m])
    ensures RemoveSpaces(s) == s[i..j] + RemoveSpaces(s[j..])
  {
    var lead, tok, rest := s[..i], s[i..j], s[j..];
    assert s == lead + (tok + rest);
    RemoveSpacesOfSpaces(lead);
    RemoveSpacesOfToken(tok);
    RemoveSpacesAppend(tok, rest);
    RemoveSpacesAppend(lead, tok + rest);
  }

  /** `" ".join(ts)` */
  function JoinSpaced(ts: seq<string>): string {
    if ts == [] then "" else if |ts| == 1 then ts[0] else ts[0] + " " + JoinSpaced(ts[1..])
  }

  /** Whitespace in front of a string adds no token. */
  lemma {:induction false} SplitAfterSpaces(w: string, b: string)
    requires forall m :: 0 <= m < |w| ==> IsSpace(w[m])
    ensures Split(w + b) == Split(b)
    decreases |w|
  {
    if w == [] {
      assert w + b == b;
    } else {
      assert w + b == [w[0]] + (w[1..] + b);
      SplitLeadingSpace(w[0], w[1..] + b);
      SplitAfterSpaces(w[1..], b);
    }
  }

  /** One whitespace character in front adds no token. */
  lemma SplitLeadingSpace(c: char, x: string)
    requires IsSpace(c)
    ensures Split([c] + x) == Split(x)
  {
    var ix := SkipWhile(x, 0, IsSpace);
    if ix == |x| {
      SplitBlank(x);
      LeadingBlank(c, x);
      SplitBlank([c] + x);
    } else {
      var jx := SkipWhile(x, ix, IsNonSpace);
      LeadingBounds(c, x, ix, jx);
      SplitFirstTokenAs([c] + x, 1 + ix, 1 + jx, x[ix..jx], x[jx..]);
      SplitFirstToken(x, ix, jx);
    }
  }

  lemma LeadingBlank(c: char, x: string)
    requires IsSpace(c)
    requires forall m :: 0 <= m < |x| ==> IsSpace(x[m])
    ensures forall m :: 0 <= m < |[c] + x| ==> IsSpace(([c] + x)[m])
  {
  }

  lemma LeadingSlices(c: char, x: string, i: nat, j: nat)
    requires i <= j <= |x|
    ensures ([c] + x)[0] == c
    ensures forall m :: 1 <= m <= |x| ==> ([c] + x)[m] == x[m - 1]
    ensures ([c] + x)[1 + i..1 + j] == x[i..j]
    ensures ([c] + x)[1 + j..] == x[j..]
  {
  }

  /** `SplitFirstToken` with the token and the rest given by value. */
  lemma SplitFirstTokenAs(s: string, i: nat, j: nat, t: string, rest: string)
    requires i < j <= |s|
    requires forall m :: 0 <= m < i ==> IsSpace(s[m])
    requires forall m :: i <= m < j ==> !IsSpace(s[m])
    requires j == |s| || IsSpace(s[j])
    requires s[i..j] == t && s[j..] == rest
    ensures Split(s) == [t] + Split(rest)
  {
    SplitFirstToken(s, i, j);
    SplitRenamed(s, i, j, t, rest);
  }

  /** The first-token equation of `Split(s)` restated with the token and
      the rest given by value. */
  lemma SplitRenamed(s: string, i: nat, j: nat, t: string, rest: string)
    requires i <= j <= |s|
    requires Split(s) == [s[i..j]] + Split(s[j..])
    requires s[i..j] == t && s[j..] == rest
    ensures Split(s) == [t] + Split(rest)
  {
  }

  lemma LeadingBounds(c: char, x: string, i: nat, j: nat)
    requires IsSpace(c)
    requires i < j <= |x|
    requires forall m :: 0 <= m < i ==> IsSpace(x[m])
    requires forall m :: i <= m < j ==> !IsSpace(x[m])
    requires j == |x| || IsSpace(x[j])
    ensures forall m :: 0 <= m < 1 + i ==> IsSpace(([c] + x)[m])
    ensures forall m :: 1 + i <= m < 1 + j ==> !IsSpace(([c] + x)[m])
    ensures 1 + j == |[c] + x| || IsSpace(([c] + x)[1 + j])
    ensures ([c] + x)[1 + i..1 + j] == x[i..j]
    ensures ([c] + x)[1 + j..] == x[j..]
  {
    LeadingSlices(c, x, i, j);
  }

  /** The first token of `s` lies in `[i, j)`. */
  lemma SplitFirstToken(s: string, i: nat, j: nat)
    requires i < j <= |s|
    requires forall m :: 0 <= m < i ==> IsSpace(s[m])
    requires forall m :: i <= m < j ==> !IsSpace(s[m])
    requires j == |s| || IsSpace(s[j])
    ensures Split(s) == [s[i..j]] + Split(s[j..])
  {
    SkipWhileStopsAt(s, 0, IsSpace, i);
    SkipWhileStopsAt(s, i, IsNonSpace, j);
  }

  lemma GluedSlices(a: string, c: char, b: string, i: nat, j: nat)
    requires i <= j <= |a|
    ensures forall m :: 0 <= m < |a| ==> (a + [c] + b)[m] == a[m]
    ensures (a + [c] + b)[|a|] == c
    ensures (a + [c] + b)[i..j] == a[i..j]
    ensures (a + [c] + b)[j..] == a[j..] + [c] + b
  {
  }

  lemma SplitAtSpaceBlank(a: string, c: char, b: string)
    requires IsSpace(c)
    requires forall m :: 0 <= m < |a| ==> IsSpace(a[m])
    ensures Split(a + [c] + b) == Split(a) + Split(b)
  {
    SplitBlank(a);
    SplitAfterSpaces(a + [c], b);
  }

  lemma ConsAppend<T>(t: T, r1: seq<T>, r2: seq<T>)
    ensures [t] + (r1 + r2) == ([t] + r1) + r2
  {
  }

  /** The first token of `a` stays the first token when more text follows
      after a whitespace character. */
  lemma GluedFirstToken(a: string, c: char, b: string, i: nat, j: nat)
    requires IsSpace(c)
    requires i < j <= |a|
    requires forall m :: 0 <= m < i ==> IsSpace(a[m])
    requires forall m :: i <= m < j ==> !IsSpace(a[m])
    requires j == |a| || IsSpace(a[j])
    ensures Split(a + [c] + b) == [a[i..j]] + Split(a[j..] + [c] + b)
  {
    GluedBounds(a, c, b, i, j);
    SplitFirstToken(a + [c] + b, i, j);
  }

  lemma GluedBounds(a: string, c: char, b: string, i: nat, j: nat)
    requires IsSpace(c)
    requires i < j <= |a|
    requires forall m :: 0 <= m < i ==> IsSpace(a[m])
    requires forall m :: i <= m < j ==> !IsSpace(a[m])
    requires j == |a| || IsSpace(a[j])
    ensures forall m :: 0 <= m < i ==> IsSpace((a + [c] + b)[m])
    ensures forall m :: i <= m < j ==> !IsSpace((a + [c] + b)[m])
    ensures j == |a + [c] + b| || IsSpace((a + [c] + b)[j])
    ensures (a + [c] + b)[i..j] == a[i..j]
    ensures (a + [c] + b)[j..] == a[j..] + [c] + b
  {
    GluedSlices(a, c, b, i, j);
  }

  lemma SplitAtSpaceStep(a: string, c: char, b: string, i: nat, j: nat)
    requires IsSpace(c)
    requires i < j <= |a|
    requires forall m :: 0 <= m < i ==> IsSpace(a[m])
    requires forall m :: i <= m < j ==> !IsSpace(a[m])
    requires j == |a| || IsSpace(a[j])
    requires Split(a[j..] + [c] + b) == Split(a[j..]) + Split(b)
    ensures Split(a + [c] + b) == Split(a) + Split(b)
  {
    GluedFirstToken(a, c, b, i, j);
    SplitFirstToken(a, i, j);
    ConsAppend(a[i..j], Split(a[j..]), Split(b));
  }

  /** A whitespace character separates tokens: the tokens of `a + [c] + b`
      are those of `a` followed by those of `b`. */
  lemma {:induction false} SplitAtSpace(a: string, c: char, b: string)
    requires IsSpace(c)
    ensures Split(a + [c] + b) == Split(a) + Split(b)
    decreases |a|
  {
    var i := SkipWhile(a, 0, IsSpace);
    if i == |a| {
      SplitAtSpaceBlank(a, c, b);
    } else {
      var j := SkipWhile(a, i, IsNonSpace);
      SplitAtSpace(a[j..], c, b);
      SplitAtSpaceStep(a, c, b, i, j);
    }
  }

  /** A token splits into itself. */
  lemma SplitOfToken(t: string)
    requires IsToken(t)
    ensures Split(t) == [t]
  {
    SkipWhileStopsAt(t, 0, IsSpace, 0);
    SkipWhileStopsAt(t, 0, IsNonSpace, |t|);
    assert t[0..|t|] == t;
  }

  /** Tokens joined by single spaces split back into the same tokens. */
  lemma {:induction false} SplitOfJoined(ts: seq<string>)
    requires forall i :: 0 <= i < |ts| ==> IsToken(ts[i])
    ensures Split(JoinSpaced(ts)) == ts
    decreases |ts|
  {
    if |ts| == 1 {
      SplitOfToken(ts[0]);
    } else if |ts| > 1 {
      SplitOfJoined(ts[1..]);
      SplitAtSpace(ts[0], ' ', JoinSpaced(ts[1..]));
      SplitOfToken(ts[0]);
    }
  }

  function DigitChar(d: nat): (c: char)
    requires d < 10
  {
    "0123456789"[d]
  }

  function DigitValue(c: char): int {
    c as int - '0' as int
  }

  /** `str(n)` for a natural number. */
  function NatToDecimal(n: nat): (r: string)
    ensures |r| >= 1
    ensures forall i :: 0 <= i < |r| ==> '0' <= r[i] <= '9'
    ensures |r| > 1 ==> r[0] != '0'
  {
    if n < 10 then [DigitChar(n)] else NatToDecimal(n / 10) + [DigitChar(n % 10)]
  }

  /** The value of a string of decimal digits. */
  function DecimalValue(s: string): int {
    if s == [] then 0 else DecimalValue(s[..|s| - 1]) * 10 + DigitValue(s[|s| - 1])
  }

  lemma {:induction false} DecimalRoundTrip(n: nat)
    ensures DecimalValue(NatToDecimal(n)) == n
  {
    if n < 10 {
      DigitCharValue(n);
    } else {
      DecimalRoundTrip(n / 10);
      var r, p := NatToDecimal(n), NatToDecimal(n / 10);
      assert r[..|r| - 1] == p && r[|r| - 1] == DigitChar(n % 10);
      DigitCharValue(n % 10);
      assert DecimalValue(r) == DecimalValue(p) * 10 + n % 10;
    }
  }

  lemma DigitCharValue(d: nat)
    requires d < 10
    ensures DigitValue(DigitChar(d)) == d
  {
  }

  /** `str(i)` for an integer: a minus sign before the digits of `-i`. */
  function IntToDecimal(i: int): (r: string)
    ensures |r| >= 1
    ensures (r[0] == '-') <==> i < 0
  {
    if i < 0 then "-" + NatToDecimal(-i) else NatToDecimal(i)
  }
}
