/** `EmailThreadAnalyzer`: the classification of one parsed message. Every
    operation is a pure function of the record. */
module ThreadAnalyzer {
  import opened Wrappers
  import opened Text
  import opened Addresses
  import opened EmailModel

  // ---------------------------------------------------------------- thread id

  const HexDigits: string := "0123456789abcdef"

  /** The low `n` hexadecimal digits of `v`, most significant first. */
  function HexString(v: nat, n: nat): (h: string)
    ensures |h| == n
    ensures forall i :: 0 <= i < n ==> h[i] in HexDigits
  {
    if n == 0 then "" else HexString(v / 16, n - 1) + [HexDigits[v % 16]]
  }

  /** A polynomial digest of the characters of `s`, below 16^12. */
  function Digest(s: string): (d: nat)
    ensures d < 0x1_0000_0000_0000
  {
    if s == [] then 0
    else (Digest(s[..|s| - 1]) * 31 + s[|s| - 1] as int) % 0x1_0000_0000_0000
  }

  /** Stand-in for the first 12 hexadecimal digits of the MD5 digest: a
      deterministic 12-character lower-case hexadecimal string. */
  function Hash12(s: string): (h: string)
    ensures |h| == 12
    ensures forall i :: 0 <= i < 12 ==> h[i] in HexDigits
  {
    HexString(Digest(s), 12)
  }

  /** `headers.get("subject", "")` */
  function SubjectOf(r: EmailRecord): string {
    r.headers.subject.GetOr("")
  }

  /** The value hashed into the thread id: the first truthy one of
      In-Reply-To, the first reference, Message-ID, and the normalised
      subject. */
  function ThreadKey(m: Metadata, subject: string): (k: string)
    ensures Truthy(m.inReplyTo) ==> k == m.inReplyTo.value
    ensures !Truthy(m.inReplyTo) && ReferenceList(m) != [] ==> k == ReferenceList(m)[0]
    ensures !Truthy(m.inReplyTo) && ReferenceList(m) == [] && Truthy(m.messageId) ==> k == m.messageId.value
    ensures !Truthy(m.inReplyTo) && ReferenceList(m) == [] && !Truthy(m.messageId) ==> k == NormalizeSubject(subject)
  {
    if Truthy(m.inReplyTo) then m.inReplyTo.value
    else if ReferenceList(m) != [] then ReferenceList(m)[0]
    else if Truthy(m.messageId) then m.messageId.value
    else NormalizeSubject(subject)
  }

  /** `_generate_thread_id` */
  function ThreadIdOf(r: EmailRecord): (id: string)
    ensures |id| == 19
    ensures id[..7] == "thread_"
    ensures id[7..] == Hash12(ThreadKey(r.metadata, SubjectOf(r)))
  {
    "thread_" + Hash12(ThreadKey(r.metadata, SubjectOf(r)))
  }

  /** Replies to the same message share a thread, whatever else differs. */
  lemma SameInReplyToSameThread(r1: EmailRecord, r2: EmailRecord)
    requires Truthy(r1.metadata.inReplyTo)
    requires r1.metadata.inReplyTo == r2.metadata.inReplyTo
    ensures ThreadIdOf(r1) == ThreadIdOf(r2)
  {
  }

  /** Without any id header, messages whose subjects normalise alike share a
      thread. */
  lemma SubjectFallbackSameThread(r1: EmailRecord, r2: EmailRecord)
    requires !Truthy(r1.metadata.inReplyTo) && !Truthy(r2.metadata.inReplyTo)
    requires ReferenceList(r1.metadata) == [] && ReferenceList(r2.metadata) == []
    requires !Truthy(r1.metadata.messageId) && !Truthy(r2.metadata.messageId)
    requires NormalizeSubject(SubjectOf(r1)) == NormalizeSubject(SubjectOf(r2))
    ensures ThreadIdOf(r1) == ThreadIdOf(r2)
  {
  }

  // ------------------------------------------------------- subject analysis

  /** The list `_normalize_subject` walks (with "fwd:" three times). */
  const NormalizePrefixes: seq<string> := ["re:", "fw:", "fwd:", "aw:", "fwd:", "fwd:"]

  /** The list `_count_subject_prefixes` walks. */
  const CountedPrefixes: seq<string> := ["re:", "fw:", "fwd:", "aw:"]

  predicate IsStripped(s: string) {
    s == [] || (!IsSpace(s[0]) && !IsSpace(s[|s| - 1]))
  }

  lemma StripIsStripped(s: string)
    ensures IsStripped(Strip(s))
  {
    var r := Strip(s);
    var a: nat, b: nat :| TrimmedAt(s, r, a, b, IsSpace);
  }

  lemma StripKeepsLowered(s: string)
    ensures IsLowered(s) ==> IsLowered(Strip(s))
  {
    var r := Strip(s);
    var a: nat, b: nat :| TrimmedAt(s, r, a, b, IsSpace);
    assert forall i :: 0 <= i < |r| ==> r[i] == s[a + i];
  }

  /** One step of the prefix loop: strip `p` and re-trim if `s` starts with it. */
  function StripStep(s: string, p: string): (r: string)
    ensures IsLowered(s) ==> IsLowered(r)
    ensures IsStripped(s) ==> IsStripped(r)
    ensures |r| <= |s|
    ensures StartsWith(s, p) ==> |r| + |p| <= |s|
  {
    if StartsWith(s, p) then
      StripIsStripped(s[|p|..]);
      StripKeepsLowered(s[|p|..]);
      Strip(s[|p|..])
    else s
  }

  /** One pass over `prefixes` in order, each stripped at most once. */
  function StripPass(s: string, prefixes: seq<string>): (r: string)
    ensures IsLowered(s) ==> IsLowered(r)
    ensures IsStripped(s) ==> IsStripped(r)
    ensures |r| <= |s|
    decreases |prefixes|
  {
    if prefixes == [] then s else StripPass(StripStep(s, prefixes[0]), prefixes[1..])
  }

  /** How many entries of `prefixes` the same pass strips. */
  function CountPass(s: string, prefixes: seq<string>): (n: nat)
    ensures n <= |prefixes|
    decreases |prefixes|
  {
    if prefixes == [] then 0
    else (if StartsWith(s, prefixes[0]) then 1 else 0) + CountPass(StripStep(s, prefixes[0]), prefixes[1..])
  }

  /** `_normalize_subject` */
  function NormalizeSubject(subject: string): (r: string)
    ensures subject == "" ==> r == ""
    ensures IsLowered(r)
    ensures IsStripped(r)
    ensures |r| <= |subject|
  {
    if subject == "" then ""
    else
      StripIsStripped(Lower(subject));
      StripKeepsLowered(Lower(subject));
      StripPass(Strip(Lower(subject)), NormalizePrefixes)
  }

  /** `_count_subject_prefixes` */
  function CountSubjectPrefixes(subject: string): (n: nat)
    ensures n <= 4
    ensures subject == "" ==> n == 0
  {
    if subject == "" then 0 else CountPass(Strip(Lower(subject)), CountedPrefixes)
  }

  lemma {:induction false} StripPassAppend(s: string, p: seq<string>, q: seq<string>)
    ensures StripPass(s, p + q) == StripPass(StripPass(s, p), q)
    decreases |p|
  {
    if p != [] {
      assert (p + q)[1..] == p[1..] + q;
      StripPassAppend(StripStep(s, p[0]), p[1..], q);
    } else {
      assert p + q == q;
    }
  }

  /** Every prefix counted takes at least three characters off. */
  lemma {:induction false} CountedStripsShrink(s: string, prefixes: seq<string>)
    requires forall i :: 0 <= i < |prefixes| ==> |prefixes[i]| >= 3
    ensures |StripPass(s, prefixes)| + 3 * CountPass(s, prefixes) <= |s|
    decreases |prefixes|
  {
    if prefixes != [] {
      CountedStripsShrink(StripStep(s, prefixes[0]), prefixes[1..]);
    }
  }

  /** The count pass and the normalisation pass agree on the first four
      prefixes, so the normalised subject is at least three characters
      shorter per counted prefix. */
  lemma NormalizeShrinksByCount(subject: string)
    ensures |NormalizeSubject(subject)| + 3 * CountSubjectPrefixes(subject) <= |Strip(Lower(subject))|
  {
    if subject != "" {
      var base := Strip(Lower(subject));
      PrefixListsAgree();
      StripPassAppend(base, CountedPrefixes, ["fwd:", "fwd:"]);
      CountedStripsShrink(base, CountedPrefixes);
    }
  }

  /** The normalisation list is the counted list and two more "fwd:"; every
      counted prefix is at least three characters long. */
  lemma PrefixListsAgree()
    ensures NormalizePrefixes == CountedPrefixes + ["fwd:", "fwd:"]
    ensures forall i :: 0 <= i < |CountedPrefixes| ==> |CountedPrefixes[i]| >= 3
  {
  }

  predicate StartsWithCounted(s: string) {
    StartsWith(s, "re:") || StartsWith(s, "fw:") || StartsWith(s, "fwd:") || StartsWith(s, "aw:")
  }

  /** A pass over prefixes none of which the string starts with strips
      nothing. */
  lemma {:induction false} CountPassNone(s: string, prefixes: seq<string>)
    requires forall j :: 0 <= j < |prefixes| ==> !StartsWith(s, prefixes[j])
    ensures CountPass(s, prefixes) == 0
    decreases |prefixes|
  {
    if prefixes != [] {
      CountPassNone(s, prefixes[1..]);
    }
  }

  /** When the string starts with prefix `i` and with none before it, the
      pass strips at least that one. */
  lemma {:induction false} CountPassFirst(s: string, prefixes: seq<string>, i: nat)
    requires i < |prefixes| && StartsWith(s, prefixes[i])
    requires forall j :: 0 <= j < i ==> !StartsWith(s, prefixes[j])
    ensures CountPass(s, prefixes) >= 1
    decreases i
  {
    if i > 0 {
      CountPassFirst(s, prefixes[1..], i - 1);
    }
  }

  lemma CountedPassPositive(base: string)
    ensures CountPass(base, CountedPrefixes) > 0 <==> StartsWithCounted(base)
  {
    if !StartsWithCounted(base) {
      CountPassNone(base, CountedPrefixes);
    } else if StartsWith(base, "re:") {
      CountPassFirst(base, CountedPrefixes, 0);
    } else if StartsWith(base, "fw:") {
      CountPassFirst(base, CountedPrefixes, 1);
    } else if StartsWith(base, "fwd:") {
      CountPassFirst(base, CountedPrefixes, 2);
    } else {
      CountPassFirst(base, CountedPrefixes, 3);
    }
  }

  /** At least one prefix is counted exactly when the trimmed, lower-cased
      subject starts with one of "re:", "fw:", "fwd:", "aw:". */
  lemma CountPositiveIff(subject: string)
    ensures CountSubjectPrefixes(subject) > 0 <==> subject != "" && StartsWithCounted(Strip(Lower(subject)))
  {
    if subject != "" {
      CountedPassPositive(Strip(Lower(subject)));
    }
  }

  lemma StripOfStripped(s: string)
    requires IsStripped(s)
    ensures Strip(s) == s
  {
    var r := Strip(s);
    var a: nat, b: nat :| TrimmedAt(s, r, a, b, IsSpace);
    if s != [] {
      assert a == 0 && b == |s|;
    }
  }

  lemma StripOfOneLeadingSpace(s: string)
    requires |s| >= 1 && s[0] == ' ' && IsStripped(s[1..])
    ensures Strip(s) == s[1..]
  {
    var r := Strip(s);
    var a: nat, b: nat :| TrimmedAt(s, r, a, b, IsSpace);
    if |s| > 1 {
      assert s[1..][0] == s[1] && s[1..][|s| - 2] == s[|s| - 1];
      assert a == 1 && b == |s|;
    } else {
      assert r == [];
    }
  }

  /** A pass over prefixes none of which the string starts with leaves it
      as it is. */
  lemma {:induction false} StripPassNone(s: string, prefixes: seq<string>)
    requires forall j :: 0 <= j < |prefixes| ==> !StartsWith(s, prefixes[j])
    ensures StripPass(s, prefixes) == s
    decreases |prefixes|
  {
    if prefixes != [] {
      StripPassNone(s, prefixes[1..]);
    }
  }

  /** `r` is what remains of `s` after some leading characters are removed. */
  predicate IsSuffixOf(r: string, s: string) {
    |r| <= |s| && s[|s| - |r|..] == r
  }

  lemma SuffixTransitive(r: string, t: string, s: string)
    requires IsSuffixOf(r, t) && IsSuffixOf(t, s)
    ensures IsSuffixOf(r, s)
  {
    assert s[|s| - |r|..] == s[|s| - |t|..][|t| - |r|..];
  }

  /** Trimming a string that does not end in whitespace removes only
      leading characters. */
  lemma StripOfTrailingNonSpace(t: string)
    requires t == [] || !IsSpace(t[|t| - 1])
    ensures IsSuffixOf(Strip(t), t)
  {
    var a := SkipWhile(t, 0, IsSpace);
    assert SkipBackWhile(t, a, |t|, IsSpace) == |t|;
    assert Strip(t) == t[a..|t|];
  }

  /** On a trimmed string, a step removes only leading characters: the
      prefix, then the whitespace behind it. */
  lemma StripStepSuffix(s: string, p: string)
    requires IsStripped(s)
    ensures IsSuffixOf(StripStep(s, p), s)
  {
    if StartsWith(s, p) {
      var t := s[|p|..];
      if t != [] {
        assert t[|t| - 1] == s[|s| - 1];
      }
      StripOfTrailingNonSpace(t);
      SuffixTransitive(Strip(t), t, s);
    }
  }

  lemma {:induction false} StripPassSuffix(s: string, prefixes: seq<string>)
    requires IsStripped(s)
    ensures IsSuffixOf(StripPass(s, prefixes), s)
    decreases |prefixes|
  {
    if prefixes != [] {
      var t := StripStep(s, prefixes[0]);
      StripStepSuffix(s, prefixes[0]);
      StripPassSuffix(t, prefixes[1..]);
      SuffixTransitive(StripPass(t, prefixes[1..]), t, s);
    }
  }

  /** Normalising only removes leading prefixes and the whitespace after
      them: the result is a suffix of the trimmed, lower-cased subject. */
  lemma NormalizeIsSuffix(subject: string)
    ensures IsSuffixOf(NormalizeSubject(subject), Strip(Lower(subject)))
  {
    if subject != "" {
      StripIsStripped(Lower(subject));
      StripPassSuffix(Strip(Lower(subject)), NormalizePrefixes);
    }
  }

  lemma EmptySubjectBase()
    ensures Strip(Lower("")) == ""
  {
  }

  /** Normalising changes the trimmed, lower-cased subject exactly when it
      starts with one of "re:", "fw:", "fwd:", "aw:". */
  lemma NormalizeUnchangedIff(subject: string)
    ensures NormalizeSubject(subject) == Strip(Lower(subject)) <==> !StartsWithCounted(Strip(Lower(subject)))
  {
    var base := Strip(Lower(subject));
    EmptySubjectBase();
    if !StartsWithCounted(base) {
      if subject != "" {
        StripPassNone(base, NormalizePrefixes);
      }
    } else {
      CountPositiveIff(subject);
      NormalizeShrinksByCount(subject);
    }
  }

  /** When `s` starts with entry `k` of the list and with no entry before
      it, and what is left starts with no entry after it, the pass strips
      entry `k` alone. */
  lemma {:induction false} StripPassFirstMatch(s: string, prefixes: seq<string>, k: nat)
    requires k < |prefixes| && StartsWith(s, prefixes[k])
    requires forall j :: 0 <= j < k ==> !StartsWith(s, prefixes[j])
    requires forall j :: k < j < |prefixes| ==> !StartsWith(StripStep(s, prefixes[k]), prefixes[j])
    ensures StripPass(s, prefixes) == StripStep(s, prefixes[k])
    decreases k
  {
    if k == 0 {
      StripPassNone(StripStep(s, prefixes[0]), prefixes[1..]);
    } else {
      StripPassFirstMatch(s, prefixes[1..], k - 1);
    }
  }

  /** The subject whose trimmed, lower-cased form starts with entry `k` of
      the normalisation list (and with none before it) loses that prefix
      and the whitespace after it, provided no later entry then matches. */
  lemma NormalizeStripsFirstMatch(subject: string, k: nat)
    requires k < |NormalizePrefixes|
    requires StartsWith(Strip(Lower(subject)), NormalizePrefixes[k])
    requires forall j :: 0 <= j < k ==> !StartsWith(Strip(Lower(subject)), NormalizePrefixes[j])
    requires forall j :: k < j < |NormalizePrefixes| ==>
      !StartsWith(Strip(Strip(Lower(subject))[|NormalizePrefixes[k]|..]), NormalizePrefixes[j])
    ensures NormalizeSubject(subject) == Strip(Strip(Lower(subject))[|NormalizePrefixes[k]|..])
  {
    EmptySubjectBase();
    StripPassFirstMatch(Strip(Lower(subject)), NormalizePrefixes, k);
  }

  lemma LowerExamples()
    ensures Lower("Re: Re: x") == "re: re: x"
    ensures Lower("Fwd: Re: x") == "fwd: re: x"
    ensures Lower("Fw: hello") == "fw: hello"
  {
  }

  /** Strip the prefix `p` from a stripped string `p + " " + rest`. */
  lemma StripStepExample(p: string, rest: string)
    requires IsStripped(rest) && rest != []
    ensures StripStep(p + " " + rest, p) == rest
  {
    var s := p + " " + rest;
    assert s[..|p|] == p;
    assert s[|p|..] == " " + rest;
    StripOfOneLeadingSpace(" " + rest);
    assert (" " + rest)[1..] == rest;
  }

  lemma DiffersAt(s: string, p: string, i: nat)
    requires i < |p| && i < |s| && s[i] != p[i]
    ensures !StartsWith(s, p)
  {
    if |p| <= |s| {
      assert s[..|p|][i] == s[i];
    }
  }

  /** "re: x" starts with none of the prefixes after "re:". */
  lemma ReTailUntouched()
    ensures StripPass("re: x", NormalizePrefixes[1..]) == "re: x"
    ensures StripPass("re: x", NormalizePrefixes[3..]) == "re: x"
    ensures CountPass("re: x", CountedPrefixes[1..]) == 0
  {
    var t := "re: x";
    DiffersAt(t, "fw:", 0);
    DiffersAt(t, "fwd:", 0);
    DiffersAt(t, "aw:", 0);
    StripPassNone(t, NormalizePrefixes[1..]);
    StripPassNone(t, NormalizePrefixes[3..]);
    CountPassNone(t, CountedPrefixes[1..]);
  }

  /** A doubled "Re:" keeps its second copy: one pass strips each prefix of
      the list at most once. */
  lemma DoubledReKeepsOne()
    ensures NormalizeSubject("Re: Re: x") == "re: x"
    ensures CountSubjectPrefixes("Re: Re: x") == 1
  {
    LowerExamples();
    var t, l := "re: x", "re: re: x";
    assert IsStripped(l) && IsStripped(t);
    StripOfStripped(l);
    assert l == "re:" + " " + t;
    StripStepExample("re:", t);
    ReTailUntouched();
    assert NormalizePrefixes[0] == "re:" && CountedPrefixes[0] == "re:";
    calc {
      NormalizeSubject("Re: Re: x");
      StripPass(l, NormalizePrefixes);
      StripPass(StripStep(l, "re:"), NormalizePrefixes[1..]);
      t;
    }
    calc {
      CountSubjectPrefixes("Re: Re: x");
      CountPass(l, CountedPrefixes);
      1 + CountPass(StripStep(l, "re:"), CountedPrefixes[1..]);
      1;
    }
  }

  /** A prefix the subject does not start with leaves the pass unchanged. */
  lemma StripPassSkip(s: string, prefixes: seq<string>)
    requires prefixes != [] && !StartsWith(s, prefixes[0])
    ensures StripPass(s, prefixes) == StripPass(s, prefixes[1..])
  {
  }

  /** "fwd: re: x" passes "re:" and "fw:" untouched. */
  lemma FwdPassesFirstTwo()
    ensures StripPass("fwd: re: x", NormalizePrefixes) == StripPass("fwd: re: x", NormalizePrefixes[2..])
  {
    var f := "fwd: re: x";
    DiffersAt(f, "re:", 0);
    DiffersAt(f, "fw:", 2);
    assert NormalizePrefixes[0] == "re:" && NormalizePrefixes[1..][0] == "fw:";
    StripPassSkip(f, NormalizePrefixes);
    StripPassSkip(f, NormalizePrefixes[1..]);
    assert NormalizePrefixes[1..][1..] == NormalizePrefixes[2..];
  }

  /** A "Re:" after "Fwd:" is not reached again by the same pass. */
  lemma ReAfterFwdKept()
    ensures NormalizeSubject("Fwd: Re: x") == "re: x"
  {
    LowerExamples();
    var t, f := "re: x", "fwd: re: x";
    assert IsStripped(f) && IsStripped(t);
    StripOfStripped(f);
    assert f == "fwd:" + " " + t;
    StripStepExample("fwd:", t);
    ReTailUntouched();
    FwdPassesFirstTwo();
    assert NormalizePrefixes[2..][0] == "fwd:";
    assert NormalizePrefixes[2..][1..] == NormalizePrefixes[3..];
    calc {
      NormalizeSubject("Fwd: Re: x");
      StripPass(f, NormalizePrefixes);
      StripPass(f, NormalizePrefixes[2..]);
      StripPass(StripStep(f, "fwd:"), NormalizePrefixes[3..]);
      t;
    }
  }

  /** Forward detection looks at the subject as received: "Fw: hello" is a
      forward although its normalised subject no longer carries the prefix. */
  lemma ForwardUsesRawSubject()
    ensures DetectForward("Fw: hello")
    ensures NormalizeSubject("Fw: hello") == "hello"
  {
    LowerExamples();
    var l := "fw: hello";
    assert IsStripped(l);
    StripOfStripped(l);
    assert l[..3] == "fw:";
    FwHelloPass();
  }

  /** One pass over "fw: hello" strips only "fw:". */
  lemma FwHelloPass()
    ensures StripPass("fw: hello", NormalizePrefixes) == "hello"
  {
    FwHelloSkipsRe();
    FwHelloStripsFw();
    HelloUntouched();
  }

  lemma FwHelloSkipsRe()
    ensures StripPass("fw: hello", NormalizePrefixes) == StripPass("fw: hello", NormalizePrefixes[1..])
  {
    DiffersAt("fw: hello", "re:", 0);
    assert NormalizePrefixes[0] == "re:";
    StripPassSkip("fw: hello", NormalizePrefixes);
  }

  lemma FwHelloStripsFw()
    ensures StripPass("fw: hello", NormalizePrefixes[1..]) == StripPass("hello", NormalizePrefixes[2..])
  {
    var t, l := "hello", "fw: hello";
    assert IsStripped(t);
    assert l == "fw:" + " " + t;
    StripStepExample("fw:", t);
    assert NormalizePrefixes[1..][0] == "fw:";
    assert NormalizePrefixes[1..][1..] == NormalizePrefixes[2..];
  }

  /** "hello" starts with none of the prefixes after "fw:". */
  lemma HelloUntouched()
    ensures StripPass("hello", NormalizePrefixes[2..]) == "hello"
  {
    var t, tail := "hello", NormalizePrefixes[2..];
    DiffersAt(t, "fwd:", 0);
    DiffersAt(t, "aw:", 0);
    assert forall j :: 0 <= j < |tail| ==> tail[j] == "fwd:" || tail[j] == "aw:";
    StripPassNone(t, tail);
  }

  /** `_is_thread_continuation`: the trimmed, lower-cased subject starts with
      "re:" or "aw:". */
  function IsThreadContinuation(subject: string): (b: bool)
    ensures b ==> CountSubjectPrefixes(subject) >= 1
    ensures b ==> NormalizeSubject(subject) != Strip(Lower(subject))
  {
    CountPositiveIff(subject);
    NormalizeUnchangedIff(subject);
    subject != "" && (StartsWith(Strip(Lower(subject)), "re:") || StartsWith(Strip(Lower(subject)), "aw:"))
  }

  /** `_detect_forward`: looks at the trimmed, lower-cased subject as
      received, not at the normalised one. */
  function DetectForward(subject: string): (b: bool)
    ensures b ==> CountSubjectPrefixes(subject) >= 1
    ensures b ==> NormalizeSubject(subject) != Strip(Lower(subject))
  {
    CountPositiveIff(subject);
    NormalizeUnchangedIff(subject);
    subject != "" && (StartsWith(Strip(Lower(subject)), "fw:") || StartsWith(Strip(Lower(subject)), "fwd:"))
  }

  /** No subject is both a reply continuation and a forward: the trimmed
      subject starts with 'r' or 'a' for the one and with 'f' for the
      other. */
  lemma ContinuationIsNotForward(subject: string)
    ensures !(IsThreadContinuation(subject) && DetectForward(subject))
  {
    var base := Strip(Lower(subject));
    if StartsWith(base, "re:") { StartsWithHead(base, "re:"); }
    if StartsWith(base, "aw:") { StartsWithHead(base, "aw:"); }
    if StartsWith(base, "fw:") { StartsWithHead(base, "fw:"); }
    if StartsWith(base, "fwd:") { StartsWithHead(base, "fwd:"); }
  }

  /** `_analyze_subject_thread`. The three `has_*_prefix` flags test the
      lower-cased subject without trimming it. */
  function AnalyzeSubject(subject: string): (st: SubjectThread)
    ensures st.original == subject
    ensures st.prefixCount <= 4
    ensures st.hasRePrefix ==> st.prefixCount >= 1
    ensures st.isThreadContinuation ==> st.prefixCount >= 1
    ensures |st.normalized| + 3 * st.prefixCount <= |subject|
    ensures st.normalized == NormalizeSubject(subject)
    ensures st.prefixCount == CountSubjectPrefixes(subject)
    ensures st.isThreadContinuation <==> IsThreadContinuation(subject)
    ensures st.hasRePrefix <==> StartsWith(Lower(subject), "re:")
    ensures st.hasFwPrefix <==> StartsWith(Lower(subject), "fw:") || StartsWith(Lower(subject), "fwd:")
    ensures st.hasAwPrefix <==> StartsWith(Lower(subject), "aw:")
  {
    NormalizeShrinksByCount(subject);
    CountPositiveIff(subject);
    LeadingRePrefixSurvivesStrip(subject);
    SubjectThread(
      subject,
      NormalizeSubject(subject),
      StartsWith(Lower(subject), "re:"),
      StartsWith(Lower(subject), "fw:") || StartsWith(Lower(subject), "fwd:"),
      StartsWith(Lower(subject), "aw:"),
      CountSubjectPrefixes(subject),
      IsThreadContinuation(subject))
  }

  /** A subject that starts with "re:" keeps that prefix after trimming. */
  lemma LeadingRePrefixSurvivesStrip(subject: string)
    ensures StartsWith(Lower(subject), "re:") ==> subject != "" && StartsWith(Strip(Lower(subject)), "re:")
  {
    if StartsWith(Lower(subject), "re:") {
      PrefixSurvivesStrip(Lower(subject), "re:");
    }
  }

  /** Trimming keeps a leading prefix that neither starts nor ends with
      whitespace. */
  lemma PrefixSurvivesStrip(l: string, p: string)
    requires p != [] && !IsSpace(p[0]) && !IsSpace(p[|p| - 1])
    requires StartsWith(l, p)
    ensures StartsWith(Strip(l), p)
  {
    assert l[0] == p[0] && l[|p| - 1] == p[|p| - 1] by {
      assert l[..|p|][0] == l[0] && l[..|p|][|p| - 1] == l[|p| - 1];
    }
    SkipWhileStopsAt(l, 0, IsSpace, 0);
    var b := SkipBackWhile(l, 0, |l|, IsSpace);
    assert |p| <= b;
    assert Strip(l) == l[0..b];
    assert Strip(l)[..|p|] == l[..|p|];
  }

  /** The flags `_analyze_subject_thread` reports agree with the detectors:
      a forward prefix is a detected forward, and a "re:" or "aw:" prefix a
      continuation. */
  lemma PrefixFlagsAgreeWithDetectors(subject: string)
    ensures AnalyzeSubject(subject).hasFwPrefix ==> DetectForward(subject)
    ensures AnalyzeSubject(subject).hasRePrefix || AnalyzeSubject(subject).hasAwPrefix ==> IsThreadContinuation(subject)
  {
    var l := Lower(subject);
    if StartsWith(l, "re:") { PrefixSurvivesStrip(l, "re:"); }
    if StartsWith(l, "aw:") { PrefixSurvivesStrip(l, "aw:"); }
    if StartsWith(l, "fw:") { PrefixSurvivesStrip(l, "fw:"); }
    if StartsWith(l, "fwd:") { PrefixSurvivesStrip(l, "fwd:"); }
  }

  // ------------------------------------------------------ depth and roles

  /** `_calculate_thread_depth` */
  function ThreadDepth(m: Metadata): (d: nat)
    ensures d <= 15
    ensures d == |ReferenceList(m)| || (d == 15 && |ReferenceList(m)| > 15)
  {
    if |ReferenceList(m)| < 15 then |ReferenceList(m)| else 15
  }

  /** `_is_root_message` */
  function IsRootMessage(m: Metadata): (b: bool)
    ensures b ==> ThreadDepth(m) == 0
  {
    !Truthy(m.inReplyTo) && ReferenceList(m) == []
  }

  // ---------------------------------------------------------- participants

  /** The addresses of one header field, none when it is absent or empty. */
  function FieldAddresses(field: Option<string>): (r: set<string>)
    ensures forall a :: a in r ==> IsAddress(a)
  {
    if Truthy(field) then ExtractAddresses(field.value) else {}
  }

  /** `_extract_thread_participants`: the addresses of From, To, Cc and Bcc. */
  function Participants(h: CommonHeaders): (r: set<string>)
    ensures forall a :: a in r ==> IsAddress(a)
    ensures FieldAddresses(h.fromField) <= r && FieldAddresses(h.toField) <= r
    ensures FieldAddresses(h.ccField) <= r && FieldAddresses(h.bccField) <= r
    ensures forall a :: a in r ==>
      a in FieldAddresses(h.fromField) || a in FieldAddresses(h.toField)
      || a in FieldAddresses(h.ccField) || a in FieldAddresses(h.bccField)
  {
    FieldAddresses(h.fromField) + FieldAddresses(h.toField) + FieldAddresses(h.ccField) + FieldAddresses(h.bccField)
  }

  /** The recipient count: distinct addresses per field, summed over To, Cc
      and Bcc. */
  function RecipientCount(h: CommonHeaders): (n: nat)
    ensures n == 0 <==> FieldAddresses(h.toField) + FieldAddresses(h.ccField) + FieldAddresses(h.bccField) == {}
    ensures n >= |FieldAddresses(h.toField)| && n >= |FieldAddresses(h.ccField)| && n >= |FieldAddresses(h.bccField)|
  {
    |FieldAddresses(h.toField)| + |FieldAddresses(h.ccField)| + |FieldAddresses(h.bccField)|
  }

  lemma UnionCardinality<T>(a: set<T>, b: set<T>)
    ensures |a + b| <= |a| + |b|
    ensures a !! b ==> |a + b| == |a| + |b|
  {
    assert |a + b| + |a * b| == |a| + |b|;
  }

  /** An address given in several recipient fields counts once per field, so
      the count is at least the number of distinct recipients, and equal to
      it when the fields share no address. */
  lemma RecipientCountBounds(h: CommonHeaders)
    ensures var to, cc, bcc := FieldAddresses(h.toField), FieldAddresses(h.ccField), FieldAddresses(h.bccField);
      && RecipientCount(h) >= |to + cc + bcc|
      && (to !! cc && (to + cc) !! bcc ==> RecipientCount(h) == |to + cc + bcc|)
  {
    var to, cc, bcc := FieldAddresses(h.toField), FieldAddresses(h.ccField), FieldAddresses(h.bccField);
    UnionCardinality(to, cc);
    UnionCardinality(to + cc, bcc);
  }

  /** One address in both To and Cc: two recipients, one participant. */
  lemma DuplicateRecipientCountsTwice()
    ensures var h := CommonHeaders(None, Some("a@b.co"), Some("a@b.co"), None, None, None);
      RecipientCount(h) == 2 && |Participants(h)| == 1
  {
    BareAddressExample();
    var h := CommonHeaders(None, Some("a@b.co"), Some("a@b.co"), None, None, None);
    assert FieldAddresses(h.toField) == {"a@b.co"};
    assert Participants(h) == {"a@b.co"};
  }

  // ------------------------------------------------------------ engagement

  /** `len(text) + len(html)` exactly as the source computes it: a message
      without a text or without an HTML part has None there, and `len(None)`
      raises (None here). */
  function ContentLengthAsWritten(b: Body): (r: Option<nat>)
    ensures r.Some? <==> b.text.Some? && b.html.Some?
  {
    if b.text.None? || b.html.None? then None else Some(|b.text.value| + |b.html.value|)
  }

  /** A plain-text message (no HTML part) makes the as-written computation
      raise, and with it the whole parse of the message. */
  lemma TextOnlyBodyFailsAsWritten()
    ensures ContentLengthAsWritten(Body(Some("hello"), None, "text/plain", Some("utf-8"))) == None
  {
  }

  /** The content length with a missing part counted as empty, as the
      `get(..., "")` defaults intend: defined for every body and equal to the
      as-written value wherever that one is defined. */
  function ContentLength(b: Body): (n: nat)
    ensures ContentLengthAsWritten(b).Some? ==> ContentLengthAsWritten(b).value == n
    ensures b.text.Some? ==> n >= |b.text.value|
    ensures b.html.Some? ==> n >= |b.html.value|
    ensures b.html.None? ==> n == |b.text.GetOr("")|
    ensures b.text.None? ==> n == |b.html.GetOr("")|
  {
    |b.text.GetOr("")| + |b.html.GetOr("")|
  }

  /** The text-only body on which the code as written fails has the length
      of its text. */
  lemma TextOnlyBodyLength()
    ensures ContentLength(Body(Some("hello"), None, "text/plain", Some("utf-8"))) == 5
  {
  }

  /** Points for content length. */
  function ContentBand(length: nat): (p: nat)
    ensures 10 <= p <= 40
    ensures p == 40 <==> length > 1000
    ensures p == 30 <==> 500 < length <= 1000
    ensures p == 20 <==> 100 < length <= 500
    ensures p == 10 <==> length <= 100
  {
    if length > 1000 then 40 else if length > 500 then 30 else if length > 100 then 20 else 10
  }

  /** Points for the number of recipients. */
  function RecipientBand(count: nat): (p: nat)
    ensures 10 <= p <= 30
    ensures p == 30 <==> count > 10
    ensures p == 20 <==> 5 < count <= 10
    ensures p == 15 <==> 1 < count <= 5
    ensures p == 10 <==> count <= 1
  {
    if count > 10 then 30 else if count > 5 then 20 else if count > 1 then 15 else 10
  }

  function Min(a: int, b: int): int {
    if a <= b then a else b
  }

  /** `_calculate_simple_engagement_score`: the three bands summed and capped
      at 100; the cap never applies, since the bands add up to at most 100. */
  function EngagementScore(contentLength: nat, recipientCount: nat, hasAttachments: bool): (s: nat)
    ensures 20 <= s <= 100
    ensures s == ContentBand(contentLength) + RecipientBand(recipientCount) + (if hasAttachments then 30 else 0)
  {
    Min(ContentBand(contentLength) + RecipientBand(recipientCount) + (if hasAttachments then 30 else 0), 100)
  }

  /** More content, more recipients or an attachment never lower the score. */
  lemma EngagementScoreMonotone(l1: nat, r1: nat, a1: bool, l2: nat, r2: nat, a2: bool)
    requires l1 <= l2 && r1 <= r2 && (a1 ==> a2)
    ensures EngagementScore(l1, r1, a1) <= EngagementScore(l2, r2, a2)
  {
  }

  lemma EngagementScoreExample()
    ensures EngagementScore(1500, 3, true) == 85
  {
  }

  /** `_calculate_engagement_indicators` */
  function Indicators(r: EmailRecord): (e: EngagementIndicators)
    ensures 20 <= e.engagementScore <= 100
    ensures e.hasAttachments <==> r.attachments != []
    ensures e.hasHtml <==> Truthy(r.body.html)
    ensures e.hasText <==> Truthy(r.body.text)
    ensures e.engagementScore == EngagementScore(e.contentLength, e.recipientCount, e.hasAttachments)
    ensures e.contentLength == ContentLength(r.body)
    ensures e.recipientCount == RecipientCount(r.headers)
  {
    var length := ContentLength(r.body);
    var recipients := RecipientCount(r.headers);
    var attached := r.attachments != [];
    EngagementIndicators(length, recipients, attached, Truthy(r.body.html), Truthy(r.body.text),
                         EngagementScore(length, recipients, attached))
  }

  // -------------------------------------------------------------- analysis

  /** `analyze_thread` */
  function Analyze(r: EmailRecord): (a: Analysis)
    ensures |a.threadId| == 19 && a.threadId[..7] == "thread_"
    ensures a.isReply <==> Truthy(r.metadata.inReplyTo)
    ensures a.isRoot <==> !Truthy(r.metadata.inReplyTo) && ReferenceList(r.metadata) == []
    ensures a.isRoot ==> a.threadDepth == 0 && !a.isReply
    ensures a.threadDepth <= 15
    ensures a.references == ReferenceList(r.metadata)
    ensures a.messageId == r.metadata.messageId
    ensures forall p :: p in a.participants ==> IsAddress(p)
    ensures 20 <= a.engagement.engagementScore <= 100
    ensures a.isForward <==> DetectForward(SubjectOf(r))
    ensures a.subjectThread.isThreadContinuation <==> IsThreadContinuation(SubjectOf(r))
    ensures a.isForward ==> !a.subjectThread.isThreadContinuation
    ensures a.threadId == ThreadIdOf(r)
    ensures a.threadDepth == ThreadDepth(r.metadata)
    ensures a.participants == Participants(r.headers)
    ensures a.subjectThread.normalized == NormalizeSubject(SubjectOf(r))
    ensures a.subjectThread.prefixCount == CountSubjectPrefixes(SubjectOf(r))
  {
    ContinuationIsNotForward(SubjectOf(r));
    Analysis(
      ThreadIdOf(r),
      r.metadata.messageId,
      r.metadata.inReplyTo,
      ReferenceList(r.metadata),
      AnalyzeSubject(SubjectOf(r)),
      ThreadDepth(r.metadata),
      Truthy(r.metadata.inReplyTo),
      DetectForward(SubjectOf(r)),
      IsRootMessage(r.metadata),
      Participants(r.headers),
      Indicators(r))
  }

  /** The engagement indicators of a classification are those of its
      record: the content length, the recipient count and the score. */
  lemma AnalyzeEngagement(r: EmailRecord)
    ensures Analyze(r).engagement == Indicators(r)
    ensures Analyze(r).engagement.contentLength == ContentLength(r.body)
    ensures Analyze(r).engagement.recipientCount == RecipientCount(r.headers)
  {
  }

  /** The subject analysis of a classification is that of the record's
      subject, and its In-Reply-To is the record's. */
  lemma AnalyzeSubjectOf(r: EmailRecord)
    ensures Analyze(r).subjectThread == AnalyzeSubject(SubjectOf(r))
    ensures Analyze(r).subjectThread.original == SubjectOf(r)
    ensures Analyze(r).inReplyTo == r.metadata.inReplyTo
  {
  }

  /** The classification does not read the keys the pipeline attaches, so
      classifying a record again after attaching them gives the same result. */
  lemma AnalyzeIgnoresAttachedKeys(r: EmailRecord, a: Option<Analysis>, id: Option<string>)
    ensures Analyze(r.(analysis := a, threadId := id)) == Analyze(r)
  {
  }
}
