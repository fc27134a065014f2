/** The chronological view of one thread (`ThreadManager.get_thread_timeline`
    and `_calculate_response_time`): the entries stably sorted by the
    message's Date timestamp, each with its position and the gap to the
    message before it. */
module Timeline {
  import opened Wrappers
  import opened EmailModel
  import opened Durations

  // ------------------------------------------------------------ sort keys

  /** `metadata.get("date_timestamp", 0)`: 0 when the message has no Date
      header. A Date that did not parse stores None, which Python cannot
      compare with a number; such entries are kept out of sorts of two or
      more entries by `Sortable`, and the 0 here is never compared. */
  function Key(e: ThreadEntry): int {
    match e.email.metadata.date
    case NoDate => 0
    case Unparsed => 0
    case Dated(_, ts) => ts
  }

  /** The inputs on which `sorted` does not raise: with two or more entries,
      every key is compared, so none may be None. */
  predicate Sortable(es: seq<ThreadEntry>) {
    |es| <= 1 || forall i :: 0 <= i < |es| ==> !es[i].email.metadata.date.Unparsed?
  }

  predicate SortedByDate(s: seq<ThreadEntry>) {
    forall i, j :: 0 <= i < j < |s| ==> Key(s[i]) <= Key(s[j])
  }

  /** `x` placed after every entry whose key is not larger than its own. */
  function InsertByDate(x: ThreadEntry, s: seq<ThreadEntry>): (r: seq<ThreadEntry>)
    ensures |r| == |s| + 1
    ensures forall y :: y in r ==> y in s || y == x
    decreases |s|
  {
    if s == [] then [x]
    else if Key(s[|s| - 1]) <= Key(x) then s + [x]
    else
      var init, last := s[..|s| - 1], s[|s| - 1];
      assert s == init + [last];
      InsertByDate(x, init) + [last]
  }

  /** Inserting adds `x` and loses nothing. */
  lemma {:induction false} InsertByDatePermutes(x: ThreadEntry, s: seq<ThreadEntry>)
    ensures multiset(InsertByDate(x, s)) == multiset(s) + multiset{x}
    decreases |s|
  {
    if s != [] && Key(x) < Key(s[|s| - 1]) {
      var init, last := s[..|s| - 1], s[|s| - 1];
      InsertByDatePermutes(x, init);
      assert s == init + [last];
    }
  }

  lemma {:induction false} InsertByDateSorted(x: ThreadEntry, s: seq<ThreadEntry>)
    requires SortedByDate(s)
    ensures SortedByDate(InsertByDate(x, s))
    decreases |s|
  {
    if s != [] && Key(x) < Key(s[|s| - 1]) {
      var init, last := s[..|s| - 1], s[|s| - 1];
      InsertByDateSorted(x, init);
      var r := InsertByDate(x, init);
      assert forall y :: y in r ==> Key(y) <= Key(last) by {
        forall y | y in r ensures Key(y) <= Key(last) {
          if y in init {
            var i :| 0 <= i < |init| && init[i] == y;
            assert s[i] == y;
          }
        }
      }
      assert forall i :: 0 <= i < |r| ==> Key(r[i]) <= Key(last);
    }
  }

  /** `sorted(entries, key=...)`: a stable sort by date timestamp. */
  function SortByDate(es: seq<ThreadEntry>): (r: seq<ThreadEntry>)
    ensures |r| == |es|
    ensures multiset(r) == multiset(es)
    ensures SortedByDate(r)
    decreases |es|
  {
    if es == [] then []
    else
      assert es == es[..|es| - 1] + [es[|es| - 1]];
      InsertByDatePermutes(es[|es| - 1], SortByDate(es[..|es| - 1]));
      InsertByDateSorted(es[|es| - 1], SortByDate(es[..|es| - 1]));
      InsertByDate(es[|es| - 1], SortByDate(es[..|es| - 1]))
  }

  /** The entries with date key `k`, in their order. */
  function WithKey(s: seq<ThreadEntry>, k: int): seq<ThreadEntry> {
    if s == [] then []
    else WithKey(s[..|s| - 1], k) + (if Key(s[|s| - 1]) == k then [s[|s| - 1]] else [])
  }

  lemma {:induction false} WithKeyAppend(a: seq<ThreadEntry>, b: seq<ThreadEntry>, k: int)
    ensures WithKey(a + b, k) == WithKey(a, k) + WithKey(b, k)
    decreases |b|
  {
    if b == [] {
      assert a + b == a;
    } else {
      assert (a + b)[..|a + b| - 1] == a + b[..|b| - 1];
      WithKeyAppend(a, b[..|b| - 1], k);
    }
  }

  /** Inserting `x` puts it after every entry with the same key. */
  lemma {:induction false} InsertByDateStable(x: ThreadEntry, s: seq<ThreadEntry>, k: int)
    ensures WithKey(InsertByDate(x, s), k) == WithKey(s, k) + (if Key(x) == k then [x] else [])
    decreases |s|
  {
    if s == [] {
    } else if Key(s[|s| - 1]) <= Key(x) {
      WithKeyAppend(s, [x], k);
    } else {
      var init, last := s[..|s| - 1], s[|s| - 1];
      InsertByDateStable(x, init, k);
      WithKeyAppend(InsertByDate(x, init), [last], k);
    }
  }

  /** The sort is stable: entries with equal timestamps keep their order of
      arrival. */
  lemma {:induction false} SortByDateStable(es: seq<ThreadEntry>, k: int)
    ensures WithKey(SortByDate(es), k) == WithKey(es, k)
    decreases |es|
  {
    if es != [] {
      var init, last := es[..|es| - 1], es[|es| - 1];
      SortByDateStable(init, k);
      InsertByDateStable(last, SortByDate(init), k);
    }
  }

  /** One step of the sort: the last entry inserted into the sorted rest. */
  lemma SortByDateStep(es: seq<ThreadEntry>)
    requires es != []
    ensures SortByDate(es) == InsertByDate(es[|es| - 1], SortByDate(es[..|es| - 1]))
  {
  }

  /** An entry not older than the last one goes at the end. */
  lemma InsertByDateAtEnd(x: ThreadEntry, s: seq<ThreadEntry>)
    requires s == [] || Key(s[|s| - 1]) <= Key(x)
    ensures InsertByDate(x, s) == s + [x]
  {
  }

  /** Entries already in date order are left as they are. */
  lemma {:induction false} SortByDateOfSorted(es: seq<ThreadEntry>)
    requires SortedByDate(es)
    ensures SortByDate(es) == es
    decreases |es|
  {
    if es != [] {
      var init, last := es[..|es| - 1], es[|es| - 1];
      assert es == init + [last];
      assert SortedByDate(init) by {
        forall i, j | 0 <= i < j < |init| ensures Key(init[i]) <= Key(init[j]) {
          assert init[i] == es[i] && init[j] == es[j];
        }
      }
      SortByDateOfSorted(init);
      if init != [] {
        assert init[|init| - 1] == es[|es| - 2];
      }
      InsertByDateAtEnd(last, init);
      SortByDateStep(es);
    }
  }

  // ------------------------------------------------------- response times

  /** `metadata.get("date_timestamp")` when it is truthy: present, parsed and
      not 0. */
  function TruthyTimestamp(r: EmailRecord): Option<int> {
    match r.metadata.date
    case Dated(_, ts) => if ts != 0 then Some(ts) else None
    case _ => None
  }

  /** The gap in seconds from `prev` to `cur` when both timestamps are
      truthy. */
  function ResponseGap(prev: EmailRecord, cur: EmailRecord): Option<int> {
    match (TruthyTimestamp(prev), TruthyTimestamp(cur))
    case (Some(p), Some(c)) => Some(c - p)
    case _ => None
  }

  /** `_calculate_response_time` for neighbours `prev` and `cur`: None when
      either timestamp is falsy, otherwise the difference in seconds,
      formatted, and whether it is under an hour and under a day. */
  function ResponseBetween(prev: EmailRecord, cur: EmailRecord): (rt: Option<ResponseTime>)
    ensures rt.Some? <==> TruthyTimestamp(prev).Some? && TruthyTimestamp(cur).Some?
    ensures rt.Some? ==> rt.value.seconds == TruthyTimestamp(cur).value - TruthyTimestamp(prev).value
    ensures rt.Some? ==> (rt.value.isQuick <==> rt.value.seconds < 3600)
    ensures rt.Some? ==> (rt.value.isSameDay <==> rt.value.seconds < 86400)
    ensures rt.Some? ==> rt.value.formatted == FormatDuration(rt.value.seconds, 1)
    ensures rt.None? <==> ResponseGap(prev, cur).None?
    ensures rt.Some? ==> ResponseGap(prev, cur) == Some(rt.value.seconds)
  {
    match (TruthyTimestamp(prev), TruthyTimestamp(cur))
    case (Some(p), Some(c)) =>
      var d := c - p;
      Some(ResponseTime(d, FormatDuration(d, 1), d < 3600, d < 86400))
    case _ => None
  }

  // ------------------------------------------------------------- timeline

  /** The timeline entry for position `i` of the sorted entries. `isRoot` is
      the entry's own classification, not its place in the order. */
  function EntryAt(sorted: seq<ThreadEntry>, i: nat): (t: TimelineEntry)
    requires i < |sorted|
    ensures t.position == i + 1
    ensures t.isLatest <==> i == |sorted| - 1
    ensures t.isRoot == sorted[i].analysis.isRoot
    ensures t.email == sorted[i].email && t.analysis == sorted[i].analysis
    ensures i == 0 ==> t.responseTime.None?
    ensures i > 0 ==> t.responseTime == ResponseBetween(sorted[i - 1].email, sorted[i].email)
  {
    TimelineEntry(
      i + 1,
      sorted[i].analysis.isRoot,
      i == |sorted| - 1,
      sorted[i].email,
      sorted[i].analysis,
      if i == 0 then None else ResponseBetween(sorted[i - 1].email, sorted[i].email))
  }

  /** The timeline of a thread's entries. */
  function TimelineOf(es: seq<ThreadEntry>): (tl: seq<TimelineEntry>)
    requires Sortable(es)
  {
    var sorted := SortByDate(es);
    seq(|sorted|, i requires 0 <= i < |sorted| => EntryAt(sorted, i))
  }

  /** A list holding, at each position, the entry for that position of the
      sorted entries is the timeline. */
  lemma TimelineOfEntries(es: seq<ThreadEntry>, tl: seq<TimelineEntry>)
    requires Sortable(es)
    requires |tl| == |SortByDate(es)|
    requires forall j :: 0 <= j < |tl| ==> tl[j] == EntryAt(SortByDate(es), j)
    ensures tl == TimelineOf(es)
  {
  }

  /** One timeline entry per thread entry, numbered from 1, the last one
      marked latest, the first without a response time; its messages are
      those of the thread, in date order. */
  lemma TimelineShape(es: seq<ThreadEntry>)
    requires Sortable(es)
    ensures var tl, sorted := TimelineOf(es), SortByDate(es);
      && |tl| == |es|
      && (forall i :: 0 <= i < |tl| ==> tl[i].position == i + 1 && tl[i].email == sorted[i].email)
      && (forall i :: 0 <= i < |tl| ==> (tl[i].isLatest <==> i == |es| - 1))
      && (|tl| > 0 ==> tl[0].responseTime.None?)
      && (forall i, j :: 0 <= i < j < |tl| ==> Key(sorted[i]) <= Key(sorted[j]))
  {
  }

  /** Because the entries are sorted first, every response time in a
      timeline is non-negative, and formatted in seconds only when under a
      minute. */
  lemma TimelineResponsesNonNegative(es: seq<ThreadEntry>, i: nat)
    requires Sortable(es) && i < |es|
    ensures var tl := TimelineOf(es);
      tl[i].responseTime.Some? ==> tl[i].responseTime.value.seconds >= 0
  {
    var sorted := SortByDate(es);
    if i > 0 {
      var rt := ResponseBetween(sorted[i - 1].email, sorted[i].email);
      if rt.Some? {
        assert Key(sorted[i - 1]) <= Key(sorted[i]);
      }
    }
  }

  /** A thread of one message has a one-entry timeline, whatever its date. */
  lemma SingleEntryTimeline(e: ThreadEntry)
    ensures Sortable([e])
    ensures TimelineOf([e]) == [TimelineEntry(1, e.analysis.isRoot, true, e.email, e.analysis, None)]
  {
    assert SortByDate([e]) == [e] by {
      assert [e][..0] == [];
    }
  }
}
