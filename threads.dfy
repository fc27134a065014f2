/** `ThreadManager`: the in-memory registry of threads. It keeps, per thread
    id, the list of entries in arrival order and an aggregated metadata
    record, and remembers the order in which threads were created (the
    iteration order of the source's dictionaries). */
module Threads {
  import opened Wrappers
  import opened Text
  import opened EmailModel
  import opened ThreadAnalyzer
  import opened Timeline
  import opened ThreadRollup

  // ------------------------------------------------ per-thread aggregates

  function Max(a: nat, b: nat): nat {
    if a >= b then a else b
  }

  /** The largest classification depth of the entries, 0 for none. */
  function MaxDepth(es: seq<ThreadEntry>): (d: nat)
    ensures forall i :: 0 <= i < |es| ==> es[i].analysis.threadDepth <= d
    ensures es != [] ==> exists i :: 0 <= i < |es| && es[i].analysis.threadDepth == d
  {
    if es == [] then 0 else Max(MaxDepth(es[..|es| - 1]), es[|es| - 1].analysis.threadDepth)
  }

  /** Every participant of every entry. */
  function AllParticipants(es: seq<ThreadEntry>): (ps: set<string>)
    ensures forall i :: 0 <= i < |es| ==> es[i].analysis.participants <= ps
    ensures forall p :: p in ps ==> exists i :: 0 <= i < |es| && p in es[i].analysis.participants
  {
    if es == [] then {} else AllParticipants(es[..|es| - 1]) + es[|es| - 1].analysis.participants
  }

  /** The Message-ID of the LAST root entry (each root entry overwrites the
      previous one), None when no entry is a root. */
  function LastRootId(es: seq<ThreadEntry>): (id: Option<string>)
    ensures id.Some? ==> exists i :: 0 <= i < |es| && es[i].analysis.isRoot && es[i].email.metadata.messageId == id
    ensures (forall i :: 0 <= i < |es| ==> !es[i].analysis.isRoot) ==> id.None?
    ensures forall i :: 0 <= i < |es| && es[i].analysis.isRoot && (forall j :: i < j < |es| ==> !es[j].analysis.isRoot) ==>
      id == es[i].email.metadata.messageId
  {
    if es == [] then None
    else if es[|es| - 1].analysis.isRoot then es[|es| - 1].email.metadata.messageId
    else LastRootId(es[..|es| - 1])
  }

  /** The metadata record the registry keeps for a non-empty list of entries. */
  function MetaOf(es: seq<ThreadEntry>): ThreadMeta
    requires es != []
  {
    ThreadMeta(
      es[0].addedAt,
      AllParticipants(es),
      es[0].analysis.subjectThread.normalized,
      |es|,
      Some(es[|es| - 1].addedAt),
      LastRootId(es),
      MaxDepth(es))
  }

  /** The record created with a new thread. */
  function NewMeta(a: Analysis, now: int): ThreadMeta {
    ThreadMeta(now, {}, a.subjectThread.normalized, 0, None, None, 0)
  }

  /** `_update_thread_metadata` applied to `m` for a message classified as
      `a`, when the thread now holds `count` entries. */
  function UpdatedMeta(m: ThreadMeta, count: nat, a: Analysis, messageId: Option<string>, now: int): ThreadMeta {
    m.(messageCount := count,
       participants := m.participants + a.participants,
       lastActivity := Some(now),
       maxDepth := Max(m.maxDepth, a.threadDepth),
       rootMessageId := if a.isRoot then messageId else m.rootMessageId)
  }

  /** Applying the update for the first entry to the new record gives the
      aggregate of that entry alone. */
  lemma MetaOfFirst(e: ThreadEntry)
    ensures MetaOf([e]) == UpdatedMeta(NewMeta(e.analysis, e.addedAt), 1, e.analysis, e.email.metadata.messageId, e.addedAt)
  {
    assert [e][..0] == [];
  }

  /** The incremental update keeps the metadata equal to the aggregate over
      the entries. */
  lemma MetaOfAppend(es: seq<ThreadEntry>, e: ThreadEntry)
    requires es != []
    ensures MetaOf(es + [e]) == UpdatedMeta(MetaOf(es), |es| + 1, e.analysis, e.email.metadata.messageId, e.addedAt)
  {
    assert (es + [e])[..|es|] == es;
  }

  // -------------------------------------------------------------- search

  /** The search test of one summary: the lower-cased query occurs in the
      lower-cased subject or in one lower-cased participant. */
  predicate Matches(s: ThreadSummary, q: string) {
    Contains(Lower(s.subject), Lower(q)) || exists p :: p in s.participants && Contains(Lower(p), Lower(q))
  }

  /** The test `search_threads` applies to one summary, with the query
      already lower-cased: the subject first, then the participants one by
      one until one contains the query. */
  method SummaryMatches(summary: ThreadSummary, queryLower: string) returns (matched: bool)
    ensures matched <==> (Contains(Lower(summary.subject), queryLower) ||
                          exists p :: p in summary.participants && Contains(Lower(p), queryLower))
  {
    matched := Contains(Lower(summary.subject), queryLower);
    if !matched {
      var rest := summary.participants;
      while rest != {} && !matched
        invariant rest <= summary.participants
        invariant matched <==> exists p :: p in summary.participants - rest && Contains(Lower(p), queryLower)
        decreases rest
      {
        var p :| p in rest;
        if Contains(Lower(p), queryLower) {
          matched := true;
        }
        rest := rest - {p};
      }
      assert !matched ==> summary.participants - rest == summary.participants;
    }
  }

  /** The summaries that match, in their order. */
  function Matching(ss: seq<ThreadSummary>, q: string): (r: seq<ThreadSummary>)
    ensures |r| <= |ss|
  {
    if ss == [] then []
    else Matching(ss[..|ss| - 1], q) + (if Matches(ss[|ss| - 1], q) then [ss[|ss| - 1]] else [])
  }

  /** Searching one more summary appends it when it matches. */
  lemma MatchingSnoc(ss: seq<ThreadSummary>, s: ThreadSummary, q: string)
    ensures Matching(ss + [s], q) == Matching(ss, q) + if Matches(s, q) then [s] else []
  {
    assert (ss + [s])[..|ss|] == ss;
  }

  /** A summary is in the search result exactly when it is among the
      summaries searched and matches the query. */
  lemma {:induction false} MatchingMembers(ss: seq<ThreadSummary>, q: string)
    ensures forall s :: s in Matching(ss, q) <==> s in ss && Matches(s, q)
    decreases |ss|
  {
    if ss != [] {
      var init, last := ss[..|ss| - 1], ss[|ss| - 1];
      MatchingMembers(init, q);
      assert ss == init + [last];
    }
  }

  /** Every summary matches the empty query. */
  lemma MatchingEmptyQuery(ss: seq<ThreadSummary>)
    ensures Matching(ss, "") == ss
  {
    forall i | 0 <= i < |ss| ensures Matches(ss[i], "") {
      EmptyQueryMatches(ss[i]);
    }
    MatchingAll(ss, "");
  }

  /** When every summary matches, all of them are kept, in order. */
  lemma {:induction false} MatchingAll(ss: seq<ThreadSummary>, q: string)
    requires forall i :: 0 <= i < |ss| ==> Matches(ss[i], q)
    ensures Matching(ss, q) == ss
    decreases |ss|
  {
    if ss != [] {
      var init, last := ss[..|ss| - 1], ss[|ss| - 1];
      assert forall i :: 0 <= i < |init| ==> init[i] == ss[i];
      MatchingAll(init, q);
      assert ss == init + [last];
    }
  }

  lemma EmptyQueryMatches(s: ThreadSummary)
    ensures Matches(s, "")
  {
    assert "" <= Lower(s.subject)[0..];
    assert Lower("") == "";
  }

  /** The positions in `ss` that `Matching` picks: strictly increasing, so
      the search result is a subsequence of its input. */
  function MatchPositions(ss: seq<ThreadSummary>, q: string): (idx: seq<nat>)
    ensures |idx| == |Matching(ss, q)|
    ensures forall k :: 0 <= k < |idx| ==> idx[k] < |ss| && ss[idx[k]] == Matching(ss, q)[k]
    ensures forall k, l :: 0 <= k < l < |idx| ==> idx[k] < idx[l]
  {
    if ss == [] then []
    else
      var init, last := ss[..|ss| - 1], ss[|ss| - 1];
      var rest := MatchPositions(init, q);
      var m := Matching(init, q);
      assert Matching(ss, q) == m + (if Matches(last, q) then [last] else []);
      assert forall k :: 0 <= k < |rest| ==> ss[rest[k]] == init[rest[k]];
      if Matches(last, q) then
        var n: nat := |ss| - 1;
        assert forall k :: 0 <= k < |rest| ==> (rest + [n])[k] == rest[k];
        rest + [n]
      else rest
  }

  // ------------------------------------------------- registry invariant

  /** The entry holds its message's classification, whose id is `t`. */
  ghost predicate ClassifiedAs(e: ThreadEntry, t: string) {
    e.analysis == Analyze(e.email) && e.analysis.threadId == t
  }

  /** Every entry of `es` is classified into thread `t`. */
  ghost predicate AllClassifiedAs(es: seq<ThreadEntry>, t: string)
    decreases |es|
  {
    es == [] || (AllClassifiedAs(es[..|es| - 1], t) && ClassifiedAs(es[|es| - 1], t))
  }

  ghost predicate ClassifiedIn(th: map<string, seq<ThreadEntry>>) {
    forall t :: t in th ==> AllClassifiedAs(th[t], t)
  }

  /** Each entry of a thread carries its message's classification into that
      thread. */
  lemma {:induction false} AllClassifiedAt(es: seq<ThreadEntry>, t: string, i: nat)
    requires AllClassifiedAs(es, t) && i < |es|
    ensures es[i].analysis == Analyze(es[i].email) && es[i].analysis.threadId == t
    decreases |es|
  {
    if i < |es| - 1 {
      AllClassifiedAt(es[..|es| - 1], t, i);
    }
  }

  /** `ord` lists every thread once. */
  ghost predicate OrderLists(th: map<string, seq<ThreadEntry>>, ord: seq<string>) {
    && (forall t :: t in th <==> t in ord)
    && (forall i, j :: 0 <= i < j < |ord| ==> ord[i] != ord[j])
  }

  ghost predicate NonEmptyLists(th: map<string, seq<ThreadEntry>>) {
    forall t :: t in th ==> th[t] != []
  }

  /** Each metadata record is the aggregate of its thread's entries. */
  ghost predicate AggregatedIn(th: map<string, seq<ThreadEntry>>, me: map<string, ThreadMeta>) {
    forall t :: t in th && t in me && th[t] != [] ==> me[t] == MetaOf(th[t])
  }

  /** The thread lists after appending `e` to thread `tid`. */
  function Appended(th: map<string, seq<ThreadEntry>>, tid: string, e: ThreadEntry): map<string, seq<ThreadEntry>> {
    th[tid := (if tid in th then th[tid] else []) + [e]]
  }

  /** The metadata after registering `e` in thread `tid`. */
  function MetaAfter(me: map<string, ThreadMeta>, tid: string, e: ThreadEntry, count: nat): map<string, ThreadMeta> {
    var m := if tid in me then me[tid] else NewMeta(e.analysis, e.addedAt);
    me[tid := UpdatedMeta(m, count, e.analysis, e.email.metadata.messageId, e.addedAt)]
  }

  /** What registering `e` in thread `tid` does: the thread's list grows by
      exactly `e` at its end; its count is the list's length; its depth,
      participants and root id absorb the message's; its subject and
      creation time are set only when the thread is new; no other thread
      changes; and every thread still has its metadata record. */
  lemma RegisterEffects(th: map<string, seq<ThreadEntry>>, me: map<string, ThreadMeta>, tid: string, e: ThreadEntry)
    requires th.Keys == me.Keys
    ensures var th2 := Appended(th, tid, e);
      var me2 := MetaAfter(me, tid, e, |th2[tid]|);
      var a := e.analysis;
      && th2.Keys == me2.Keys == th.Keys + {tid}
      && th2[tid] == (if tid in th then th[tid] else []) + [e]
      && (forall t :: t in th && t != tid ==> th2[t] == th[t] && me2[t] == me[t])
      && me2[tid].messageCount == |th2[tid]|
      && me2[tid].maxDepth == Max(if tid in me then me[tid].maxDepth else 0, a.threadDepth)
      && me2[tid].participants == (if tid in me then me[tid].participants else {}) + a.participants
      && me2[tid].subject == (if tid in me then me[tid].subject else a.subjectThread.normalized)
      && me2[tid].created == (if tid in me then me[tid].created else e.addedAt)
      && me2[tid].lastActivity == Some(e.addedAt)
      && me2[tid].rootMessageId ==
           if a.isRoot then e.email.metadata.messageId
           else if tid in me then me[tid].rootMessageId else None
  {
  }

  lemma AppendKeepsClassified(th: map<string, seq<ThreadEntry>>, tid: string, e: ThreadEntry)
    requires ClassifiedIn(th) && ClassifiedAs(e, tid)
    ensures ClassifiedIn(Appended(th, tid, e))
  {
    var l := if tid in th then th[tid] else [];
    SnocClassified(l, tid, e);
    var th2 := Appended(th, tid, e);
    forall t | t in th2
      ensures AllClassifiedAs(th2[t], t)
    {
      if t != tid {
        assert th2[t] == th[t];
      }
    }
  }

  /** A thread list stays classified when an entry classified into it is
      appended. */
  lemma SnocClassified(l: seq<ThreadEntry>, t: string, e: ThreadEntry)
    requires AllClassifiedAs(l, t) && ClassifiedAs(e, t)
    ensures AllClassifiedAs(l + [e], t)
  {
    assert (l + [e])[..|l|] == l;
  }

  lemma AppendKeepsAggregated(th: map<string, seq<ThreadEntry>>, me: map<string, ThreadMeta>, tid: string, e: ThreadEntry)
    requires th.Keys == me.Keys && NonEmptyLists(th) && AggregatedIn(th, me)
    ensures AggregatedIn(Appended(th, tid, e), MetaAfter(me, tid, e, |Appended(th, tid, e)[tid]|))
  {
    if tid in th {
      MetaOfAppend(th[tid], e);
    } else {
      assert [] + [e] == [e];
      MetaOfFirst(e);
    }
  }

  lemma AppendKeepsOrder(th: map<string, seq<ThreadEntry>>, ord: seq<string>, tid: string, e: ThreadEntry)
    requires OrderLists(th, ord)
    ensures OrderLists(Appended(th, tid, e), if tid in th then ord else ord + [tid])
  {
  }

  lemma AppendKeepsShape(th: map<string, seq<ThreadEntry>>, me: map<string, ThreadMeta>, tid: string, e: ThreadEntry)
    requires th.Keys == me.Keys && NonEmptyLists(th)
    ensures NonEmptyLists(Appended(th, tid, e))
    ensures Appended(th, tid, e).Keys == MetaAfter(me, tid, e, |Appended(th, tid, e)[tid]|).Keys
  {
  }

  /** Registering an entry classified into thread `tid` keeps the registry
      consistent: keys, creation order, non-empty threads, aggregates and
      classifications. */
  lemma AddKeepsConsistent(th: map<string, seq<ThreadEntry>>, me: map<string, ThreadMeta>, ord: seq<string>, tid: string, e: ThreadEntry)
    requires th.Keys == me.Keys
    requires OrderLists(th, ord)
    requires NonEmptyLists(th)
    requires AggregatedIn(th, me)
    requires ClassifiedIn(th) && ClassifiedAs(e, tid)
    ensures Appended(th, tid, e).Keys == MetaAfter(me, tid, e, |Appended(th, tid, e)[tid]|).Keys
    ensures OrderLists(Appended(th, tid, e), if tid in th then ord else ord + [tid])
    ensures NonEmptyLists(Appended(th, tid, e))
    ensures AggregatedIn(Appended(th, tid, e), MetaAfter(me, tid, e, |Appended(th, tid, e)[tid]|))
    ensures ClassifiedIn(Appended(th, tid, e))
  {
    AppendKeepsClassified(th, tid, e);
    AppendKeepsAggregated(th, me, tid, e);
    AppendKeepsOrder(th, ord, tid, e);
    AppendKeepsShape(th, me, tid, e);
  }

  // ------------------------------------------------------------ summaries

  /** The summary `get_thread_summary` builds from a registry's lists and
      metadata: None for an unknown or empty thread. */
  function SummaryIn(th: map<string, seq<ThreadEntry>>, me: map<string, ThreadMeta>, tid: string): Option<ThreadSummary>
    requires th.Keys == me.Keys
  {
    if tid !in th || th[tid] == [] then None
    else
      var m := me[tid];
      Some(ThreadSummary(tid, m.messageCount, m.participants, m.subject, m.created,
                         m.lastActivity, m.maxDepth, m.rootMessageId, EngagementOf(th[tid])))
  }

  /** The summaries of the threads `ts`, skipping ids without one. */
  function SummariesIn(th: map<string, seq<ThreadEntry>>, me: map<string, ThreadMeta>, ts: seq<string>): seq<ThreadSummary>
    requires th.Keys == me.Keys
  {
    if ts == [] then []
    else
      SummariesIn(th, me, ts[..|ts| - 1]) +
        match SummaryIn(th, me, ts[|ts| - 1])
        case Some(s) => [s]
        case None => []
  }

  /** Summaries that name the listed threads one by one name every thread
      once. */
  lemma IdsFollowOrder(all: seq<ThreadSummary>, ord: seq<string>, th: map<string, seq<ThreadEntry>>)
    requires OrderLists(th, ord) && |all| == |ord|
    requires forall i :: 0 <= i < |ord| ==> all[i].threadId == ord[i]
    ensures forall t :: t in th <==> exists s :: s in all && s.threadId == t
    ensures forall i, j :: 0 <= i < j < |all| ==> all[i].threadId != all[j].threadId
  {
    forall t | t in th ensures exists s :: s in all && s.threadId == t {
      var i :| 0 <= i < |ord| && ord[i] == t;
      assert all[i] in all;
    }
    forall s | s in all ensures s.threadId in th {
      var i :| 0 <= i < |all| && all[i] == s;
      assert ord[i] in ord;
    }
  }

  /** The summaries of registered, non-empty threads name them one by one. */
  lemma {:induction false} SummariesInIds(th: map<string, seq<ThreadEntry>>, me: map<string, ThreadMeta>, ts: seq<string>)
    requires th.Keys == me.Keys
    requires forall i :: 0 <= i < |ts| ==> ts[i] in th && th[ts[i]] != []
    ensures |SummariesIn(th, me, ts)| == |ts|
    ensures forall i :: 0 <= i < |ts| ==> SummariesIn(th, me, ts)[i].threadId == ts[i]
    decreases |ts|
  {
    if ts != [] {
      var init := ts[..|ts| - 1];
      assert forall i :: 0 <= i < |init| ==> init[i] == ts[i];
      SummariesInIds(th, me, init);
      SummariesInStep(th, me, ts);
      var all, rest := SummariesIn(th, me, ts), SummariesIn(th, me, init);
      forall i | 0 <= i < |ts| ensures all[i].threadId == ts[i] {
        if i < |rest| {
          assert all[i] == rest[i];
        }
      }
    }
  }

  /** One more id adds its summary, when it has one. */
  lemma SummariesInNext(th: map<string, seq<ThreadEntry>>, me: map<string, ThreadMeta>, ts: seq<string>, i: nat)
    requires th.Keys == me.Keys && i < |ts|
    ensures SummariesIn(th, me, ts[..i + 1]) == SummariesIn(th, me, ts[..i]) +
      match SummaryIn(th, me, ts[i])
      case Some(s) => [s]
      case None => []
  {
    assert ts[..i + 1][..i] == ts[..i];
  }

  /** A registered, non-empty thread adds its own summary. */
  lemma SummariesInStep(th: map<string, seq<ThreadEntry>>, me: map<string, ThreadMeta>, ts: seq<string>)
    requires th.Keys == me.Keys
    requires ts != [] && ts[|ts| - 1] in th && th[ts[|ts| - 1]] != []
    ensures SummaryIn(th, me, ts[|ts| - 1]).Some?
    ensures SummaryIn(th, me, ts[|ts| - 1]).value.threadId == ts[|ts| - 1]
    ensures SummariesIn(th, me, ts) == SummariesIn(th, me, ts[..|ts| - 1]) + [SummaryIn(th, me, ts[|ts| - 1]).value]
  {
  }

  /** The loop of `get_thread_timeline` over the sorted entries: each
      entry's position, root flag, latest flag, message, classification and
      the response time to the entry before it. */
  method TimelineEntries(sorted: seq<ThreadEntry>) returns (r: seq<TimelineEntry>)
    ensures |r| == |sorted|
    ensures forall j :: 0 <= j < |r| ==> r[j] == EntryAt(sorted, j)
  {
    r := [];
    var i := 0;
    while i < |sorted|
      invariant 0 <= i <= |sorted|
      invariant |r| == i
      invariant forall j :: 0 <= j < i ==> r[j] == EntryAt(sorted, j)
    {
      var responseTime: Option<ResponseTime> := None;
      if i > 0 {
        responseTime := ResponseBetween(sorted[i - 1].email, sorted[i].email);
      }
      var entry := TimelineEntry(i + 1, sorted[i].analysis.isRoot, i == |sorted| - 1,
                                 sorted[i].email, sorted[i].analysis, responseTime);
      assert entry == EntryAt(sorted, i);
      ghost var prev := r;
      r := r + [entry];
      assert forall j :: 0 <= j < i ==> r[j] == prev[j];
      i := i + 1;
    }
  }

  // ------------------------------------------------------------ registry

  class ThreadManager {
    var threads: map<string, seq<ThreadEntry>>
    var meta: map<string, ThreadMeta>
    /** Thread ids in creation order. */
    var order: seq<string>

    /** Every thread has a metadata record and the other way round. */
    ghost predicate KeysAgree()
      reads this
    {
      threads.Keys == meta.Keys
    }

    ghost predicate Valid()
      reads this
    {
      && KeysAgree()
      && OrderLists(threads, order)
      && NonEmptyLists(threads)
      && AggregatedIn(threads, meta)
      && ClassifiedIn(threads)
    }

    constructor ()
      ensures Valid()
      ensures threads == map[] && meta == map[] && order == []
    {
      threads := map[];
      meta := map[];
      order := [];
    }

    /** `add_email_to_thread`: classify the record, create its thread if
        needed, append the entry and update the thread's metadata. */
    method Add(record: EmailRecord, now: int) returns (tid: string)
      requires Valid()
      modifies this
      ensures Valid()
      ensures tid == Analyze(record).threadId
      ensures threads == Appended(old(threads), tid, ThreadEntry(record, Analyze(record), now))
      ensures meta == MetaAfter(old(meta), tid, ThreadEntry(record, Analyze(record), now), |threads[tid]|)
      ensures order == if tid in old(threads) then old(order) else old(order) + [tid]
      ensures SummaryOf(tid).Some?
    {
      ghost var th, me, ord := threads, meta, order;
      var analysis := Analyze(record);
      tid := analysis.threadId;
      var entry := ThreadEntry(record, analysis, now);
      Store(tid, entry);
      AddKeepsConsistent(th, me, ord, tid, entry);
    }

    /** The storing half of `add_email_to_thread`: create thread `tid` if it
        is new, append `entry` and update the thread's metadata. */
    method Store(tid: string, entry: ThreadEntry)
      requires KeysAgree()
      modifies this
      ensures threads == Appended(old(threads), tid, entry)
      ensures meta == MetaAfter(old(meta), tid, entry, |threads[tid]|)
      ensures order == if tid in old(threads) then old(order) else old(order) + [tid]
    {
      if tid !in threads {
        threads := threads[tid := []];
        meta := meta[tid := NewMeta(entry.analysis, entry.addedAt)];
        order := order + [tid];
      }
      threads := threads[tid := threads[tid] + [entry]];
      UpdateThreadMetadata(tid, entry.email, entry.analysis, entry.addedAt);
    }

    /** `_update_thread_metadata` */
    method UpdateThreadMetadata(tid: string, record: EmailRecord, analysis: Analysis, now: int)
      requires tid in threads && tid in meta
      modifies this
      ensures threads == old(threads) && order == old(order)
      ensures meta == old(meta)[tid := UpdatedMeta(old(meta)[tid], |threads[tid]|, analysis, record.metadata.messageId, now)]
    {
      var m := meta[tid];
      m := m.(messageCount := |threads[tid]|);
      m := m.(participants := m.participants + analysis.participants);
      m := m.(lastActivity := Some(now));
      m := m.(maxDepth := Max(m.maxDepth, analysis.threadDepth));
      if analysis.isRoot {
        m := m.(rootMessageId := record.metadata.messageId);
      }
      meta := meta[tid := m];
    }

    /** The summary `get_thread_summary` returns. */
    ghost function SummaryOf(tid: string): Option<ThreadSummary>
      reads this
      requires KeysAgree()
    {
      SummaryIn(threads, meta, tid)
    }

    /** The summaries of the threads `ts`, skipping ids without one. */
    ghost function SummariesOver(ts: seq<string>): seq<ThreadSummary>
      reads this
      requires KeysAgree()
    {
      SummariesIn(threads, meta, ts)
    }

    /** `_calculate_thread_engagement` */
    method ThreadEngagement(es: seq<ThreadEntry>) returns (e: Engagement)
      ensures e == EngagementOf(es)
    {
      if es == [] {
        return Engagement(0, 0, None, Inactive);
      }
      var total, times := ScoresAndTimes(es);
      var average: Option<string> := None;
      if times != [] {
        var sum := Sum(times);
        if sum != 0 {
          average := Some(Durations.FormatDuration(sum, |times|));
        }
      }
      assert average == AverageResponse(times);
      e := Engagement(total, |es|, average, ActivityLevelOf(|es|, total));
    }

    /** The loop of `_calculate_thread_engagement`: the scores summed and
        the response times collected, in arrival order. */
    method ScoresAndTimes(es: seq<ThreadEntry>) returns (total: int, times: seq<int>)
      ensures total == ScoreTotal(es)
      ensures times == ResponseSeconds(es)
    {
      total, times := 0, [];
      var i := 0;
      while i < |es|
        invariant 0 <= i <= |es|
        invariant total == ScoreTotal(es[..i])
        invariant times == ResponseSeconds(es[..i])
      {
        total, times := RollupEntry(es, i, total, times);
        i := i + 1;
      }
      assert es[..i] == es;
    }

    /** One pass of that loop: entry `i` adds its score and, after the
        first, its response time to its predecessor when there is one. */
    method RollupEntry(es: seq<ThreadEntry>, i: nat, total: int, times: seq<int>) returns (total': int, times': seq<int>)
      requires i < |es|
      requires total == ScoreTotal(es[..i]) && times == ResponseSeconds(es[..i])
      ensures total' == ScoreTotal(es[..i + 1]) && times' == ResponseSeconds(es[..i + 1])
    {
      total' := total + EntryScore(es[i]);
      times' := times;
      if i > 0 {
        var rt := ResponseBetween(es[i - 1].email, es[i].email);
        if rt.Some? {
          times' := times + [rt.value.seconds];
        }
      }
      ScoreStep(es, i);
      ResponseStep(es, i);
    }

    /** `get_thread_summary`: None exactly for an unknown thread. */
    method Summary(tid: string) returns (r: Option<ThreadSummary>)
      requires KeysAgree() && NonEmptyLists(threads)
      ensures r == SummaryOf(tid)
      ensures r.None? <==> tid !in threads
      ensures r.Some? ==> r.value.threadId == tid && r.value.engagement.totalMessages == |threads[tid]|
    {
      if tid !in threads {
        return None;
      }
      var es := threads[tid];
      var m := meta[tid];
      if es == [] {
        return None;
      }
      var engagement := ThreadEngagement(es);
      r := Some(ThreadSummary(tid, m.messageCount, m.participants, m.subject, m.created,
                              m.lastActivity, m.maxDepth, m.rootMessageId, engagement));
    }

    /** `get_thread_timeline`: [] for an unknown thread, otherwise one entry
        per message in stable date order. */
    method GetTimeline(tid: string) returns (r: seq<TimelineEntry>)
      requires tid in threads ==> Sortable(threads[tid])
      ensures tid !in threads ==> r == []
      ensures tid in threads ==> r == TimelineOf(threads[tid])
    {
      if tid !in threads {
        return [];
      }
      var es := threads[tid];
      var sorted := SortByDate(es);
      r := TimelineEntries(sorted);
      TimelineOfEntries(es, r);
    }

    /** `get_all_threads`: the summaries in thread-creation order. */
    method AllThreads() returns (r: seq<ThreadSummary>)
      requires KeysAgree() && NonEmptyLists(threads)
      ensures r == SummariesOver(order)
    {
      r := [];
      var i := 0;
      while i < |order|
        invariant 0 <= i <= |order|
        invariant r == SummariesOver(order[..i])
      {
        SummariesInNext(threads, meta, order, i);
        var s := Summary(order[i]);
        if s.Some? {
          r := r + [s.value];
        }
        i := i + 1;
      }
      assert order[..i] == order;
    }

    /** `search_threads`: the summaries, in creation order, whose subject or
        one of whose participants contains the query, ignoring case. */
    method Search(query: string) returns (r: seq<ThreadSummary>)
      requires KeysAgree() && NonEmptyLists(threads)
      ensures r == Matching(SummariesOver(order), query)
    {
      var queryLower := Lower(query);
      r := [];
      var i := 0;
      while i < |order|
        invariant 0 <= i <= |order|
        invariant r == Matching(SummariesOver(order[..i]), query)
      {
        SummariesInNext(threads, meta, order, i);
        ghost var before := SummariesOver(order[..i]);
        var s := Summary(order[i]);
        if s.Some? {
          var summary := s.value;
          assert SummariesOver(order[..i + 1]) == before + [summary];
          MatchingSnoc(before, summary, query);
          var matched := SummaryMatches(summary, queryLower);
          if matched {
            r := r + [summary];
          }
        } else {
          assert SummariesOver(order[..i + 1]) == before;
        }
        i := i + 1;
      }
      assert order[..i] == order;
    }

    // ---------------------------------------------------------- properties

    /** The summaries of all threads name each thread exactly once, in
        creation order. */
    lemma AllThreadsOnePerThread()
      requires KeysAgree() && OrderLists(threads, order) && NonEmptyLists(threads)
      ensures |SummariesOver(order)| == |order|
      ensures forall t :: t in threads <==> exists s :: s in SummariesOver(order) && s.threadId == t
      ensures forall i, j :: 0 <= i < j < |order| ==> SummariesOver(order)[i].threadId != SummariesOver(order)[j].threadId
    {
      forall i | 0 <= i < |order| ensures order[i] in threads && threads[order[i]] != [] {
        assert order[i] in order;
      }
      SummariesInIds(threads, meta, order);
      IdsFollowOrder(SummariesOver(order), order, threads);
    }

    /** The summary of a registered thread reflects its entries: the count
        of messages, the creation time and subject of the first, the time of
        the last, every participant, the depth of the deepest entry, and the
        Message-ID of the last root entry. */
    lemma SummaryReflectsEntries(tid: string)
      requires KeysAgree() && AggregatedIn(threads, meta)
      requires tid in threads && threads[tid] != []
      ensures var s, es := SummaryOf(tid).value, threads[tid];
        && s.messageCount == |es| == s.engagement.totalMessages
        && s.created == es[0].addedAt
        && s.subject == es[0].analysis.subjectThread.normalized
        && s.lastActivity == Some(es[|es| - 1].addedAt)
        && (forall i :: 0 <= i < |es| ==> es[i].analysis.participants <= s.participants)
        && (forall p :: p in s.participants ==> exists i :: 0 <= i < |es| && p in es[i].analysis.participants)
        && (forall i :: 0 <= i < |es| ==> es[i].analysis.threadDepth <= s.maxDepth)
        && s.maxDepth == MaxDepth(es)
        && (s.rootMessageId.Some? ==> exists i :: 0 <= i < |es| && es[i].analysis.isRoot && es[i].email.metadata.messageId == s.rootMessageId)
        && s.rootMessageId == LastRootId(es)
    {
      assert meta[tid] == MetaOf(threads[tid]);
    }

    /** Every entry of a thread was classified into that thread, from its
        own message. */
    lemma EntriesBelongToThread(tid: string, i: nat)
      requires ClassifiedIn(threads) && tid in threads && i < |threads[tid]|
      ensures threads[tid][i].analysis == Analyze(threads[tid][i].email)
      ensures Analyze(threads[tid][i].email).threadId == tid
    {
      AllClassifiedAt(threads[tid], tid, i);
    }
  }
}
