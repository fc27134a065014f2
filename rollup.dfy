/** Thread-level engagement (`ThreadManager._calculate_thread_engagement` and
    `_calculate_activity_level`). Averages are kept exactly as a total and a
    count; the average score compares with a threshold `t` as
    `total >= t * count`. */
module ThreadRollup {
  import opened Wrappers
  import opened EmailModel
  import opened Durations
  import opened Timeline
  import opened ThreadAnalyzer

  /** `email_data.get("thread_analysis", {}).get("engagement_indicators",
      {}).get("engagement_score", 0)`: the score the processing pipeline
      attached to the stored record, 0 when it attached none. The entry's own
      classification is not read here. */
  function EntryScore(e: ThreadEntry): int {
    match e.email.analysis
    case Some(a) => a.engagement.engagementScore
    case None => 0
  }

  /** The sum of the entries' scores. */
  function ScoreTotal(es: seq<ThreadEntry>): int {
    if es == [] then 0 else ScoreTotal(es[..|es| - 1]) + EntryScore(es[|es| - 1])
  }

  /** The response times between neighbours in ARRIVAL order (the entries
      are not sorted here), skipping pairs without two truthy timestamps. */
  function ResponseSeconds(es: seq<ThreadEntry>): seq<int> {
    if |es| <= 1 then []
    else
      ResponseSeconds(es[..|es| - 1]) +
        match ResponseGap(es[|es| - 2].email, es[|es| - 1].email)
        case Some(d) => [d]
        case None => []
  }

  /** One more entry adds its score and, after the first, the response
      time to its predecessor when there is one. */
  lemma RollupStep(es: seq<ThreadEntry>, i: nat)
    requires i < |es|
    ensures ScoreTotal(es[..i + 1]) == ScoreTotal(es[..i]) + EntryScore(es[i])
    ensures ResponseSeconds(es[..i + 1]) == ResponseSeconds(es[..i]) +
      if i == 0 then [] else match ResponseBetween(es[i - 1].email, es[i].email)
        case Some(rt) => [rt.seconds]
        case None => []
  {
    ScoreStep(es, i);
    ResponseStep(es, i);
    if i > 0 {
      var rt := ResponseBetween(es[i - 1].email, es[i].email);
    }
  }

  lemma ScoreStep(es: seq<ThreadEntry>, i: nat)
    requires i < |es|
    ensures ScoreTotal(es[..i + 1]) == ScoreTotal(es[..i]) + EntryScore(es[i])
  {
    assert es[..i + 1][..i] == es[..i];
  }

  lemma ResponseStep(es: seq<ThreadEntry>, i: nat)
    requires i < |es|
    ensures ResponseSeconds(es[..i + 1]) == ResponseSeconds(es[..i]) +
      if i == 0 then [] else match ResponseGap(es[i - 1].email, es[i].email)
        case Some(d) => [d]
        case None => []
  {
    var p := es[..i + 1];
    assert p[..i] == es[..i];
    if i > 0 {
      assert p[|p| - 2] == es[i - 1] && p[|p| - 1] == es[i];
    }
  }

  function Sum(xs: seq<int>): int {
    if xs == [] then 0 else Sum(xs[..|xs| - 1]) + xs[|xs| - 1]
  }

  /** The formatted average response time; None when there is no response
      time, or when the average is 0 (falsy). */
  function AverageResponse(times: seq<int>): (r: Option<string>)
    ensures r.Some? <==> times != [] && Sum(times) != 0
  {
    if times == [] || Sum(times) == 0 then None else Some(FormatDuration(Sum(times), |times|))
  }

  /** `_calculate_activity_level(count, total / count)` */
  function ActivityLevelOf(count: nat, total: int): (l: ActivityLevel)
    ensures l == Inactive <==> count == 0
    ensures l == VeryActive <==> count >= 10 && total >= 70 * count
    ensures l == Active <==> !(count >= 10 && total >= 70 * count) && count >= 5 && total >= 50 * count
    ensures l == Moderate <==> count >= 3 && !(count >= 5 && total >= 50 * count)
    ensures l == Low <==> 1 <= count < 3
    ensures l.Rank() >= Moderate.Rank() <==> count >= 3
  {
    if count >= 10 && total >= 70 * count then VeryActive
    else if count >= 5 && total >= 50 * count then Active
    else if count >= 3 then Moderate
    else if count >= 1 then Low
    else Inactive
  }

  /** A higher total score over the same number of messages never lowers the
      activity level. */
  lemma ActivityLevelMonotone(count: nat, t1: int, t2: int)
    requires t1 <= t2
    ensures ActivityLevelOf(count, t1).Rank() <= ActivityLevelOf(count, t2).Rank()
  {
  }

  /** `_calculate_thread_engagement` */
  function EngagementOf(es: seq<ThreadEntry>): (e: Engagement)
    ensures e.totalMessages == |es|
    ensures e.activityLevel == Inactive <==> es == []
    ensures es != [] ==> e.scoreTotal == ScoreTotal(es)
    ensures es != [] ==> e.avgResponseTime == AverageResponse(ResponseSeconds(es))
    ensures es != [] ==> e.activityLevel == ActivityLevelOf(|es|, ScoreTotal(es))
    ensures es == [] ==> e.scoreTotal == 0 && e.avgResponseTime.None?
  {
    if es == [] then Engagement(0, 0, None, Inactive)
    else
      var total := ScoreTotal(es);
      Engagement(total, |es|, AverageResponse(ResponseSeconds(es)), ActivityLevelOf(|es|, total))
  }

  /** Every entry carries the classification the pipeline attached to it. */
  predicate Pipelined(es: seq<ThreadEntry>) {
    forall i :: 0 <= i < |es| ==> es[i].email.analysis == Some(Analyze(es[i].email))
  }

  /** Entries registered through the processing pipeline score between 20
      and 100 each. */
  lemma {:induction false} PipelinedScoreBounds(es: seq<ThreadEntry>)
    requires Pipelined(es)
    ensures 20 * |es| <= ScoreTotal(es) <= 100 * |es|
    decreases |es|
  {
    if es != [] {
      var init := es[..|es| - 1];
      assert Pipelined(init) by {
        forall i | 0 <= i < |init| ensures init[i].email.analysis == Some(Analyze(init[i].email)) {
          assert init[i] == es[i];
        }
      }
      PipelinedScoreBounds(init);
      var a := Analyze(es[|es| - 1].email);
      assert 20 <= a.engagement.engagementScore <= 100;
    }
  }

  /** Entries registered directly, without the pipeline's classification,
      all score 0: such a thread is at most "moderate", whatever its messages. */
  lemma {:induction false} UnpipelinedThreadAtMostModerate(es: seq<ThreadEntry>)
    requires forall i :: 0 <= i < |es| ==> es[i].email.analysis.None?
    ensures ScoreTotal(es) == 0
    ensures EngagementOf(es).activityLevel.Rank() <= Moderate.Rank()
    decreases |es|
  {
    if es != [] {
      var init := es[..|es| - 1];
      assert forall i :: 0 <= i < |init| ==> init[i] == es[i];
      UnpipelinedThreadAtMostModerate(init);
    }
  }

  /** Ten or more messages are "very active" when each scores at least 70. */
  lemma {:induction false} HighScoresVeryActive(es: seq<ThreadEntry>)
    requires |es| >= 10
    requires forall i :: 0 <= i < |es| ==> EntryScore(es[i]) >= 70
    ensures EngagementOf(es).activityLevel == VeryActive
  {
    ScoresAtLeast(es, 70);
  }

  lemma {:induction false} ScoresAtLeast(es: seq<ThreadEntry>, t: int)
    requires forall i :: 0 <= i < |es| ==> EntryScore(es[i]) >= t
    ensures ScoreTotal(es) >= t * |es|
    decreases |es|
  {
    if es != [] {
      var init := es[..|es| - 1];
      assert forall i :: 0 <= i < |init| ==> init[i] == es[i];
      ScoresAtLeast(init, t);
      assert EntryScore(es[|es| - 1]) >= t;
      assert t * |es| == t * |init| + t;
    }
  }

  /** Response times are taken between neighbours in arrival order: one for
      each neighbouring pair with two truthy timestamps, so at most one fewer
      than the entries. */
  lemma {:induction false} ResponseSecondsCount(es: seq<ThreadEntry>)
    ensures |ResponseSeconds(es)| <= if es == [] then 0 else |es| - 1
    ensures (forall i :: 0 <= i < |es| ==> TruthyTimestamp(es[i].email).Some?) ==>
      |ResponseSeconds(es)| == if es == [] then 0 else |es| - 1
    decreases |es|
  {
    if |es| > 1 {
      ResponseSecondsCount(es[..|es| - 1]);
    }
  }
}
