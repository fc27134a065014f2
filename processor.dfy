/** `EmlProcessor`, the part of it that feeds the threading core: the
    threading fields of `metadata`, the record a parsed message becomes, the
    per-message summary, and the thread queries it forwards to its
    `ThreadManager`. MIME parsing (headers, body parts, attachments) is not
    part of this model: its results are the inputs here. */
module Processor {
  import opened Wrappers
  import opened Text
  import opened EmailModel
  import opened ThreadAnalyzer
  import opened Timeline
  import opened ThreadRollup
  import opened Threads

  /** The outcome of `email.utils.parsedate_to_datetime` on the Date header,
      as whole seconds since the epoch. */
  datatype DateParse = ParseOk(iso: string, timestamp: int) | ParseError

  /** The raw values of the headers the metadata step reads, None when the
      header is absent. */
  datatype IdHeaders = IdHeaders(
    date: Option<string>,
    messageId: Option<string>,
    inReplyTo: Option<string>,
    references: Option<string>)

  /** What MIME parsing yields for one message. */
  datatype ParsedMessage = ParsedMessage(
    headers: CommonHeaders,
    body: Body,
    attachments: seq<Attachment>,
    ids: IdHeaders,
    dateParse: DateParse,
    rawSize: nat)

  // ------------------------------------------------------------- metadata

  /** The date fields: absent without a (truthy) Date header, both None when
      it does not parse, both set when it does. */
  function ExtractDate(header: Option<string>, parse: DateParse): (d: DateField)
    ensures d.NoDate? <==> !Truthy(header)
    ensures d.Unparsed? <==> Truthy(header) && parse.ParseError?
    ensures d.Dated? <==> Truthy(header) && parse.ParseOk?
    ensures d.Dated? ==> d.iso == parse.iso && d.timestamp == parse.timestamp
  {
    if !Truthy(header) then NoDate
    else match parse
      case ParseOk(iso, ts) => Dated(iso, ts)
      case ParseError => Unparsed
  }

  /** `header.strip("<>")`, kept only for a truthy header. */
  function ExtractId(header: Option<string>): (id: Option<string>)
    ensures id.Some? <==> Truthy(header)
    ensures id.Some? ==> exists a, b :: TrimmedAt(header.value, id.value, a, b, IsAngle)
  {
    if Truthy(header) then Some(StripAngles(header.value)) else None
  }

  /** `[ref.strip("<>") for ref in header.split()]`, kept only for a truthy
      header. */
  function ExtractReferences(header: Option<string>): (refs: Option<seq<string>>)
    ensures refs.Some? <==> Truthy(header)
    ensures refs.Some? ==> |refs.value| == |Split(header.value)|
    ensures refs.Some? ==> forall i :: 0 <= i < |refs.value| ==> refs.value[i] == StripAngles(Split(header.value)[i])
  {
    if Truthy(header) then
      var tokens := Split(header.value);
      Some(seq(|tokens|, i requires 0 <= i < |tokens| => StripAngles(tokens[i])))
    else None
  }

  /** `_extract_metadata`, its threading fields. */
  function ExtractMetadata(ids: IdHeaders, parse: DateParse): (m: Metadata)
    ensures m.date == ExtractDate(ids.date, parse)
    ensures m.messageId == ExtractId(ids.messageId)
    ensures m.inReplyTo == ExtractId(ids.inReplyTo)
    ensures m.references == ExtractReferences(ids.references)
  {
    Metadata(ExtractDate(ids.date, parse), ExtractId(ids.messageId), ExtractId(ids.inReplyTo),
             ExtractReferences(ids.references))
  }

  /** No stored reference contains whitespace, and none starts or ends with
      an angle bracket. */
  lemma ReferencesAreBare(header: Option<string>, i: nat)
    requires ExtractReferences(header).Some? && i < |ExtractReferences(header).value|
    ensures var r := ExtractReferences(header).value[i];
      && (forall k :: 0 <= k < |r| ==> !IsSpace(r[k]))
      && (r != [] ==> !IsAngle(r[0]) && !IsAngle(r[|r| - 1]))
  {
    var token := Split(header.value)[i];
    var r := ExtractReferences(header).value[i];
    var a: nat, b: nat :| TrimmedAt(token, r, a, b, IsAngle);
    assert IsToken(token);
    forall k | 0 <= k < |r| ensures !IsSpace(r[k]) {
      assert r[k] == token[a + k];
    }
  }

  /** A References header of whitespace only is kept as an empty list, which
      the thread id then passes over as if there were no header. */
  lemma BlankReferencesIgnored(header: string)
    requires header != [] && forall i :: 0 <= i < |header| ==> IsSpace(header[i])
    ensures ExtractReferences(Some(header)) == Some([])
    ensures forall ids: IdHeaders, parse: DateParse {:trigger ExtractMetadata(ids, parse)} ::
      ids.references == Some(header) ==> ReferenceList(ExtractMetadata(ids, parse)) == []
  {
    SplitBlank(header);
  }

  /** A Message-ID of just "<>" is stored as the empty string, which is
      falsy: a message with no other id header is threaded by subject. */
  lemma EmptyBracketIdThreadsBySubject(ids: IdHeaders, parse: DateParse, subject: string)
    requires ids.messageId == Some("<>")
    requires ids.inReplyTo.None? && ids.references.None?
    ensures ExtractMetadata(ids, parse).messageId == Some("")
    ensures ThreadKey(ExtractMetadata(ids, parse), subject) == NormalizeSubject(subject)
  {
    StripAnglesExamples();
  }

  // ---------------------------------------------------------------- records

  /** The record built before threading: headers, body, attachments,
      metadata and size, with no classification and no thread id yet. */
  function BaseRecord(msg: ParsedMessage): (r: EmailRecord)
    ensures r.analysis.None? && r.threadId.None?
    ensures r.metadata == ExtractMetadata(msg.ids, msg.dateParse)
  {
    EmailRecord(msg.headers, msg.body, msg.attachments, ExtractMetadata(msg.ids, msg.dateParse),
                Some(msg.rawSize), None, None)
  }

  /** The summary `get_summary` returns. */
  datatype MessageSummary = MessageSummary(
    subject: string,
    fromField: string,
    toField: string,
    ccField: string,
    bccField: string,
    date: string,
    hasAttachments: bool,
    attachmentCount: nat,
    hasHtml: bool,
    hasText: bool,
    sizeBytes: nat)

  /** `get_summary`: each header, or its placeholder when absent. */
  function GetSummary(r: EmailRecord): (s: MessageSummary)
    ensures s.hasAttachments <==> s.attachmentCount > 0
    ensures s.attachmentCount == |r.attachments|
    ensures r.headers.subject.None? ==> s.subject == "No Subject"
    ensures r.headers.fromField.None? ==> s.fromField == "Unknown Sender"
    ensures r.headers.toField.None? ==> s.toField == "Unknown Recipient"
    ensures r.headers.ccField.None? ==> s.ccField == "N/A"
    ensures r.headers.bccField.None? ==> s.bccField == "N/A"
    ensures r.headers.date.None? ==> s.date == "Unknown Date"
    ensures r.headers.subject.Some? ==> s.subject == r.headers.subject.value
    ensures r.headers.fromField.Some? ==> s.fromField == r.headers.fromField.value
    ensures r.headers.toField.Some? ==> s.toField == r.headers.toField.value
    ensures r.headers.ccField.Some? ==> s.ccField == r.headers.ccField.value
    ensures r.headers.bccField.Some? ==> s.bccField == r.headers.bccField.value
    ensures r.headers.date.Some? ==> s.date == r.headers.date.value
    ensures s.hasHtml <==> Truthy(r.body.html)
    ensures s.hasText <==> Truthy(r.body.text)
    ensures r.rawSize.None? ==> s.sizeBytes == 0
    ensures r.rawSize.Some? ==> s.sizeBytes == r.rawSize.value
  {
    var h := r.headers;
    MessageSummary(
      h.subject.GetOr("No Subject"),
      h.fromField.GetOr("Unknown Sender"),
      h.toField.GetOr("Unknown Recipient"),
      h.ccField.GetOr("N/A"),
      h.bccField.GetOr("N/A"),
      h.date.GetOr("Unknown Date"),
      |r.attachments| > 0,
      |r.attachments|,
      Truthy(r.body.html),
      Truthy(r.body.text),
      r.rawSize.GetOr(0))
  }

  /** The summary's flags agree with the classification's engagement
      indicators, and a parsed message's size is reported as is. */
  lemma SummaryAgreesWithIndicators(msg: ParsedMessage)
    ensures var r := BaseRecord(msg);
      var s, e := GetSummary(r), Analyze(r).engagement;
      && s.hasAttachments == e.hasAttachments
      && s.hasHtml == e.hasHtml
      && s.hasText == e.hasText
      && s.sizeBytes == msg.rawSize
  {
  }

  /** `get_thread_analysis`: the classification computed afresh. */
  function GetThreadAnalysis(r: EmailRecord): (a: Analysis)
    ensures a.threadId == ThreadIdOf(r)
  {
    Analyze(r)
  }

  /** The record `_extract_email_data` returns for `msg` once threaded into
      `tid`. */
  function Processed(msg: ParsedMessage, tid: string): EmailRecord {
    var base := BaseRecord(msg);
    base.(analysis := Some(Analyze(base)), threadId := Some(tid))
  }

  /** Classifying a processed record afresh gives the classification it
      carries, whose thread id is the one it was stored under. */
  lemma ReanalysisAgrees(msg: ParsedMessage)
    ensures var base := BaseRecord(msg);
      var r := Processed(msg, Analyze(base).threadId);
      && GetThreadAnalysis(r) == r.analysis.value
      && r.threadId == Some(GetThreadAnalysis(r).threadId)
  {
    var base := BaseRecord(msg);
    AnalyzeIgnoresAttachedKeys(base, Some(Analyze(base)), Some(Analyze(base).threadId));
  }

  // --------------------------------------------------------------- pipeline

  /** Every stored entry's message carries the classification it was
      filed under. */
  ghost predicate PipelinedIn(th: map<string, seq<ThreadEntry>>) {
    forall t :: t in th ==> Pipelined(th[t])
  }

  lemma AppendKeepsPipelined(th: map<string, seq<ThreadEntry>>, tid: string, e: ThreadEntry)
    requires PipelinedIn(th) && e.email.analysis == Some(Analyze(e.email))
    ensures PipelinedIn(Appended(th, tid, e))
  {
    var l := if tid in th then th[tid] else [];
    PipelinedAppend(l, e);
  }

  lemma PipelinedAppend(l: seq<ThreadEntry>, e: ThreadEntry)
    requires Pipelined(l) && e.email.analysis == Some(Analyze(e.email))
    ensures Pipelined(l + [e])
  {
    var l' := l + [e];
    forall i | 0 <= i < |l'| ensures l'[i].email.analysis == Some(Analyze(l'[i].email)) {
      if i < |l| {
        assert l'[i] == l[i];
      }
    }
  }

  class EmlProcessor {
    const threadManager: ThreadManager

    ghost predicate Valid()
      reads this, threadManager
    {
      threadManager.Valid() && PipelinedIn(threadManager.threads)
    }

    constructor ()
      ensures Valid() && fresh(threadManager)
      ensures threadManager.threads == map[] && threadManager.order == []
    {
      threadManager := new ThreadManager();
    }

    /** `_extract_email_data`: build the record, attach its classification,
        file it with the thread manager and attach the thread id. The entry
        stored is the record as it was filed, before the thread id was
        attached. */
    method ExtractEmailData(msg: ParsedMessage, now: int) returns (rec: EmailRecord)
      requires Valid()
      modifies threadManager
      ensures Valid()
      ensures rec == Processed(msg, Analyze(BaseRecord(msg)).threadId)
      ensures var tid, a := rec.threadId.value, rec.analysis.value;
        && threadManager.threads == Appended(old(threadManager.threads), tid, ThreadEntry(rec.(threadId := None), a, now))
        && threadManager.order == if tid in old(threadManager.threads) then old(threadManager.order) else old(threadManager.order) + [tid]
    {
      var base := BaseRecord(msg);
      var analysis := Analyze(base);
      var filed := base.(analysis := Some(analysis));
      AnalyzeIgnoresAttachedKeys(base, Some(analysis), None);
      ghost var th := threadManager.threads;
      var tid := threadManager.Add(filed, now);
      AppendKeepsPipelined(th, tid, ThreadEntry(filed, analysis, now));
      rec := filed.(threadId := Some(tid));
    }

    /** Every message filed by the processor scores between 20 and 100, so
        each thread's total lies between 20 and 100 per message. */
    lemma ThreadScoresBounded(tid: string)
      requires Valid() && tid in threadManager.threads
      ensures var es := threadManager.threads[tid];
        20 * |es| <= EngagementOf(es).scoreTotal <= 100 * |es|
    {
      PipelinedScoreBounds(threadManager.threads[tid]);
    }

    /** `get_thread_summary` */
    method GetThreadSummary(tid: string) returns (r: Option<ThreadSummary>)
      requires Valid()
      ensures r == threadManager.SummaryOf(tid)
      ensures r.None? <==> tid !in threadManager.threads
    {
      r := threadManager.Summary(tid);
    }

    /** `get_thread_timeline` */
    method GetThreadTimeline(tid: string) returns (r: seq<TimelineEntry>)
      requires Valid()
      requires tid in threadManager.threads ==> Sortable(threadManager.threads[tid])
      ensures tid !in threadManager.threads ==> r == []
      ensures tid in threadManager.threads ==> r == TimelineOf(threadManager.threads[tid])
    {
      r := threadManager.GetTimeline(tid);
    }

    /** `get_all_threads` */
    method GetAllThreads() returns (r: seq<ThreadSummary>)
      requires Valid()
      ensures r == threadManager.SummariesOver(threadManager.order)
      ensures |r| == |threadManager.order|
      ensures forall t :: t in threadManager.threads <==> exists s :: s in r && s.threadId == t
    {
      r := threadManager.AllThreads();
      threadManager.AllThreadsOnePerThread();
    }

    /** `search_threads` */
    method SearchThreads(query: string) returns (r: seq<ThreadSummary>)
      requires Valid()
      ensures r == Matching(threadManager.SummariesOver(threadManager.order), query)
    {
      r := threadManager.Search(query);
    }
  }
}
