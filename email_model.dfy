/** The records the threading code reads and builds. The source keeps them as
    dictionaries; each key it reads is a field here, and a key that may be
    missing is an `Option`. */
module EmailModel {
  import opened Wrappers

  /** Python truthiness of an optional string: present and non-empty. */
  predicate Truthy(o: Option<string>) {
    o.Some? && o.value != ""
  }

  /** The `headers["common"]` entries the core reads: From, To, Cc, Bcc,
      Subject and Date. */
  datatype CommonHeaders = CommonHeaders(
    fromField: Option<string>,
    toField: Option<string>,
    ccField: Option<string>,
    bccField: Option<string>,
    subject: Option<string>,
    date: Option<string>)

  /** `body`: the text and HTML parts are None when the message has no such
      part. */
  datatype Body = Body(
    text: Option<string>,
    html: Option<string>,
    contentType: string,
    charset: Option<string>)

  datatype Attachment = Attachment(
    filename: Option<string>,
    contentType: string,
    size: nat,
    contentId: Option<string>,
    disposition: string)

  /** `date_parsed` / `date_timestamp`: both absent (no Date header), both
      None (the header did not parse), or both set. Timestamps are whole
      seconds since the epoch. */
  datatype DateField = NoDate | Unparsed | Dated(iso: string, timestamp: int)

  /** The threading part of `metadata`, ids already stripped of angle
      brackets. */
  datatype Metadata = Metadata(
    date: DateField,
    messageId: Option<string>,
    inReplyTo: Option<string>,
    references: Option<seq<string>>)

  /** `metadata.get("references", [])` */
  function ReferenceList(m: Metadata): seq<string> {
    m.references.GetOr([])
  }

  /** `subject_thread` of a classification. */
  datatype SubjectThread = SubjectThread(
    original: string,
    normalized: string,
    hasRePrefix: bool,
    hasFwPrefix: bool,
    hasAwPrefix: bool,
    prefixCount: nat,
    isThreadContinuation: bool)

  /** `engagement_indicators` of a classification. */
  datatype EngagementIndicators = EngagementIndicators(
    contentLength: nat,
    recipientCount: nat,
    hasAttachments: bool,
    hasHtml: bool,
    hasText: bool,
    engagementScore: nat)

  /** The classification of one message (`analyze_thread`). */
  datatype Analysis = Analysis(
    threadId: string,
    messageId: Option<string>,
    inReplyTo: Option<string>,
    references: seq<string>,
    subjectThread: SubjectThread,
    threadDepth: nat,
    isReply: bool,
    isForward: bool,
    isRoot: bool,
    participants: set<string>,
    engagement: EngagementIndicators)

  /** A parsed message. `analysis` and `threadId` are the keys the
      processing pipeline attaches (`thread_analysis`, `thread_id`). */
  datatype EmailRecord = EmailRecord(
    headers: CommonHeaders,
    body: Body,
    attachments: seq<Attachment>,
    metadata: Metadata,
    rawSize: Option<nat>,
    analysis: Option<Analysis>,
    threadId: Option<string>)

  /** One member of a thread, in ingestion order. `addedAt` is the clock
      reading at ingestion. */
  datatype ThreadEntry = ThreadEntry(email: EmailRecord, analysis: Analysis, addedAt: int)

  /** The aggregated record kept per thread. */
  datatype ThreadMeta = ThreadMeta(
    created: int,
    participants: set<string>,
    subject: string,
    messageCount: nat,
    lastActivity: Option<int>,
    rootMessageId: Option<string>,
    maxDepth: nat)

  /** The gap between two neighbouring messages of a timeline. */
  datatype ResponseTime = ResponseTime(seconds: int, formatted: string, isQuick: bool, isSameDay: bool)

  datatype TimelineEntry = TimelineEntry(
    position: nat,
    isRoot: bool,
    isLatest: bool,
    email: EmailRecord,
    analysis: Analysis,
    responseTime: Option<ResponseTime>)

  datatype ActivityLevel = VeryActive | Active | Moderate | Low | Inactive {
    /** The label the source returns. */
    function Label(): string {
      match this
      case VeryActive => "very_active"
      case Active => "active"
      case Moderate => "moderate"
      case Low => "low"
      case Inactive => "inactive"
    }

    /** Position on the scale from inactive (0) to very active (4). */
    function Rank(): nat {
      match this
      case Inactive => 0
      case Low => 1
      case Moderate => 2
      case Active => 3
      case VeryActive => 4
    }
  }

  /** Thread-level engagement. The average score is kept exactly, as the pair
      `scoreTotal / totalMessages`. */
  datatype Engagement = Engagement(
    scoreTotal: int,
    totalMessages: nat,
    avgResponseTime: Option<string>,
    activityLevel: ActivityLevel)

  datatype ThreadSummary = ThreadSummary(
    threadId: string,
    messageCount: nat,
    participants: set<string>,
    subject: string,
    created: int,
    lastActivity: Option<int>,
    maxDepth: nat,
    rootMessageId: Option<string>,
    engagement: Engagement)
}
