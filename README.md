# eml-reader threading, modelled in Dafny

This project models the email threading core of eml-reader, a Python tool
that parses `.eml` files. The core has three parts:

- `EmailThreadAnalyzer` classifies one parsed message. It derives a thread id
  from In-Reply-To, then the first reference, then Message-ID, then the
  normalised subject. It also computes the subject analysis, the depth, the
  reply, forward and root flags, the participants and an engagement score.
- `ThreadManager` is the in-memory registry. For each thread it keeps the
  entries in arrival order and an aggregated metadata record. It answers
  summaries, timelines, "all threads" and searches.
- The `EMLProcessor` slice turns the id headers into metadata and attaches
  the classification before filing the record. It also covers the
  per-message summary and the thread queries that are forwarded to the
  manager.

Modules, in dependency order:

| file | module | contents |
|---|---|---|
| `wrappers.dfy` | `Wrappers` | `Option` |
| `text.dfy` | `Text` | Python string operations: `lower`, `strip`, `strip("<>")`, `split`, `in`, decimal rendering |
| `addresses.dfy` | `Addresses` | the participant regular expression as a leftmost, greedy scanner (`re.findall`) |
| `email_model.dfy` | `EmailModel` | the records; a dictionary key that may be missing is an `Option` |
| `thread_analyzer.dfy` | `ThreadAnalyzer` | `EmailThreadAnalyzer`, as pure functions |
| `durations.dfy` | `Durations` | `_format_duration` on an exact fraction of seconds |
| `timeline.dfy` | `Timeline` | the stable date sort, response times, the timeline |
| `rollup.dfy` | `ThreadRollup` | thread engagement and activity level |
| `threads.dfy` | `Threads` | class `ThreadManager` and its invariant |
| `processor.dfy` | `Processor` | `_extract_metadata`, `_extract_email_data`, `get_summary`, class `EmlProcessor` |

The registry invariant `ThreadManager.Valid` has five parts:

- `threads` and `meta` have the same keys.
- `order` lists every thread exactly once, in creation order.
- No thread list is empty.
- Every metadata record equals the aggregate `MetaOf` of its thread's entries.
  The aggregate is: creation time and subject from the first entry, count,
  last activity from the last entry, union of participants, largest depth,
  and the Message-ID of the last root entry.
- Every entry holds its own message's classification, and that
  classification's thread id is the thread's id.

`Add` keeps this invariant, and `SummaryReflectsEntries` reads it back as
facts about a summary.

Where the code and the intuitive reading differ, the model follows the code:

- Subject normalisation is a single pass over the prefix list, so "Re: Re: x"
  normalises to "re: x".
- Forward detection looks at the raw subject.
- `root_message_id` is overwritten by every root message.
- A timeline entry's `is_root` is copied from the message's own
  classification.
- The thread rollup reads the classification that the processing pipeline
  attached to the stored record. It does not read the entry's own
  classification.

## Model

| member | source | states |
|---|---|---|
| Text.StripAngles | src/eml_reader/eml_processor.py:322 | the result is a slice of the input; only `<` and `>` were removed around it; it neither starts nor ends with one |
| Text.StripAnglesExamples | src/eml_reader/eml_processor.py:322 | "<<a>>" becomes "a", "<>" becomes "" and "<a<b>" becomes "a<b" (inner brackets stay) |
| Text.Split | src/eml_reader/eml_processor.py:333 | every token is non-empty and holds no whitespace |
| Text.SplitKeepsText | src/eml_reader/eml_processor.py:333 | the tokens joined together are exactly the input's non-whitespace characters, in order |
| Text.SplitBlank | src/eml_reader/eml_processor.py:331-333 | the split is empty exactly when the input is all whitespace |
| Text.SplitAtSpace | src/eml_reader/eml_processor.py:333 | a whitespace character is a token boundary: the tokens of `a + [c] + b` are those of `a` followed by those of `b` |
| Text.SplitAfterSpaces | src/eml_reader/eml_processor.py:333 | leading whitespace adds no token |
| Text.SplitOfToken | src/eml_reader/eml_processor.py:333 | a non-empty run without whitespace is its own single token, so runs are maximal |
| Text.SplitOfJoined | src/eml_reader/eml_processor.py:333 | tokens joined by single spaces split back into the same list |
| Addresses.ExtractAddresses | src/eml_reader/thread_analyzer.py:254-270 | every address found has the shape local@domain.tld, with a top-level domain of at least two letters; an empty header gives none |
| Addresses.AddressFoundAsItself | src/eml_reader/thread_analyzer.py:254-270 | a header value that is exactly one well-formed address yields exactly that address |
| Addresses.BareAddressExample | src/eml_reader/thread_analyzer.py:267-268 | "a@b.co" yields exactly {"a@b.co"} |
| ThreadAnalyzer.Hash12 | src/eml_reader/thread_analyzer.py:101-110 | 12 lower-case hexadecimal digits, a deterministic function of the text |
| ThreadAnalyzer.ThreadKey | src/eml_reader/thread_analyzer.py:83-99 | the key is the first truthy value of In-Reply-To, the first reference, Message-ID, and otherwise the normalised subject |
| ThreadAnalyzer.ThreadIdOf | src/eml_reader/thread_analyzer.py:70-99 | the id is "thread_" followed by the 12-digit hash of the key, 19 characters in all |
| ThreadAnalyzer.SameInReplyToSameThread | src/eml_reader/thread_analyzer.py:83-85 | two records with the same truthy In-Reply-To get the same id, whatever else differs |
| ThreadAnalyzer.SubjectFallbackSameThread | src/eml_reader/thread_analyzer.py:95-99 | without any id header, subjects that normalise alike give the same id |
| ThreadAnalyzer.StripPass | src/eml_reader/thread_analyzer.py:146-151 | the single pass over the prefixes keeps the text lower-cased and trimmed, and never lengthens it |
| ThreadAnalyzer.CountPass | src/eml_reader/thread_analyzer.py:168-174 | the counting pass counts at most one per prefix in the list |
| ThreadAnalyzer.NormalizeSubject | src/eml_reader/thread_analyzer.py:133-153 | an empty subject gives ""; the result is lower-cased, trimmed and no longer than the subject |
| ThreadAnalyzer.NormalizeIsSuffix | src/eml_reader/thread_analyzer.py:143-153 | the normalised subject is a suffix of the trimmed, lower-cased subject: only leading prefixes and the whitespace after them go |
| ThreadAnalyzer.NormalizeUnchangedIff | src/eml_reader/thread_analyzer.py:143-153 | normalising leaves the trimmed, lower-cased subject unchanged exactly when it starts with none of "re:", "fw:", "fwd:", "aw:" |
| ThreadAnalyzer.StripPassFirstMatch | src/eml_reader/thread_analyzer.py:146-151 | when the text starts with list entry k and no earlier one, and the rest starts with no later one, the pass removes entry k and re-trims, nothing more |
| ThreadAnalyzer.NormalizeStripsFirstMatch | src/eml_reader/thread_analyzer.py:143-153 | the same for the subject: the result is the trimmed remainder after the first matching prefix |
| ThreadAnalyzer.CountSubjectPrefixes | src/eml_reader/thread_analyzer.py:155-176 | between 0 and 4, and 0 for an empty subject |
| ThreadAnalyzer.StripPassAppend | src/eml_reader/thread_analyzer.py:146-151 | a pass over two lists of prefixes is the pass over the first followed by the pass over the second |
| ThreadAnalyzer.CountedStripsShrink | src/eml_reader/thread_analyzer.py:168-174 | every counted prefix shortens the text by at least 3 characters |
| ThreadAnalyzer.NormalizeShrinksByCount | src/eml_reader/thread_analyzer.py:133-176 | the normalised subject plus 3 characters per counted prefix fits in the trimmed subject |
| ThreadAnalyzer.CountPositiveIff | src/eml_reader/thread_analyzer.py:155-176 | the count is positive exactly when the trimmed, lower-cased subject starts with "re:", "fw:", "fwd:" or "aw:" |
| ThreadAnalyzer.StripPassNone | src/eml_reader/thread_analyzer.py:146-151 | a text that starts with none of the prefixes passes unchanged |
| ThreadAnalyzer.DoubledReKeepsOne | src/eml_reader/thread_analyzer.py:143-151 | "Re: Re: x" normalises to "re: x" and counts one prefix |
| ThreadAnalyzer.ReAfterFwdKept | src/eml_reader/thread_analyzer.py:143-151 | "Fwd: Re: x" normalises to "re: x", because "re:" is tried before "fwd:" |
| ThreadAnalyzer.ForwardUsesRawSubject | src/eml_reader/thread_analyzer.py:209-222 | "Fw: hello" is a forward although its normalised subject "hello" has no prefix |
| ThreadAnalyzer.IsThreadContinuation | src/eml_reader/thread_analyzer.py:178-191 | a continuation always has a counted prefix, which normalising removes |
| ThreadAnalyzer.DetectForward | src/eml_reader/thread_analyzer.py:209-222 | a forward always has a counted prefix, which normalising removes |
| ThreadAnalyzer.ContinuationIsNotForward | src/eml_reader/thread_analyzer.py:178-222 | no subject is both a reply continuation and a forward |
| ThreadAnalyzer.AnalyzeSubject | src/eml_reader/thread_analyzer.py:112-131 | keeps the original subject; the normalised subject is `NormalizeSubject` of it, the prefix count is `CountSubjectPrefixes` of it and the continuation flag is `IsThreadContinuation` of it; `has_re_prefix`, `has_fw_prefix` and `has_aw_prefix` hold exactly when the lower-cased, untrimmed subject starts with "re:", with "fw:" or "fwd:", and with "aw:"; a "re:" prefix or a continuation implies at least one counted prefix; normalised length plus 3 per prefix fits in the subject |
| ThreadAnalyzer.LeadingRePrefixSurvivesStrip | src/eml_reader/thread_analyzer.py:126 | a subject whose lower-cased form starts with "re:" still starts with it after trimming |
| ThreadAnalyzer.PrefixSurvivesStrip | src/eml_reader/thread_analyzer.py:126-128 | a leading prefix that neither starts nor ends with whitespace survives `strip()` |
| ThreadAnalyzer.PrefixFlagsAgreeWithDetectors | src/eml_reader/thread_analyzer.py:126-130 | a forward prefix flag implies `_detect_forward` holds, and a "re:" or "aw:" prefix flag implies `_is_thread_continuation` holds |
| ThreadAnalyzer.ThreadDepth | src/eml_reader/thread_analyzer.py:193-207 | the number of references capped at 15 |
| ThreadAnalyzer.IsRootMessage | src/eml_reader/thread_analyzer.py:224-233 | a root message has depth 0 |
| ThreadAnalyzer.FieldAddresses | src/eml_reader/thread_analyzer.py:245-248 | an address field yields only well-formed addresses |
| ThreadAnalyzer.Participants | src/eml_reader/thread_analyzer.py:235-252 | the participants are well-formed and are exactly the addresses of From, To, Cc and Bcc together |
| ThreadAnalyzer.RecipientCount | src/eml_reader/thread_analyzer.py:304-308 | 0 exactly when To, Cc and Bcc hold no address; at least the number of addresses of each field |
| ThreadAnalyzer.RecipientCountBounds | src/eml_reader/thread_analyzer.py:304-308 | the recipient count is at least the number of distinct recipients, and equals it when To, Cc and Bcc share no address |
| ThreadAnalyzer.DuplicateRecipientCountsTwice | src/eml_reader/thread_analyzer.py:304-308 | one address in both To and Cc counts as two recipients but is one participant |
| ThreadAnalyzer.ContentLengthAsWritten | src/eml_reader/thread_analyzer.py:300-302 | the sum of lengths is defined only when both the text and the HTML part exist |
| ThreadAnalyzer.TextOnlyBodyFailsAsWritten | src/eml_reader/thread_analyzer.py:300-302 | a plain-text message without an HTML part has no content length as written |
| ThreadAnalyzer.ContentLength | src/eml_reader/thread_analyzer.py:300-302 | agrees with the code whenever the code computes a length; at least the length of each part present; the length of the one part when the other is missing |
| ThreadAnalyzer.TextOnlyBodyLength | src/eml_reader/thread_analyzer.py:300-302 | the text-only body "hello" on which the code fails has length 5 |
| ThreadAnalyzer.ContentBand | src/eml_reader/thread_analyzer.py:339-347 | between 10 and 40 points: 40 exactly above 1000 characters, 30 exactly from 501 to 1000, 20 exactly from 101 to 500, 10 exactly at 100 or fewer |
| ThreadAnalyzer.RecipientBand | src/eml_reader/thread_analyzer.py:349-357 | between 10 and 30 points: 30 exactly above 10 recipients, 20 exactly from 6 to 10, 15 exactly from 2 to 5, 10 exactly at one or none |
| ThreadAnalyzer.EngagementScore | src/eml_reader/thread_analyzer.py:324-363 | the sum of the two bands and 30 for attachments, always between 20 and 100, so the clamp at 100 never binds |
| ThreadAnalyzer.EngagementScoreMonotone | src/eml_reader/thread_analyzer.py:324-363 | more content, more recipients or an attachment never lowers the score |
| ThreadAnalyzer.EngagementScoreExample | src/eml_reader/thread_analyzer.py:324-363 | 1500 characters, 3 recipients and an attachment score 85 |
| ThreadAnalyzer.Indicators | src/eml_reader/thread_analyzer.py:285-322 | the content length is `ContentLength` of the body and the recipient count is `RecipientCount` of the headers; the flags are exactly "has attachments", "truthy HTML" and "truthy text", and the score is the banded score of those indicators |
| ThreadAnalyzer.Analyze | src/eml_reader/thread_analyzer.py:40-68 | the id is `ThreadIdOf` the record and has the thread shape; reply iff truthy In-Reply-To; root iff no In-Reply-To and no references; root implies depth 0 and not a reply; depth is `ThreadDepth` (min(len(references), 15)); Message-ID and references copied from the metadata; participants are `Participants` of the headers; the subject analysis carries `NormalizeSubject` and `CountSubjectPrefixes` of the subject; score 20 to 100; forward iff the subject is detected as a forward; continuation iff the subject is a continuation; never both |
| ThreadAnalyzer.AnalyzeEngagement | src/eml_reader/thread_analyzer.py:65 | the classification's engagement record is `Indicators` of the record, so its content length is `ContentLength` of the body and its recipient count is `RecipientCount` of the headers |
| ThreadAnalyzer.AnalyzeSubjectOf | src/eml_reader/thread_analyzer.py:55-57 | the classification's In-Reply-To is the metadata's, and its subject analysis is `AnalyzeSubject` of the record's subject, so it keeps the original subject and reports the three prefix flags |
| ThreadAnalyzer.AnalyzeIgnoresAttachedKeys | src/eml_reader/thread_analyzer.py:49-65 | the classification does not depend on the classification or thread id already attached to the record |
| Durations.TruncDiv | src/eml_reader/thread_analyzer.py:572-580 | Python's `int(a / b)`: the quotient truncated toward zero |
| Durations.DurationUnit | src/eml_reader/thread_analyzer.py:571-581 | seconds below 60, minutes below 3600, hours below 86400, days otherwise, each stated as an equivalence |
| Durations.FormatDuration | src/eml_reader/thread_analyzer.py:562-581 | the decimal rendering of the truncated amount followed by the unit letter |
| Durations.DurationAmountBounds | src/eml_reader/thread_analyzer.py:562-581 | for a non-negative duration, the amount is the number of whole units: 0 to 59 seconds, 1 to 59 minutes, 1 to 23 hours, at least 1 day |
| Durations.NegativeDurationInSeconds | src/eml_reader/thread_analyzer.py:571-572 | a negative duration is printed in seconds, with a minus sign exactly when it is at least one second |
| Durations.FormatDurationReadsBack | src/eml_reader/thread_analyzer.py:562-581 | the digits before the unit letter read back as the amount |
| Durations.DurationExamples | src/eml_reader/thread_analyzer.py:562-581 | 59 gives "59s", 3599 gives "59m", 7200 gives "2h", 90000 gives "1d" and -30 gives "-30s" |
| Timeline.SortByDate | src/eml_reader/thread_analyzer.py:497-500 | a permutation of the entries, ordered by date timestamp, with 0 for a missing Date |
| Timeline.InsertByDatePermutes | src/eml_reader/thread_analyzer.py:497-500 | inserting adds the one entry and loses none |
| Timeline.InsertByDateSorted | src/eml_reader/thread_analyzer.py:497-500 | inserting into a date-ordered list keeps it ordered |
| Timeline.SortByDateStable | src/eml_reader/thread_analyzer.py:497-500 | entries with the same timestamp keep their arrival order |
| Timeline.SortByDateOfSorted | src/eml_reader/thread_analyzer.py:497-500 | a list already in date order is returned unchanged |
| Timeline.ResponseBetween | src/eml_reader/thread_analyzer.py:529-560 | None exactly when a timestamp is falsy; otherwise the difference in seconds, formatted, quick iff under an hour, same day iff under a day |
| Timeline.EntryAt | src/eml_reader/thread_analyzer.py:505-525 | position is index + 1; latest only at the last index; is_root is the entry's own classification; response time None at index 0, otherwise from the previous entry |
| Timeline.TimelineShape | src/eml_reader/thread_analyzer.py:485-527 | one timeline entry per thread entry, numbered from 1, in date order, the last one latest, the first one without a response time |
| Timeline.TimelineResponsesNonNegative | src/eml_reader/thread_analyzer.py:497-551 | because of the sort, every response time in a timeline is non-negative |
| Timeline.SingleEntryTimeline | src/eml_reader/thread_analyzer.py:485-527 | a one-message thread has a one-entry timeline, whatever its date |
| ThreadRollup.RollupStep | src/eml_reader/thread_analyzer.py:606-617 | each entry adds its score and, after the first, its response time to the previous entry in arrival order |
| ThreadRollup.AverageResponse | src/eml_reader/thread_analyzer.py:620-629 | there is an average exactly when some response time exists and their sum is not 0 |
| ThreadRollup.ActivityLevelOf | src/eml_reader/thread_analyzer.py:635-656 | each level stated as an equivalence: inactive iff no messages; very active iff at least 10 messages averaging at least 70; active iff not very active and at least 5 averaging at least 50; moderate iff at least 3 and not that; low iff 1 or 2 messages |
| ThreadRollup.ActivityLevelMonotone | src/eml_reader/thread_analyzer.py:635-656 | a higher score total over the same messages never lowers the level |
| ThreadRollup.EngagementOf | src/eml_reader/thread_analyzer.py:583-633 | the message total is the length of the thread and the level is inactive exactly for an empty thread; for a non-empty thread the score total is `ScoreTotal`, the average response time is `AverageResponse` of the arrival-order response times and the level is `ActivityLevelOf` the count and total; an empty thread has total 0 and no average |
| ThreadRollup.PipelinedScoreBounds | src/eml_reader/thread_analyzer.py:606-611 | when every record carries its classification, the score total lies between 20 and 100 per message |
| ThreadRollup.UnpipelinedThreadAtMostModerate | src/eml_reader/thread_analyzer.py:606-611 | records without an attached classification all score 0, so such a thread is at most moderate |
| ThreadRollup.HighScoresVeryActive | src/eml_reader/thread_analyzer.py:647-648 | ten or more messages that each score at least 70 are very active |
| ThreadRollup.ScoresAtLeast | src/eml_reader/thread_analyzer.py:606-611 | scores of at least t each give a total of at least t per message |
| ThreadRollup.ResponseSecondsCount | src/eml_reader/thread_analyzer.py:613-617 | at most one response time per neighbouring pair, and exactly one when every timestamp is truthy |
| Threads.MaxDepth | src/eml_reader/thread_analyzer.py:438-440 | at least every entry's depth and equal to one of them |
| Threads.AllParticipants | src/eml_reader/thread_analyzer.py:431-433 | exactly the participants of the entries |
| Threads.LastRootId | src/eml_reader/thread_analyzer.py:442-444 | the Message-ID of the last root entry (None when that entry has none), and None when no entry is a root |
| Threads.MetaOfFirst | src/eml_reader/thread_analyzer.py:389-399 | creating a thread and updating it for its first entry gives the aggregate of that entry |
| Threads.MetaOfAppend | src/eml_reader/thread_analyzer.py:415-444 | the incremental update keeps the metadata equal to the aggregate over all entries |
| Threads.RegisterEffects | src/eml_reader/thread_analyzer.py:375-444 | the list grows by the entry at its end; the count is the list length; depth, participants and root id absorb the message's; subject and creation time are set only for a new thread; no other thread changes; keys stay equal |
| Threads.AddKeepsConsistent | src/eml_reader/thread_analyzer.py:375-444 | registering a classified entry keeps all five parts of the registry invariant |
| Threads.AllClassifiedAt | src/eml_reader/thread_analyzer.py:385-408 | every entry of a thread holds its message's classification into that thread |
| Threads.MatchingMembers | src/eml_reader/thread_analyzer.py:672-700 | a summary is in the result exactly when it is in the input and matches |
| Threads.MatchingEmptyQuery | src/eml_reader/thread_analyzer.py:683-700 | the empty query matches every thread |
| Threads.MatchPositions | src/eml_reader/thread_analyzer.py:681-700 | the matches sit at strictly increasing positions of the input, so the result is a subsequence of it |
| Threads.ThreadManager.constructor | src/eml_reader/thread_analyzer.py:369-373 | an empty, valid registry |
| Threads.ThreadManager.Add | src/eml_reader/thread_analyzer.py:375-413 | keeps the invariant; returns the classification's id; the new lists, metadata and order are exactly `Appended`, `MetaAfter` and the old order plus the id of a new thread; the thread then has a summary |
| Threads.ThreadManager.Store | src/eml_reader/thread_analyzer.py:388-411 | the thread is created if new, the entry appended and the metadata updated |
| Threads.ThreadManager.UpdateThreadMetadata | src/eml_reader/thread_analyzer.py:415-444 | only this thread's metadata changes, by exactly the update |
| Threads.ThreadManager.ThreadEngagement | src/eml_reader/thread_analyzer.py:583-633 | the loop computes the thread engagement of the entries |
| Threads.ThreadManager.Summary | src/eml_reader/thread_analyzer.py:446-483 | None exactly for an unknown thread; otherwise the summary of that thread with its engagement |
| Threads.TimelineEntries | src/eml_reader/thread_analyzer.py:505-527 | one entry per sorted message, each the entry for its position |
| Timeline.TimelineOfEntries | src/eml_reader/thread_analyzer.py:497-527 | a list holding, at every position, that position's entry is the timeline of the thread |
| Threads.ThreadManager.GetTimeline | src/eml_reader/thread_analyzer.py:485-527 | [] for an unknown thread, otherwise its timeline |
| Threads.ThreadManager.AllThreads | src/eml_reader/thread_analyzer.py:658-670 | the summaries of the threads in creation order |
| Threads.SummaryMatches | src/eml_reader/thread_analyzer.py:689-698 | true exactly when the lower-cased subject or some lower-cased participant contains the lower-cased query |
| Threads.ThreadManager.Search | src/eml_reader/thread_analyzer.py:672-700 | the summaries, in creation order, whose subject or some participant contains the query, case-insensitively |
| Threads.SummariesInIds | src/eml_reader/thread_analyzer.py:658-670 | one summary per registered id, naming it |
| Threads.ThreadManager.AllThreadsOnePerThread | src/eml_reader/thread_analyzer.py:658-670 | exactly one summary per thread, in creation order, no thread twice |
| Threads.ThreadManager.SummaryReflectsEntries | src/eml_reader/thread_analyzer.py:446-483 | the count equals the number of entries; created and subject come from the first; last activity from the last; the participants are exactly the entries'; the depth is the deepest entry's; the root id is that of the last root entry |
| Threads.ThreadManager.EntriesBelongToThread | src/eml_reader/thread_analyzer.py:385-408 | each entry of a thread was classified into that thread from its own message |
| Processor.ExtractDate | src/eml_reader/eml_processor.py:307-317 | absent without a truthy Date; present with no value when it does not parse; the parsed date otherwise |
| Processor.ExtractId | src/eml_reader/eml_processor.py:319-329 | present exactly for a truthy header, and then the header with the angle brackets around it removed |
| Processor.ExtractReferences | src/eml_reader/eml_processor.py:331-334 | present exactly for a truthy header; one entry per whitespace token, in order, each stripped of angle brackets |
| Processor.ExtractMetadata | src/eml_reader/eml_processor.py:290-336 | the date, the two ids and the references, each extracted as above |
| Processor.ReferencesAreBare | src/eml_reader/eml_processor.py:331-334 | no stored reference contains whitespace or starts or ends with an angle bracket |
| Processor.BlankReferencesIgnored | src/eml_reader/eml_processor.py:331-334 | a whitespace-only References header is stored as an empty list, which the thread id passes over |
| Processor.EmptyBracketIdThreadsBySubject | src/eml_reader/eml_processor.py:320-322 | a Message-ID of "<>" is stored as "", which is falsy, so a message with no other id header is threaded by subject |
| Processor.BaseRecord | src/eml_reader/eml_processor.py:123-141 | the record is built with the extracted metadata and with no classification or thread id yet |
| Processor.GetSummary | src/eml_reader/eml_processor.py:338-361 | each header or its placeholder ("No Subject", "Unknown Sender", "Unknown Recipient", "N/A", "N/A", "Unknown Date") when absent; the attachment count, with has_attachments iff it is positive; the HTML and text flags are the parts' truthiness; the size is the stored size, 0 when none is stored |
| Processor.SummaryAgreesWithIndicators | src/eml_reader/eml_processor.py:356-360 | the summary's attachment, HTML and text flags equal the classification's, and the size is the message size |
| Processor.GetThreadAnalysis | src/eml_reader/eml_processor.py:404-413 | the classification computed afresh, with the record's thread id |
| Processor.ReanalysisAgrees | src/eml_reader/eml_processor.py:143-149 | classifying a processed record again gives the classification it carries, whose id is its thread id |
| Processor.AppendKeepsPipelined | src/eml_reader/eml_processor.py:143-148 | filing a record that carries its classification keeps every stored record carrying its own |
| Processor.EmlProcessor.constructor | src/eml_reader/eml_processor.py:34-41 | a processor with a fresh, empty, valid thread manager |
| Processor.EmlProcessor.ExtractEmailData | src/eml_reader/eml_processor.py:113-151 | the returned record carries its classification and that classification's thread id; the manager filed it, before the thread id was attached, under that id; the invariant holds |
| Processor.EmlProcessor.ThreadScoresBounded | src/eml_reader/eml_processor.py:143-148 | every thread of the processor has a score total between 20 and 100 per message |
| Processor.EmlProcessor.GetThreadSummary | src/eml_reader/eml_processor.py:363-372 | the manager's summary, None exactly for an unknown thread |
| Processor.EmlProcessor.GetThreadTimeline | src/eml_reader/eml_processor.py:374-383 | the manager's timeline, [] for an unknown thread |
| Processor.EmlProcessor.GetAllThreads | src/eml_reader/eml_processor.py:385-391 | the manager's summaries, one per thread in creation order |
| Processor.EmlProcessor.SearchThreads | src/eml_reader/eml_processor.py:393-402 | the manager's search result |

## Left out

- MIME parsing is not modelled: `parse_eml_*`, `_extract_headers`, `_extract_body`, `_extract_attachments` and the `all` and `count` header keys. A parsed message is an input (`Processor.ParsedMessage`), and its size `len(str(message))` is a number in it.
- `email.utils.parsedate_to_datetime` is foreign code. Its outcome is an input (`Processor.DateParse`), and timestamps are whole seconds.
- ThreadAnalyzer.Hash12: MD5 is not modelled. A deterministic 12-digit hexadecimal function stands in for it, and no property relies on anything beyond its shape and determinism.
- Case folding covers the ASCII letters A-Z only; Python's `lower()` also maps non-ASCII letters. Whitespace is the set `str.isspace()` accepts below U+0100 (space, tab, the line and form separators U+000A-U+000D, U+001C-U+001F, U+0085, U+00A0); Python's `strip()`/`split()` also treat wider Unicode spaces such as U+2003 and U+3000 as whitespace, the model does not.
- Floating point is not modelled:
  - averages are kept as a total and a count, and the activity thresholds compare `total >= 70 * count`;
  - `round(avg, 2)` is not computed;
  - a duration average is formatted from the exact fraction, whereas the code truncates a float.
- The wall clock is a `now` parameter of `ThreadManager.Add`. The code calls `datetime.now()` three times in one registration; the model uses one reading for creation, `added_at` and last activity. `created` and `last_activity` are kept as numbers, not ISO strings.
- `thread_position` (always 1), the unused `thread_cache`, `response_time` (always None) and the policy object are not represented.
- The metadata keys `is_multipart`, `content_type`, `content_charset`, `content_encoding` and `mime_version` are not represented, since nothing in the threading core reads them.
- Participant lists are sets. The code returns `list(set(...))`, whose order Python leaves unspecified.
- In the code the stored entry and the returned record are the same dictionary, so setting `thread_id` also changes the stored entry. The model stores the record as it was when filed, without `thread_id`. No threading operation reads that key.
- Threads.ThreadManager.GetTimeline requires that a thread of two or more messages has no unparseable Date. Sorting a None timestamp against a number raises in the code, and that crash is not modelled.
- Threads.ThreadManager.Summary requires the registry's key agreement and non-empty lists. Without them the code would raise a KeyError or return None.
- Addresses.ExtractAddresses: for a general header value the contract states soundness (every result is a well-formed address) but not that every match `re.findall` reports is found; completeness is proved only for a value that is one address (`AddressFoundAsItself`) and for the worked example.
- Durations.FormatDuration: a float duration that falls between two whole seconds at a unit boundary is not modelled; durations are exact fractions.

## Findings

| source | as written | input that shows it | evidently intended | confidence | as-written member | corrected member |
|---|---|---|---|---|---|---|
| src/eml_reader/eml_processor.py:203-204 with src/eml_reader/thread_analyzer.py:300-302 | `_extract_body` stores `"html": None` when there is no HTML part, and `body.get("html", "")` then returns None, so `len(None)` raises `TypeError` | a plain-text message with no HTML part, e.g. body text "hello", content type text/plain | a missing part counts as length 0 | high, not executed | ThreadAnalyzer.TextOnlyBodyFailsAsWritten | ThreadAnalyzer.ContentLength |
