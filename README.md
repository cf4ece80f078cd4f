# Research agent core, modelled in Dafny

This project models the core of a LangGraph research agent. The agent works in rounds:
- it turns the conversation into a research topic;
- it fans out one web-search task per generated query;
- each task shortens the grounding URLs, extracts citations and splices citation markers into the answer text;
- a reflection step counts loops and decides whether to search again with follow-up queries;
- a final step deduplicates the gathered sources and appends a numbered source list.

All model calls are wrapped in a retry loop with exponential backoff for rate-limit errors. Web-search tasks share a cache of semaphores keyed by their parallelism limit.

The model has one module per component:

| module | file | models |
|---|---|---|
| `Topic` | `topic.dfy` | `get_research_topic` |
| `UrlResolution` | `urls.dfy` | `resolve_urls` |
| `Citations` | `citations.dfy` | `get_citations` |
| `Markers` | `markers.dfy` | `insert_citation_markers` |
| `Retry` | `retry.dfy` | `retry_with_exponential_backoff` |
| `Semaphores` | `semaphores.dfy` | `get_semaphore` and its module-level cache |
| `Routing` | `routing.dfy` | `continue_to_web_research`, `evaluate_research`, the state update of `reflection` |
| `WebResearch` | `web_research.dfy` | the tail of `web_research` |
| `Finalize` | `finalize.dfy` | the dedup and source list of `finalize_answer` |

`Wrappers` (an `Option` type) and `Text` (Python `str()` on integers, the substring test `in`) are shared helpers.

The functions in `utils.py` work by loops that build strings, lists and dicts. Each of them is a `method` with a loop. Its `ensures` ties the result to a recursive reference function, and the properties are proved as lemmas about that function.

Some Python behaviour is modelled explicitly:
- A Python dict keeps insertion order, and citation labels depend on it. The URL map is therefore an ordered sequence of `(url, short id)` pairs.
- A list index can be negative: `grounding_chunks[-1]` is the last chunk.
- A slice bound outside the string is clamped.
- `sorted(..., reverse=True)` is stable.

The semaphore cache is a `class` whose `map` field the method updates in place. The reflection node writes the loop counter into the state dict it was given, before calling the model. That dict is a `class` too, and the model shows that every retry increments the counter again.

Behaviour worth noting:
- A chunk index outside the chunk list is skipped. A negative index within range selects from the end, as Python list indexing does.
- A support with an end offset but no resolvable chunk still yields a citation, with no segments.
- The finalizer does not relabel the source records it keeps; it only numbers the lines of the appended source list.
- The finalizer deduplicates on the `"url"` entry of each source dict, not on the original URL. See Findings.

## Model

| member | source | states |
|---|---|---|
| Topic.GetResearchTopic | langgraph_backend/src/agent/utils.py:5-19 | the loop computes the research topic: a single message verbatim whatever its kind, otherwise each human message as `User: …` and each AI message as `Assistant: …` lines in order; no messages give the empty topic |
| Topic.Dialogue | langgraph_backend/src/agent/utils.py:14-18 | what is kept is exactly the human and AI messages of the conversation: every kept message comes from it and is human or AI, and every human or AI message of it is kept |
| Topic.DialogueAppend | langgraph_backend/src/agent/utils.py:14-18 | the kept messages stay in conversation order: filtering a concatenation filters each part in turn |
| Topic.TranscriptAppend | langgraph_backend/src/agent/utils.py:13-18 | the transcript of two concatenated conversations is the concatenation of their transcripts |
| Topic.TranscriptIgnoresOthers | langgraph_backend/src/agent/utils.py:14-18 | messages other than human and AI contribute nothing to a multi-message topic |
| Text.ContainsMeaning | langgraph_backend/src/agent/graph.py:59 | Python's `p in s` on strings holds exactly when `p` occurs at some index of `s` |
| Text.IntToString | langgraph_backend/src/agent/utils.py:34 | `str()` of a task id is non-empty and begins with `-` exactly for negative ids |
| Text.NatToStringInjective | langgraph_backend/src/agent/utils.py:34 | different ordinals print as different digit strings |
| UrlResolution.UrlsOf | langgraph_backend/src/agent/utils.py:28 | one entry per chunk, the chunk's URI or none |
| UrlResolution.ResolveUrls | langgraph_backend/src/agent/utils.py:22-36 | the loop builds the ordered map: one entry per first occurrence of a non-empty URL |
| UrlResolution.ResolvedPrefixKeys | langgraph_backend/src/agent/utils.py:31-34 | after k chunks the keys are exactly the non-empty URLs among them |
| UrlResolution.ResolvedPrefixKeyStep | langgraph_backend/src/agent/utils.py:31-34 | one more chunk adds its URL as a key exactly when that URL is non-empty and not among the earlier chunks |
| UrlResolution.ResolvedPrefixEntries | langgraph_backend/src/agent/utils.py:31-34 | after k chunks each entry pairs a URL with the short id of its first chunk, in first-occurrence order |
| UrlResolution.ResolvedPrefixOrder | langgraph_backend/src/agent/utils.py:31-34 | after k chunks the entries are in the order of their URLs' first chunks |
| UrlResolution.ResolvedKeys | langgraph_backend/src/agent/utils.py:30-36 | the keys are exactly the distinct non-empty URLs of the chunks |
| UrlResolution.ResolvedEntries | langgraph_backend/src/agent/utils.py:27-36 | each URL maps to `prefix + id + "-" + index of its first chunk`; entries are in first-occurrence order; there are no more entries than chunks |
| UrlResolution.ShortIdInjective | langgraph_backend/src/agent/utils.py:34 | within one task, different chunk indices give different short ids |
| UrlResolution.ResolvedDistinct | langgraph_backend/src/agent/utils.py:24-34 | a repeated URL gets one short id, and no two URLs share a short id |
| Citations.ListPosition | langgraph_backend/src/agent/utils.py:89 | a chunk index selects an element exactly when it lies in `-n..n-1`, negative indices counting from the end; any other index is the `IndexError` |
| Citations.KeyIndex | langgraph_backend/src/agent/utils.py:92-96 | the position of a URI in the map's key order is its first match; none means the URI is missing or is not a key |
| Citations.WithEnd | langgraph_backend/src/agent/utils.py:76-80 | what is kept is exactly the supports with an end offset: every kept support comes from the input and has one, and every input support that has one is kept |
| Citations.WithEndAppend | langgraph_backend/src/agent/utils.py:76-80 | the kept supports stay in input order: filtering a concatenation filters each part in turn |
| Citations.GetCitations | langgraph_backend/src/agent/utils.py:61-105 | the nested loops compute the citation list; no supports give no citations |
| Citations.CitationsAppend | langgraph_backend/src/agent/utils.py:73-104 | each support is handled independently and citations keep support order |
| Citations.CitationsMatchSupports | langgraph_backend/src/agent/utils.py:73-104 | one citation per support with an end offset, with start offset defaulting to 0 and that support's segments, even when none resolves |
| Citations.SegmentResolution | langgraph_backend/src/agent/utils.py:87-103 | a chunk index yields a segment exactly when it lies in `-len(chunks)..len(chunks)-1` (negative ones count from the end), that chunk has a URI, the URI is a key of the map and its short id is non-empty; the segment then holds label `len(map) - key position` (between 1 and the map size), the short id, the URI and the title |
| Citations.SegmentsOfMembers | langgraph_backend/src/agent/utils.py:86-103 | a support's segments are exactly the segments of its resolving chunk indices |
| Citations.ResolvedLabels | langgraph_backend/src/agent/utils.py:96 | with the map `resolve_urls` builds, the p-th discovered URL is found at key position p, so its label is `map size - p` |
| Citations.ThreeUrlsLabelledInReverse | langgraph_backend/src/agent/utils.py:96 | three distinct URLs a, b, c get labels 3, 2, 1 |
| Markers.SlicePosition | langgraph_backend/src/agent/utils.py:55 | the slice bound Python uses is within the text, and it is the offset itself when that is in range |
| Markers.InsertByKey | langgraph_backend/src/agent/utils.py:43-45 | one insertion step of the stable sort keeps every citation |
| Markers.InsertByKeyDescending | langgraph_backend/src/agent/utils.py:43-45 | one insertion step keeps the list in descending (end, start) order |
| Markers.SortedDesc | langgraph_backend/src/agent/utils.py:43-45 | the sorted list is a permutation of the input, in descending (end, start) order |
| Markers.SortedStable | langgraph_backend/src/agent/utils.py:43-45 | the sort is stable: the citations sharing any one key appear in the sorted list in their input order |
| Markers.BuildMarker | langgraph_backend/src/agent/utils.py:50-52 | the inner loop builds the marker of a citation, one ` [label]` per segment in segment order |
| Markers.InsertCitationMarkers | langgraph_backend/src/agent/utils.py:39-58 | the loops compute the text with every citation's marker spliced in, in sorted order; no citations leave the text unchanged |
| Markers.MarkerTotalSorted | langgraph_backend/src/agent/utils.py:43-52 | sorting does not change the total length of the markers |
| Markers.SpliceAllLength | langgraph_backend/src/agent/utils.py:48-56 | each splice adds exactly its marker's length, even for offsets outside the text |
| Markers.MarkedTextLength | langgraph_backend/src/agent/utils.py:39-58 | the marked text is exactly the original length plus all markers |
| Markers.MarkerLength | langgraph_backend/src/agent/utils.py:50-52 | a marker is three characters per segment plus its labels |
| Markers.WovenSplit | langgraph_backend/src/agent/utils.py:54-56 | the left-to-right reading of a marked text reproduces the original text up to the first end offset |
| Markers.SpliceAllWoven | langgraph_backend/src/agent/utils.py:48-56 | splicing from the largest offset down is the same as weaving the markers into the text left to right |
| Markers.WovenUnmarked | langgraph_backend/src/agent/utils.py:54-56 | the woven reading without markers is the original text |
| Markers.MarkersAtEndOffsets | langgraph_backend/src/agent/utils.py:39-58 | with offsets inside the text, each marker sits at its citation's end offset, and removing the markers gives back the original text |
| Markers.SortedDescIdentity | langgraph_backend/src/agent/utils.py:43-45 | a list already in descending order is left as it is |
| Markers.PreSortedInput | langgraph_backend/src/agent/utils.py:43-56 | for an already sorted input, the markers are spliced in input order |
| Markers.DescendingUnique | langgraph_backend/src/agent/utils.py:43-45 | two descending permutations of the same citations are equal when a key picks out one citation |
| Markers.MarkedTextOrderIndependent | langgraph_backend/src/agent/utils.py:39-58 | when a key picks out one citation, the input order of the citations does not change the marked text |
| Markers.TiedCitationsLaterFirst | langgraph_backend/src/agent/utils.py:43-56 | of two citations with the same offsets, the later one's marker comes first in the text |
| Markers.DescendingBands | langgraph_backend/src/agent/utils.py:43-45 | in the sorted list the citations tied with any one key form one contiguous run, between those with larger and those with smaller keys |
| Markers.TiedCitationsAdjacent | langgraph_backend/src/agent/utils.py:43-56 | in a list of any length, the markers of all citations with `c`'s (end, start) key occur side by side, the one latest in the input first, starting exactly at `c`'s end offset plus the marker lengths of every citation sorted below the tie |
| Retry.TransientMeaning | langgraph_backend/src/agent/graph.py:59 | an error is a rate limit exactly when "429" or "ResourceExhausted" occurs somewhere in its text |
| Retry.TransientExamples | langgraph_backend/src/agent/graph.py:59 | "Error 429" and "ResourceExhausted: quota" are rate-limit errors |
| Retry.TimeoutNotTransient | langgraph_backend/src/agent/graph.py:59 | "timeout" is not a rate-limit error, so it is re-raised at once |
| Retry.BackoffWait | langgraph_backend/src/agent/graph.py:64-67 | the wait never exceeds `max_wait` or `multiplier * 2**attempt + 1`, and it is at least `multiplier * 2**attempt` unless capped |
| Retry.RetryWithBackoff | langgraph_backend/src/agent/graph.py:52-79 | the attempt loop ends as the recursive definition `RetryFrom` says, after that many calls, with one backoff wait per retry |
| Retry.RetryEndsAtDecisiveAttempt | langgraph_backend/src/agent/graph.py:55-78 | after rate-limit failures, the first attempt that succeeds, fails otherwise or is the last decides the outcome |
| Retry.FirstSuccessOrFatalErrorEndsRetry | langgraph_backend/src/agent/graph.py:55-78 | the first success is returned at once, and an error other than a rate limit propagates at once |
| Retry.AlwaysTransientExhaustsRetries | langgraph_backend/src/agent/graph.py:59-61 | persistent rate-limit errors lead to exactly `max_retries` calls, then the last error is re-raised |
| Retry.RetryCallBounds | langgraph_backend/src/agent/graph.py:55-79 | at most `max_retries` calls; with `max_retries <= 0` there are none and the result is `None`; otherwise every call before the last was rate-limited and the last decides |
| Retry.DefaultRetryCallsAtMostFive | langgraph_backend/src/agent/graph.py:44 | with the defaults there are one to five calls, and the result is never `None` |
| Retry.DefaultWaitsUncapped | langgraph_backend/src/agent/graph.py:44-67 | with the defaults no wait reaches the cap: the wait is `2**attempt + jitter`, at most 9 seconds |
| Semaphores.SemaphoreCache.constructor | langgraph_backend/src/agent/graph.py:115 | the cache starts empty |
| Semaphores.SemaphoreCache.GetSemaphore | langgraph_backend/src/agent/graph.py:117-121 | get-or-insert: a cached semaphore is returned with the cache unchanged, otherwise a fresh one with that many permits is added under that key only |
| Semaphores.SameLimitSameSemaphore | langgraph_backend/src/agent/graph.py:117-121 | two requests for the same limit return the identical semaphore, and other keys' entries are untouched |
| Routing.FanOutDispatch | langgraph_backend/src/agent/graph.py:270-279 | one `web_research` send per query, in order, with ids `base .. base+n-1` strictly increasing |
| Routing.ContinueToWebResearch | langgraph_backend/src/agent/graph.py:157-165 | one `web_research` send per generated query, in order, query i with id i |
| Routing.EvaluateResearch | langgraph_backend/src/agent/graph.py:254-279 | routes to `finalize_answer` exactly when research is sufficient or the loop count (default 0) has reached the limit (state value, else configuration); otherwise sends each follow-up query with id `number_of_ran_queries + i` |
| Routing.LimitReachedFinalizes | langgraph_backend/src/agent/graph.py:261-268 | one worked example, not a general fact: with count 2, limit 2 and insufficient research it finalizes, and a state limit of 3 overrides the configured 2 and searches again |
| Routing.ResearchState.ReflectAttempt | langgraph_backend/src/agent/graph.py:218-251 | the counter in the state becomes old count (default 0) plus one, even when the model call fails; success returns the verdict with that count and the number of queries run |
| Routing.ResearchState.RetriedReflection | langgraph_backend/src/agent/graph.py:217-251 | under the retry wrapper, the state's counter grows by the number of calls, and a success reports that count |
| Routing.ResearchLoopEnd | langgraph_backend/src/agent/graph.py:221-279 | the research loop ends after between 1 and `max(1, limit - count)` reflections; every round before the last was insufficient, under the limit and asked for follow-up queries; the last one reaches `finalize_answer` exactly when it is sufficient or at the limit, and otherwise stops with no follow-up query to run |
| Routing.NeverSufficientRunsToLimit | langgraph_backend/src/agent/graph.py:261-279 | with research never sufficient and every verdict asking for at least one follow-up query, exactly `max(1, limit - count)` reflections run and the loop then reaches `finalize_answer` |
| Routing.NoFollowUpsStalls | langgraph_backend/src/agent/graph.py:267-279 | an insufficient verdict under the limit with no follow-up queries dispatches nothing, so the loop stops there without reaching `finalize_answer` |
| WebResearch.WebResearchTail | langgraph_backend/src/agent/graph.py:201-214 | the update holds the citations' segments as sources, the query, and the marked answer text |
| WebResearch.FlattenMembers | langgraph_backend/src/agent/graph.py:208 | a source is gathered exactly when it is a segment of some citation |
| WebResearch.GatheredSourcesResolve | langgraph_backend/src/agent/graph.py:201-208 | every gathered source names a non-empty URL of the task's chunks, that URL's short id for the task, and its label |
| Finalize.DedupSources | langgraph_backend/src/agent/graph.py:312-319 | the loop keeps the first source for each truthy key, in input order; no sources give none |
| Finalize.SourceLines | langgraph_backend/src/agent/graph.py:321-325 | the source list is empty exactly when no source is kept; it starts with `1 - ` and the first key, and ends with the line numbered K for the last of K sources |
| Finalize.SourceLinesNumbered | langgraph_backend/src/agent/graph.py:323-325 | the source list is `"\n".join` of one line per kept source, line i reading `i - <key>` for i = 1, 2, 3, ... in order |
| Finalize.FinalText | langgraph_backend/src/agent/graph.py:321-327 | the answer is a prefix of the final text, the header follows it when any source is kept, and the text is the bare answer exactly when none is |
| Finalize.FinalizeAnswer | langgraph_backend/src/agent/graph.py:309-332 | as written, deduplicated on `"url"`; the answer is a prefix of the final text, which equals the answer exactly when no source is kept |
| Finalize.FinalizeAnswerByValue | langgraph_backend/src/agent/graph.py:312-327 | deduplicated on `"value"`; a source section is appended exactly when some source carries a URL |
| Finalize.FirstSourcesKept | langgraph_backend/src/agent/graph.py:315-319 | every kept source has a truthy key and comes from the input |
| Finalize.FirstSourcesAreFirst | langgraph_backend/src/agent/graph.py:315-319 | every kept source is the first input source with its key |
| Finalize.FirstSourcesDistinct | langgraph_backend/src/agent/graph.py:315-319 | no key is kept twice |
| Finalize.FirstSourcesKeys | langgraph_backend/src/agent/graph.py:315-319 | every key in the input is kept |
| Finalize.DistinctKeyCount | langgraph_backend/src/agent/graph.py:315-319 | sources whose keys are pairwise different carry as many distinct keys as there are sources |
| Finalize.DedupKeepsOnePerKey | langgraph_backend/src/agent/graph.py:312-319 | exactly one source per distinct key of the input, none twice, each the first input source with its key |
| Finalize.NoKeysNoSources | langgraph_backend/src/agent/graph.py:317 | sources none of which has the key are all dropped |
| Finalize.SegmentSourcesDropped | langgraph_backend/src/agent/graph.py:317 | sources gathered by web research have no `"url"` entry, so all are dropped and the answer is returned unchanged |
| Finalize.SegmentValues | langgraph_backend/src/agent/graph.py:317 | the `"value"` entries of gathered sources are exactly the URLs the segments carry |
| Finalize.SegmentSourcesListedByValue | langgraph_backend/src/agent/graph.py:312-327 | keyed on `"value"`, one source per distinct cited URL is listed, and a section is appended exactly when some source was gathered |
| Finalize.DedupExample | langgraph_backend/src/agent/graph.py:312-319 | sources with URLs a, b, a reduce to a, b |

## Left out

- The model calls, prompts, `Configuration`, dates and the `google_search` tool are not modelled. Their results are parameters: messages, query lists, verdicts, answer text, grounding chunks and supports.
- The graph construction and the LangGraph runtime are not modelled: node wiring, reducers that merge partial updates, and concurrent execution of sends. `state.py` and `configuration.py` are not part of this model.
- `asyncio.sleep` is not modelled; the waits are returned as a list instead. Logging and `get_server_logger` are not modelled either.
- `random.uniform` is not modelled; the jitter of each retry is a parameter in [0, 1]. Floats are modelled as reals.
- Semaphore permits and scheduling are not modelled; a `Semaphore` is reduced to its permit count. `asyncio.Semaphore` raising `ValueError` for a negative count is not modelled.
- `generate_query` is not modelled beyond its use of the research topic, as it is only a model call.
- The command-line client `cli_research.py` and the frontend are not modelled; they are clients of the graph.
- Topic.GetResearchTopic: message content is modelled as a string. Lists of content parts are left out.
- Citations.GetCitations: a `start_index` key that is present but set to `None` is not modelled. Python keeps `None`. The sort key `(end_index, start_index)` compares `start_index` only between citations with the same end offset, so the sort can fail only when another citation shares that end offset with a different `start_index`; otherwise the `None` citation is marked like any other.
- UrlResolution.ResolveUrls: a chunk whose `"web"` entry is present but is not a dict makes `.get("uri")` raise `AttributeError` outside any handler (utils.py:28), which aborts the search task before `get_citations` runs. Chunks are modelled as records whose `web` entry is either missing or a dict, so this failure is not modelled. In `get_citations` the same error is caught and the chunk skipped, which the model does too.
- Markers.MarkersAtEndOffsets: this and the other `Woven` lemmas, Markers.TiedCitationsLaterFirst and Markers.TiedCitationsAdjacent assume every end offset lies inside the text. Outside it, a clamped splice can land inside an earlier marker. The length lemmas and Markers.MarkedTextOrderIndependent hold for any offsets.
- Markers.MarkedTextOrderIndependent: stated only when citations with equal offsets are equal. For ties, Markers.TiedCitationsAdjacent (any number of citations) and Markers.TiedCitationsLaterFirst (exactly two) state the order.
- Routing.ResearchState.RetriedReflection: the backoff waits are not recorded. Retry.RetryWithBackoff covers them.
- Routing.ResearchLoopEnd: models one reflection per round with a single attempt, and the routing decision with the number of follow-up queries; the web searches of each round are not modelled.
- Routing.NeverSufficientRunsToLimit: the exact count and the arrival at `finalize_answer` assume every verdict asks for at least one follow-up query; Routing.NoFollowUpsStalls covers the other case.
- Routing.EvaluateResearch: an empty follow-up list sends nothing, exactly as the list comprehension does. Routing.ResearchLoopEnd takes that as the end of the run, since no node is left to run; LangGraph's scheduler itself is not modelled.

## Findings

| source | as written | input that shows it | evidently intended | confidence | as-written member | corrected member |
|---|---|---|---|---|---|---|
| langgraph_backend/src/agent/graph.py:317 | the dedup reads `source.get("url")`, but the sources gathered by `web_research` are segment dicts with keys `label`, `short_url`, `value` and `title` (utils.py:94-100) | any run whose searches cite at least one URL: every source is dropped and no source list is appended | deduplicate on the URL the segment carries (`"value"`), keeping one source per distinct URL and listing them | high that no gathered source has a `"url"` key; medium that `"value"` is the key meant; not executed | Finalize.SegmentSourcesDropped | Finalize.SegmentSourcesListedByValue |
