/**
 * The pure tail of `web_research`: shorten the grounding URLs, extract citations, insert
 * markers into the answer text, and return the partial state update. The model call that
 * produces the text, chunks and supports is left out; they are parameters here.
 */
module WebResearch {
  import opened Wrappers
  import opened Text
  import opened UrlResolution
  import opened Citations
  import opened Markers

  /** The partial update one search task returns. */
  datatype WebResearchUpdate = WebResearchUpdate(
    sourcesGathered: seq<Segment>,
    searchQuery: seq<string>,
    webResearchResult: seq<string>)

  /** Every citation's segments, concatenated in citation order. */
  function Flatten(cs: seq<Citation>): seq<Segment> {
    if cs == [] then [] else Flatten(cs[..|cs| - 1]) + cs[|cs| - 1].segments
  }

  /** Lines 201-214 of `web_research`, for task `id` and query `query`, given the model's
      answer text and grounding metadata. */
  method WebResearchTail(id: int, query: string, content: string, chunks: seq<Chunk>, supports: seq<Support>)
    returns (u: WebResearchUpdate)
    ensures var cs := CitationsOf(supports, chunks, ResolvedMap(UrlsOf(chunks), id));
      && u.sourcesGathered == Flatten(cs)
      && u.searchQuery == [query]
      && u.webResearchResult == [MarkedText(content, cs)]
  {
    var resolvedUrls := ResolveUrls(chunks, id);
    var citations := GetCitations(supports, chunks, resolvedUrls);
    var modifiedText := InsertCitationMarkers(content, citations);
    var sourcesGathered := Flatten(citations);
    u := WebResearchUpdate(sourcesGathered, [query], [modifiedText]);
  }

  /** A source is gathered exactly when it is a segment of some citation; the sources are
      as many as all citations' segments together. */
  lemma {:induction false} FlattenMembers(cs: seq<Citation>)
    ensures forall seg :: seg in Flatten(cs) <==> exists k :: 0 <= k < |cs| && seg in cs[k].segments
  {
    if cs != [] {
      var init := cs[..|cs| - 1];
      FlattenMembers(init);
      forall seg | seg in Flatten(cs)
        ensures exists k :: 0 <= k < |cs| && seg in cs[k].segments
      {
        if seg in Flatten(init) {
          var k :| 0 <= k < |init| && seg in init[k].segments;
          assert cs[k] == init[k];
        }
      }
      forall seg, k | 0 <= k < |cs| && seg in cs[k].segments
        ensures seg in Flatten(cs)
      {
        if k < |cs| - 1 {
          assert cs[k] == init[k];
        }
      }
    }
  }

  /** Every source a search task gathers refers to a usable URL of its own grounding
      chunks, carries the short id of that URL's first chunk for this task, and a label in
      1..n (n the number of distinct URLs): n minus the URL's rank in first-occurrence order. */
  lemma GatheredSourcesResolve(id: int, chunks: seq<Chunk>, supports: seq<Support>)
    ensures var urls := UrlsOf(chunks);
      var m := ResolvedMap(urls, id);
      forall seg :: seg in Flatten(CitationsOf(supports, chunks, m)) ==>
        && seg.value != "" && Some(seg.value) in urls
        && seg.shortUrl == ShortId(id, FirstIndex(urls, seg.value))
        && exists p :: 0 <= p < |m| && m[p].0 == seg.value && seg.labelText == Label(|m|, p)
  {
    var urls := UrlsOf(chunks);
    var m := ResolvedMap(urls, id);
    var cs := CitationsOf(supports, chunks, m);
    FlattenMembers(cs);
    CitationsMatchSupports(supports, chunks, m);
    ResolvedEntries(urls, id);
    ResolvedKeys(urls, id);
    forall seg | seg in Flatten(cs)
      ensures && seg.value != "" && Some(seg.value) in urls
              && seg.shortUrl == ShortId(id, FirstIndex(urls, seg.value))
              && exists p :: 0 <= p < |m| && m[p].0 == seg.value && seg.labelText == Label(|m|, p)
    {
      var k :| 0 <= k < |cs| && seg in cs[k].segments;
      var w := WithEnd(supports);
      SegmentsOfMembers(w[k].chunkIndices, chunks, m);
      var ind :| ind in w[k].chunkIndices && SegmentFor(ind, chunks, m) == Some(seg);
      SegmentResolution(ind, chunks, m);
      var p := KeyIndex(m, chunks[ListPosition(ind, |chunks|).value].uri).value;
      assert m[p].0 in Keys(m);
    }
  }
}
