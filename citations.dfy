/**
 * Citation extraction (`get_citations`): grounding supports (a text span plus the indices
 * of the chunks backing it) become citations whose segments carry a label, the short id
 * and the original URI of each backing chunk that resolves through the URL map.
 */
module Citations {
  import opened Wrappers
  import opened Text
  import opened UrlResolution

  /** A grounding support: its segment's offsets (either may be absent) and chunk indices. */
  datatype Support = Support(startIndex: Option<int>, endIndex: Option<int>, chunkIndices: seq<int>)

  /** One resolved reference: `label` (as `labelText`), `short_url`, `value` (the original URI) and `title`. */
  datatype Segment = Segment(labelText: string, shortUrl: string, value: string, title: Option<string>)

  datatype Citation = Citation(startIndex: int, endIndex: int, segments: seq<Segment>)

  /** The element `xs[ind]` selects in a Python list of length `n`: negative indices count
      from the end, and `None` stands for the `IndexError` of any other index. */
  function ListPosition(ind: int, n: nat): (r: Option<nat>)
    ensures r.Some? <==> 0 <= ind + n && ind < n
    ensures r.Some? ==> r.value < n && (r.value == ind || r.value == ind + n)
  {
    if 0 <= ind < n then Some(ind) else if 0 <= ind + n && ind < 0 then Some(ind + n) else None
  }

  /** The position of `u` in the key order of `m`, `None` when `u` is no key. */
  function KeyIndex(m: UrlMap, u: Option<string>): (r: Option<nat>)
    ensures r.Some? ==> r.value < |m| && u == Some(m[r.value].0)
    ensures r.Some? ==> forall j :: 0 <= j < r.value ==> m[j].0 != u.value
    ensures r.None? ==> u.None? || u.value !in Keys(m)
  {
    if m == [] then None
    else if u == Some(m[0].0) then Some(0)
    else
      var r := KeyIndex(m[1..], u);
      KeysCons(m);
      if r.Some? then Some(r.value + 1) else None
  }

  lemma KeysCons(m: UrlMap)
    requires m != []
    ensures Keys(m) == [m[0].0] + Keys(m[1..])
  {
  }

  /** The label of the URL at key position `p`: the map size minus `p`, printed. */
  function Label(n: nat, p: nat): string
    requires p < n
  {
    NatToString(n - p)
  }

  /** The segment chunk index `ind` contributes, if it is in range and its URI resolves. */
  function SegmentFor(ind: int, chunks: seq<Chunk>, m: UrlMap): Option<Segment> {
    match ListPosition(ind, |chunks|)
    case None => None
    case Some(i) =>
      match KeyIndex(m, chunks[i].uri)
      case None => None
      case Some(p) =>
        if m[p].1 != "" then Some(Segment(Label(|m|, p), m[p].1, chunks[i].uri.value, chunks[i].title))
        else None
  }

  /** The segments of a support, in the order of its chunk indices. */
  function SegmentsOf(indices: seq<int>, chunks: seq<Chunk>, m: UrlMap): seq<Segment> {
    if indices == [] then []
    else
      SegmentsOf(indices[..|indices| - 1], chunks, m)
      + (match SegmentFor(indices[|indices| - 1], chunks, m)
         case Some(seg) => [seg]
         case None => [])
  }

  /** The citation of one support: none without an end offset. */
  function CitationFor(s: Support, chunks: seq<Chunk>, m: UrlMap): Option<Citation> {
    if s.endIndex.None? then None
    else Some(Citation(s.startIndex.GetOr(0), s.endIndex.value, SegmentsOf(s.chunkIndices, chunks, m)))
  }

  /** The citations of all supports, in support order. */
  function CitationsOf(supports: seq<Support>, chunks: seq<Chunk>, m: UrlMap): seq<Citation> {
    if supports == [] then []
    else
      CitationsOf(supports[..|supports| - 1], chunks, m)
      + (match CitationFor(supports[|supports| - 1], chunks, m)
         case Some(c) => [c]
         case None => [])
  }

  /** The supports that carry an end offset, in order. */
  function WithEnd(supports: seq<Support>): (r: seq<Support>)
    ensures |r| <= |supports|
    ensures forall s :: s in r ==> s in supports && s.endIndex.Some?
    ensures forall s :: s in supports && s.endIndex.Some? ==> s in r
  {
    if supports == [] then []
    else
      var last := supports[|supports| - 1];
      WithEnd(supports[..|supports| - 1]) + (if last.endIndex.Some? then [last] else [])
  }

  /** Filtering keeps order: the supports with an end offset of a concatenation are those
      of each part, in turn. */
  lemma {:induction false} WithEndAppend(a: seq<Support>, b: seq<Support>)
    ensures WithEnd(a + b) == WithEnd(a) + WithEnd(b)
    decreases |b|
  {
    if b == [] {
      assert a + b == a;
    } else {
      var b' := b[..|b| - 1];
      assert (a + b)[..|a + b| - 1] == a + b';
      assert (a + b)[|a + b| - 1] == b[|b| - 1];
      WithEndAppend(a, b');
    }
  }

  /** The nested loops of `get_citations`. */
  method GetCitations(supports: seq<Support>, chunks: seq<Chunk>, m: UrlMap) returns (citations: seq<Citation>)
    ensures citations == CitationsOf(supports, chunks, m)
    ensures supports == [] ==> citations == []
  {
    citations := [];
    if supports == [] {
      return;
    }
    for k := 0 to |supports|
      invariant citations == CitationsOf(supports[..k], chunks, m)
    {
      assert supports[..k + 1][..k] == supports[..k];
      var support := supports[k];
      var startIndex := support.startIndex.GetOr(0);
      if support.endIndex.None? {
        continue;
      }
      var endIndex := support.endIndex.value;
      var segments := [];
      var indices := support.chunkIndices;
      for j := 0 to |indices|
        invariant segments == SegmentsOf(indices[..j], chunks, m)
      {
        assert indices[..j + 1][..j] == indices[..j];
        var pos := ListPosition(indices[j], |chunks|);
        if pos.Some? {
          var chunk := chunks[pos.value];
          var uri := chunk.uri;
          var title := chunk.title;
          var p := KeyIndex(m, uri);
          if p.Some? && m[p.value].1 != "" {
            segments := segments + [Segment(Label(|m|, p.value), m[p.value].1, uri.value, title)];
          }
        }
      }
      assert indices[..|indices|] == indices;
      citations := citations + [Citation(startIndex, endIndex, segments)];
    }
    assert supports[..|supports|] == supports;
  }

  /** Citation extraction distributes over concatenation of the support list, so every
      support is handled on its own and the output keeps support order. */
  lemma {:induction false} CitationsAppend(a: seq<Support>, b: seq<Support>, chunks: seq<Chunk>, m: UrlMap)
    ensures CitationsOf(a + b, chunks, m) == CitationsOf(a, chunks, m) + CitationsOf(b, chunks, m)
    decreases |b|
  {
    if b == [] {
      assert a + b == a;
    } else {
      var b' := b[..|b| - 1];
      assert (a + b)[..|a + b| - 1] == a + b';
      assert (a + b)[|a + b| - 1] == b[|b| - 1];
      CitationsAppend(a, b', chunks, m);
    }
  }

  /** Exactly one citation per support that has an end offset, in support order, with the
      start offset defaulting to 0 and the segments of that support's chunk indices; a
      support none of whose chunks resolves still yields a citation, with no segments. */
  lemma {:induction false} CitationsMatchSupports(supports: seq<Support>, chunks: seq<Chunk>, m: UrlMap)
    ensures var cs := CitationsOf(supports, chunks, m);
      var w := WithEnd(supports);
      && |cs| == |w|
      && forall k :: 0 <= k < |cs| ==>
           cs[k] == Citation(w[k].startIndex.GetOr(0), w[k].endIndex.value, SegmentsOf(w[k].chunkIndices, chunks, m))
  {
    if supports != [] {
      CitationsMatchSupports(supports[..|supports| - 1], chunks, m);
    }
  }

  /** A segment exists exactly when the chunk index lies in `-|chunks|..|chunks|-1` (a
      negative one counts from the end), that chunk has a URI, the URI is a key of the map,
      and its short id is non-empty. The segment then carries that short id, the URI itself,
      the chunk's title, and as label the map size minus the URI's key position, which lies
      in 1..|m|. */
  lemma SegmentResolution(ind: int, chunks: seq<Chunk>, m: UrlMap)
    ensures var seg := SegmentFor(ind, chunks, m);
      var n := |chunks|;
      && (seg.Some? <==>
            && -n <= ind < n
            && var chunk := chunks[if ind < 0 then ind + n else ind];
            && chunk.uri.Some?
            && chunk.uri.value in Keys(m)
            && m[KeyIndex(m, chunk.uri).value].1 != "")
      && (seg.Some? ==>
            var chunk := chunks[if ind < 0 then ind + n else ind];
            var p := KeyIndex(m, chunk.uri).value;
            && Some(seg.value.value) == chunk.uri
            && seg.value.title == chunk.title
            && seg.value.shortUrl == m[p].1
            && seg.value.value == m[p].0
            && seg.value.labelText == Label(|m|, p)
            && 1 <= |m| - p <= |m|)
  {
    var pos := ListPosition(ind, |chunks|);
    if pos.Some? {
      var chunk := chunks[pos.value];
      var kp := KeyIndex(m, chunk.uri);
      if kp.Some? {
        assert chunk.uri.value in Keys(m) by {
          assert Keys(m)[kp.value] == chunk.uri.value;
        }
      }
      if kp.Some? && m[kp.value].1 != "" {
        var seg := Segment(Label(|m|, kp.value), m[kp.value].1, chunk.uri.value, chunk.title);
        assert SegmentFor(ind, chunks, m) == Some(seg);
      } else {
        assert SegmentFor(ind, chunks, m) == None;
      }
    }
  }

  /** The segments of a support are the resolving chunk indices' segments and nothing else. */
  lemma {:induction false} SegmentsOfMembers(indices: seq<int>, chunks: seq<Chunk>, m: UrlMap)
    ensures var segs := SegmentsOf(indices, chunks, m);
      && |segs| <= |indices|
      && (forall ind :: ind in indices && SegmentFor(ind, chunks, m).Some? ==> SegmentFor(ind, chunks, m).value in segs)
      && (forall seg :: seg in segs ==> exists ind :: ind in indices && SegmentFor(ind, chunks, m) == Some(seg))
  {
    if indices != [] {
      var init := indices[..|indices| - 1];
      SegmentsOfMembers(init, chunks, m);
      assert indices == init + [indices[|indices| - 1]];
      forall seg | seg in SegmentsOf(indices, chunks, m)
        ensures exists ind :: ind in indices && SegmentFor(ind, chunks, m) == Some(seg)
      {
        if seg in SegmentsOf(init, chunks, m) {
          var ind :| ind in init && SegmentFor(ind, chunks, m) == Some(seg);
          assert ind in indices;
        } else {
          assert SegmentFor(indices[|indices| - 1], chunks, m) == Some(seg);
        }
      }
    }
  }

  /** With the map `resolve_urls` builds, each URL's key position is its rank in
      first-occurrence order, so labels run from |m| for the first-discovered URL down to 1
      for the last-discovered one. */
  lemma ResolvedLabels(urls: seq<Option<string>>, id: int)
    ensures var m := ResolvedMap(urls, id);
      forall p :: 0 <= p < |m| ==> KeyIndex(m, Some(m[p].0)) == Some(p) && Label(|m|, p) == NatToString(|m| - p)
  {
    var m := ResolvedMap(urls, id);
    ResolvedDistinct(urls, id);
    forall p | 0 <= p < |m|
      ensures KeyIndex(m, Some(m[p].0)) == Some(p)
    {
      var r := KeyIndex(m, Some(m[p].0));
      assert m[p].0 in Keys(m);
    }
  }

  /** The map `resolve_urls` builds for three distinct URLs a, b, c in task 0. */
  lemma ThreeUrlMap(chunks: seq<Chunk>)
    requires chunks == [Chunk(Some("a"), None), Chunk(Some("b"), None), Chunk(Some("c"), None)]
    ensures ResolvedMap(UrlsOf(chunks), 0) == [("a", ShortId(0, 0)), ("b", ShortId(0, 1)), ("c", ShortId(0, 2))]
  {
    var urls := UrlsOf(chunks);
    assert urls == [Some("a"), Some("b"), Some("c")];
    assert IsFirstUrl(urls, 0) && IsFirstUrl(urls, 1) && IsFirstUrl(urls, 2);
    assert ResolvedPrefix(urls, 0, 1) == [("a", ShortId(0, 0))];
    assert ResolvedPrefix(urls, 0, 2) == [("a", ShortId(0, 0)), ("b", ShortId(0, 1))];
  }

  /** In that map a, b and c are found at key positions 0, 1 and 2. */
  lemma ThreeUrlKeys(m: UrlMap)
    requires m == [("a", ShortId(0, 0)), ("b", ShortId(0, 1)), ("c", ShortId(0, 2))]
    ensures KeyIndex(m, Some("a")) == Some(0)
    ensures KeyIndex(m, Some("b")) == Some(1)
    ensures KeyIndex(m, Some("c")) == Some(2)
  {
    assert m[1..] == [("b", ShortId(0, 1)), ("c", ShortId(0, 2))];
    assert m[1..][1..] == [("c", ShortId(0, 2))];
    assert KeyIndex(m[1..][1..], Some("c")) == Some(0);
    assert KeyIndex(m[1..], Some("c")) == Some(1);
  }

  /** The segment of an in-range chunk whose URI sits at key position `p` with a short id. */
  lemma SegmentAt(ind: nat, chunks: seq<Chunk>, m: UrlMap, p: nat)
    requires ind < |chunks| && chunks[ind].uri.Some?
    requires KeyIndex(m, chunks[ind].uri) == Some(p)
    requires |m[p].1| > 0
    ensures SegmentFor(ind, chunks, m) == Some(Segment(Label(|m|, p), m[p].1, chunks[ind].uri.value, chunks[ind].title))
  {
  }

  /** Three distinct URLs discovered in the order a, b, c are labelled 3, 2 and 1. */
  lemma ThreeUrlsLabelledInReverse()
    ensures var chunks := [Chunk(Some("a"), None), Chunk(Some("b"), None), Chunk(Some("c"), None)];
      var segs := SegmentsOf([0, 1, 2], chunks, ResolvedMap(UrlsOf(chunks), 0));
      |segs| == 3 && segs[0].labelText == "3" && segs[1].labelText == "2" && segs[2].labelText == "1"
  {
    var chunks := [Chunk(Some("a"), None), Chunk(Some("b"), None), Chunk(Some("c"), None)];
    ThreeUrlMap(chunks);
    var m := ResolvedMap(UrlsOf(chunks), 0);
    ThreeUrlKeys(m);
    SegmentAt(0, chunks, m, 0);
    SegmentAt(1, chunks, m, 1);
    SegmentAt(2, chunks, m, 2);
    var s0, s1, s2 := SegmentFor(0, chunks, m).value, SegmentFor(1, chunks, m).value, SegmentFor(2, chunks, m).value;
    assert s0.labelText == "3" by {
      assert Label(3, 0) == NatToString(3);
    }
    assert s1.labelText == "2" by {
      assert Label(3, 1) == NatToString(2);
    }
    assert s2.labelText == "1" by {
      assert Label(3, 2) == NatToString(1);
    }
    assert SegmentsOf([0, 1, 2], chunks, m) == [s0, s1, s2] by {
      var idx := [0, 1, 2];
      assert idx[..2] == [0, 1] && idx[..2][..1] == [0] && idx[..2][..1][..0] == [];
      assert SegmentsOf([0], chunks, m) == [s0];
      assert SegmentsOf([0, 1], chunks, m) == [s0, s1];
    }
  }
}
