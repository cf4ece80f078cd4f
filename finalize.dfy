/**
 * Source deduplication and the source section of `finalize_answer`. The answer text comes
 * from the model and is a parameter. Sources are state dicts and deduplication is keyed on
 * one of their entries: as written that is `"url"`, which the segments built during web
 * research do not have (they keep the URL under `"value"`), so such sources are all
 * dropped; keyed on `"value"`, each distinct cited URL is listed once.
 */
module Finalize {
  import opened Wrappers
  import opened Text
  import opened Citations

  /** A gathered source dict: each key may be absent (`None`). */
  datatype SourceRecord = SourceRecord(
    url: Option<string>,
    labelText: Option<string>,
    shortUrl: Option<string>,
    value: Option<string>,
    title: Option<string>)

  /** The dict `get_citations` builds for a segment: no `"url"` key. */
  function SegmentRecord(seg: Segment): SourceRecord {
    SourceRecord(None, Some(seg.labelText), Some(seg.shortUrl), Some(seg.value), seg.title)
  }

  /** The dict entry deduplication is keyed on. */
  datatype Key = UrlKey | ValueKey

  function KeyOf(key: Key, s: SourceRecord): Option<string> {
    match key
    case UrlKey => s.url
    case ValueKey => s.value
  }

  /** `source.get(key)` is truthy. */
  predicate HasKey(key: Key, s: SourceRecord) {
    KeyOf(key, s).Some? && KeyOf(key, s).value != ""
  }

  /** Source `i` has a key that no earlier source has. */
  predicate IsFirstSource(key: Key, ss: seq<SourceRecord>, i: nat)
    requires i < |ss|
  {
    HasKey(key, ss[i]) && forall j :: 0 <= j < i ==> KeyOf(key, ss[j]) != KeyOf(key, ss[i])
  }

  /** The first `k` sources, keeping only the first one for each key. */
  function FirstSources(key: Key, ss: seq<SourceRecord>, k: nat): seq<SourceRecord>
    requires k <= |ss|
  {
    if k == 0 then []
    else FirstSources(key, ss, k - 1) + (if IsFirstSource(key, ss, k - 1) then [ss[k - 1]] else [])
  }

  /** The keys of the sources that have one. */
  function KeySet(key: Key, ss: seq<SourceRecord>): set<string> {
    if ss == [] then {}
    else
      var last := ss[|ss| - 1];
      KeySet(key, ss[..|ss| - 1]) + (if HasKey(key, last) then {KeyOf(key, last).value} else {})
  }

  lemma {:induction false} KeySetMembers(key: Key, ss: seq<SourceRecord>)
    ensures forall u :: u in KeySet(key, ss) <==>
      exists j :: 0 <= j < |ss| && HasKey(key, ss[j]) && KeyOf(key, ss[j]).value == u
  {
    if ss != [] {
      KeySetMembers(key, ss[..|ss| - 1]);
      assert forall j :: 0 <= j < |ss| - 1 ==> ss[..|ss| - 1][j] == ss[j];
    }
  }

  /** The dedup loop of `finalize_answer`, keyed on `key`. */
  method DedupSources(key: Key, sources: seq<SourceRecord>) returns (unique: seq<SourceRecord>)
    ensures unique == FirstSources(key, sources, |sources|)
  {
    unique := [];
    if sources != [] {
      var seen: set<string> := {};
      for i := 0 to |sources|
        invariant unique == FirstSources(key, sources, i)
        invariant seen == KeySet(key, sources[..i])
      {
        assert sources[..i + 1][..i] == sources[..i];
        KeySetMembers(key, sources[..i]);
        var k := KeyOf(key, sources[i]);
        if k.Some? && k.value != "" && k.value !in seen {
          unique := unique + [sources[i]];
          seen := seen + {k.value};
        }
      }
    }
  }

  /** The numbered source lines `"i - <key>"`, 1..K, joined by newlines. */
  function SourceLines(key: Key, unique: seq<SourceRecord>): (r: string)
    requires forall i :: 0 <= i < |unique| ==> HasKey(key, unique[i])
    ensures r == "" <==> unique == []
    ensures unique != [] ==> HasKey(key, unique[0]) && SourceLine(1, key, unique[0]) <= r
    ensures unique != [] ==>
      HasKey(key, unique[|unique| - 1]) &&
      var last := SourceLine(|unique|, key, unique[|unique| - 1]);
      |last| <= |r| && r[|r| - |last|..] == last
  {
    if unique == [] then ""
    else
      var k := |unique|;
      assert HasKey(key, unique[k - 1]);
      var line := SourceLine(k, key, unique[k - 1]);
      if k == 1 then line else SourceLines(key, unique[..k - 1]) + "\n" + line
  }

  /** One line of the source list: `"<n> - <key>"`. */
  function SourceLine(n: nat, key: Key, s: SourceRecord): string
    requires HasKey(key, s)
  {
    NatToString(n) + " - " + KeyOf(key, s).value
  }

  /** The lines the source's `enumerate` produces: line `i` (from 0) reads `"<i + 1> - <key>"`. */
  function NumberedLines(key: Key, unique: seq<SourceRecord>): (ls: seq<string>)
    requires forall i :: 0 <= i < |unique| ==> HasKey(key, unique[i])
    ensures |ls| == |unique|
  {
    seq(|unique|, i requires 0 <= i < |unique| && HasKey(key, unique[i]) => SourceLine(i + 1, key, unique[i]))
  }

  /** The source list is the newline join of the numbered lines: every source gets its own
      line, numbered 1, 2, 3, ... in order. */
  lemma {:induction false} SourceLinesNumbered(key: Key, unique: seq<SourceRecord>)
    requires forall i :: 0 <= i < |unique| ==> HasKey(key, unique[i])
    ensures SourceLines(key, unique) == Join("\n", NumberedLines(key, unique))
    decreases |unique|
  {
    var k := |unique|;
    if k > 1 {
      var init := unique[..k - 1];
      var ls := NumberedLines(key, unique);
      assert forall i :: 0 <= i < |init| ==> init[i] == unique[i];
      SourceLinesNumbered(key, init);
      var ils := NumberedLines(key, init);
      assert ls[..k - 1] == ils by {
        forall i | 0 <= i < k - 1 ensures ls[i] == ils[i] {
          assert init[i] == unique[i];
        }
      }
      assert Join("\n", ls) == Join("\n", ils) + "\n" + ls[k - 1];
      assert ls[k - 1] == SourceLine(k, key, unique[k - 1]);
      assert SourceLines(key, unique) == SourceLines(key, init) + "\n" + SourceLine(k, key, unique[k - 1]);
      assert SourceLines(key, unique) == Join("\n", ls);
    } else if k == 1 {
      assert NumberedLines(key, unique) == [SourceLine(1, key, unique[0])];
    }
  }

  const SourcesHeader := "\n\n**Источники:**\n"

  /** The answer with the source section appended when any source remains. */
  function FinalText(key: Key, answer: string, unique: seq<SourceRecord>): (r: string)
    requires forall s :: s in unique ==> HasKey(key, s)
    ensures |r| >= |answer| && r[..|answer|] == answer
    ensures r == answer <==> unique == []
    ensures unique != [] ==> |r| > |answer| + |SourcesHeader| && r[|answer|..|answer| + |SourcesHeader|] == SourcesHeader
  {
    if unique == [] then answer else answer + SourcesHeader + SourceLines(key, unique)
  }

  /** `finalize_answer` after the model call, as written: dedup on `"url"`, then the text
      with its source section. */
  method FinalizeAnswer(answer: string, sources: seq<SourceRecord>) returns (finalText: string, unique: seq<SourceRecord>)
    ensures unique == FirstSources(UrlKey, sources, |sources|)
    ensures forall s :: s in unique ==> HasKey(UrlKey, s)
    ensures finalText == FinalText(UrlKey, answer, unique)
    ensures |finalText| >= |answer| && finalText[..|answer|] == answer
    ensures finalText == answer <==> unique == []
  {
    unique := DedupSources(UrlKey, sources);
    FirstSourcesKept(UrlKey, sources, |sources|);
    finalText := answer;
    if unique != [] {
      finalText := finalText + SourcesHeader + SourceLines(UrlKey, unique);
    }
  }

  /** `finalize_answer` deduplicating on `"value"`, the entry the gathered segments carry:
      a source section is appended exactly when some source carries a URL. */
  method FinalizeAnswerByValue(answer: string, sources: seq<SourceRecord>) returns (finalText: string, unique: seq<SourceRecord>)
    ensures unique == FirstSources(ValueKey, sources, |sources|)
    ensures forall s :: s in unique ==> HasKey(ValueKey, s)
    ensures finalText == FinalText(ValueKey, answer, unique)
    ensures |finalText| >= |answer| && finalText[..|answer|] == answer
    ensures finalText == answer <==> KeySet(ValueKey, sources) == {}
  {
    unique := DedupSources(ValueKey, sources);
    DedupKeepsOnePerKey(ValueKey, sources);
    finalText := answer;
    if unique != [] {
      finalText := finalText + SourcesHeader + SourceLines(ValueKey, unique);
    }
  }

  /** After `k` sources every kept source has a key and is one of those `k` sources. */
  lemma {:induction false} FirstSourcesKept(key: Key, ss: seq<SourceRecord>, k: nat)
    requires k <= |ss|
    ensures |FirstSources(key, ss, k)| <= k
    ensures forall s :: s in FirstSources(key, ss, k) ==> HasKey(key, s) && s in ss[..k]
  {
    if k > 0 {
      FirstSourcesKept(key, ss, k - 1);
      assert ss[..k] == ss[..k - 1] + [ss[k - 1]];
    }
  }

  /** After `k` sources each kept source is the first among them with its key. */
  lemma {:induction false} FirstSourcesAreFirst(key: Key, ss: seq<SourceRecord>, k: nat)
    requires k <= |ss|
    ensures forall s :: s in FirstSources(key, ss, k) ==>
      exists i :: 0 <= i < k && IsFirstSource(key, ss, i) && ss[i] == s
  {
    if k > 0 {
      FirstSourcesAreFirst(key, ss, k - 1);
      if IsFirstSource(key, ss, k - 1) {
        assert forall s :: s in FirstSources(key, ss, k) ==> s in FirstSources(key, ss, k - 1) || s == ss[k - 1];
      } else {
        assert FirstSources(key, ss, k) == FirstSources(key, ss, k - 1);
      }
    }
  }

  /** After `k` sources no key is kept twice. */
  lemma {:induction false} FirstSourcesDistinct(key: Key, ss: seq<SourceRecord>, k: nat)
    requires k <= |ss|
    ensures var r := FirstSources(key, ss, k);
      forall p, q :: 0 <= p < q < |r| ==> KeyOf(key, r[p]) != KeyOf(key, r[q])
  {
    if k > 0 {
      FirstSourcesDistinct(key, ss, k - 1);
      FirstSourcesKept(key, ss, k - 1);
      var prev := FirstSources(key, ss, k - 1);
      if IsFirstSource(key, ss, k - 1) {
        forall p | 0 <= p < |prev|
          ensures KeyOf(key, prev[p]) != KeyOf(key, ss[k - 1])
        {
          assert prev[p] in prev;
          var j :| 0 <= j < k - 1 && ss[..k - 1][j] == prev[p];
        }
      }
    }
  }

  /** After `k` sources every key among them is kept. */
  lemma {:induction false} FirstSourcesKeys(key: Key, ss: seq<SourceRecord>, k: nat)
    requires k <= |ss|
    ensures KeySet(key, FirstSources(key, ss, k)) == KeySet(key, ss[..k])
  {
    if k > 0 {
      FirstSourcesKeys(key, ss, k - 1);
      KeySetStep(key, ss, k);
      var prev := FirstSources(key, ss, k - 1);
      if IsFirstSource(key, ss, k - 1) {
        KeySetSnoc(key, prev, ss[k - 1]);
      } else {
        assert FirstSources(key, ss, k) == prev;
        if HasKey(key, ss[k - 1]) {
          EarlierKeyInSet(key, ss, k);
        }
      }
    }
  }

  /** One source more adds its key, if it has one. */
  lemma KeySetSnoc(key: Key, r: seq<SourceRecord>, x: SourceRecord)
    ensures KeySet(key, r + [x]) == KeySet(key, r) + (if HasKey(key, x) then {KeyOf(key, x).value} else {})
  {
    assert (r + [x])[..|r|] == r;
  }

  lemma KeySetStep(key: Key, ss: seq<SourceRecord>, k: nat)
    requires 0 < k <= |ss|
    ensures KeySet(key, ss[..k])
      == KeySet(key, ss[..k - 1]) + (if HasKey(key, ss[k - 1]) then {KeyOf(key, ss[k - 1]).value} else {})
  {
    assert ss[..k] == ss[..k - 1] + [ss[k - 1]];
    KeySetSnoc(key, ss[..k - 1], ss[k - 1]);
  }

  /** A source that has a key but is not the first with it repeats a key seen before. */
  lemma EarlierKeyInSet(key: Key, ss: seq<SourceRecord>, k: nat)
    requires 0 < k <= |ss|
    requires HasKey(key, ss[k - 1]) && !IsFirstSource(key, ss, k - 1)
    ensures KeyOf(key, ss[k - 1]).value in KeySet(key, ss[..k - 1])
  {
    var j :| 0 <= j < k - 1 && KeyOf(key, ss[j]) == KeyOf(key, ss[k - 1]);
    KeySetMembers(key, ss[..k - 1]);
    assert ss[..k - 1][j] == ss[j];
  }

  /** A list whose keys are pairwise distinct has as many keys as elements. */
  lemma {:induction false} DistinctKeyCount(key: Key, r: seq<SourceRecord>)
    requires forall s :: s in r ==> HasKey(key, s)
    requires forall p, q :: 0 <= p < q < |r| ==> KeyOf(key, r[p]) != KeyOf(key, r[q])
    ensures |KeySet(key, r)| == |r|
  {
    if r != [] {
      var init, last := r[..|r| - 1], r[|r| - 1];
      assert HasKey(key, last) by {
        assert last in r;
      }
      forall p, q | 0 <= p < q < |init| ensures KeyOf(key, init[p]) != KeyOf(key, init[q]) {
        assert init[p] == r[p] && init[q] == r[q];
      }
      DistinctKeyCount(key, init);
      assert KeySet(key, r) == KeySet(key, init) + {KeyOf(key, last).value};
      assert KeyOf(key, last).value !in KeySet(key, init) by {
        KeySetMembers(key, init);
        forall j | 0 <= j < |init| && HasKey(key, init[j])
          ensures KeyOf(key, init[j]).value != KeyOf(key, last).value
        {
          assert init[j] == r[j];
        }
      }
    }
  }

  /** The deduplicated list keeps one source per distinct key of the input, each with a
      key, none twice, taken from the input (each the first with its key). */
  lemma DedupKeepsOnePerKey(key: Key, ss: seq<SourceRecord>)
    ensures var r := FirstSources(key, ss, |ss|);
      && (forall s :: s in r ==> HasKey(key, s) && s in ss)
      && (forall s :: s in r ==> exists i :: 0 <= i < |ss| && IsFirstSource(key, ss, i) && ss[i] == s)
      && (forall p, q :: 0 <= p < q < |r| ==> KeyOf(key, r[p]) != KeyOf(key, r[q]))
      && KeySet(key, r) == KeySet(key, ss)
      && |r| == |KeySet(key, ss)|
  {
    FirstSourcesKept(key, ss, |ss|);
    FirstSourcesAreFirst(key, ss, |ss|);
    FirstSourcesDistinct(key, ss, |ss|);
    FirstSourcesKeys(key, ss, |ss|);
    assert ss[..|ss|] == ss;
    DistinctKeyCount(key, FirstSources(key, ss, |ss|));
  }

  /** The sources one web-research task gathers, as state dicts. */
  function SegmentRecords(segs: seq<Segment>): (ss: seq<SourceRecord>)
    ensures |ss| == |segs|
  {
    seq(|segs|, i requires 0 <= i < |segs| => SegmentRecord(segs[i]))
  }

  /** Sources none of which has the key all drop out. */
  lemma {:induction false} NoKeysNoSources(key: Key, ss: seq<SourceRecord>, k: nat)
    requires k <= |ss|
    requires forall i :: 0 <= i < |ss| ==> !HasKey(key, ss[i])
    ensures FirstSources(key, ss, k) == []
  {
    if k > 0 {
      NoKeysNoSources(key, ss, k - 1);
    }
  }

  /** As written: sources made from citation segments have no `"url"` entry, so all are
      dropped and the answer gets no source section, however many URLs were cited. */
  lemma {:induction false} SegmentSourcesDropped(segs: seq<Segment>, answer: string)
    ensures FirstSources(UrlKey, SegmentRecords(segs), |segs|) == []
    ensures FinalText(UrlKey, answer, FirstSources(UrlKey, SegmentRecords(segs), |segs|)) == answer
  {
    NoKeysNoSources(UrlKey, SegmentRecords(segs), |segs|);
  }

  /** The value set of gathered segments: exactly the URLs the segments carry. */
  lemma SegmentValues(segs: seq<Segment>)
    requires forall i :: 0 <= i < |segs| ==> segs[i].value != ""
    ensures forall u :: u in KeySet(ValueKey, SegmentRecords(segs)) <==>
      exists i :: 0 <= i < |segs| && segs[i].value == u
  {
    var ss := SegmentRecords(segs);
    KeySetMembers(ValueKey, ss);
    forall i | 0 <= i < |segs|
      ensures KeyOf(ValueKey, ss[i]) == Some(segs[i].value)
    {
    }
  }

  /** Keyed on `"value"`: the final list holds one source per distinct cited URL, and a
      source section is appended exactly when some segment was gathered. */
  lemma SegmentSourcesListedByValue(segs: seq<Segment>, answer: string)
    requires forall i :: 0 <= i < |segs| ==> segs[i].value != ""
    ensures forall s :: s in FirstSources(ValueKey, SegmentRecords(segs), |segs|) ==> HasKey(ValueKey, s)
    ensures |FirstSources(ValueKey, SegmentRecords(segs), |segs|)| == |KeySet(ValueKey, SegmentRecords(segs))|
    ensures forall u :: u in KeySet(ValueKey, SegmentRecords(segs)) <==> exists i :: 0 <= i < |segs| && segs[i].value == u
    ensures FinalText(ValueKey, answer, FirstSources(ValueKey, SegmentRecords(segs), |segs|)) == answer <==> segs == []
  {
    var ss := SegmentRecords(segs);
    DedupKeepsOnePerKey(ValueKey, ss);
    SegmentValues(segs);
    if segs != [] {
      assert segs[0].value in KeySet(ValueKey, ss);
      assert |SourcesHeader| > 0;
    }
  }

  /** Sources a, b, a: the result is a, b. */
  lemma DedupExample(a: SourceRecord, b: SourceRecord)
    requires HasKey(UrlKey, a) && HasKey(UrlKey, b) && a.url != b.url
    ensures FirstSources(UrlKey, [a, b, a], 3) == [a, b]
  {
    var ss := [a, b, a];
    assert IsFirstSource(UrlKey, ss, 0) && IsFirstSource(UrlKey, ss, 1) && !IsFirstSource(UrlKey, ss, 2);
    assert FirstSources(UrlKey, ss, 1) == [a];
    assert FirstSources(UrlKey, ss, 2) == [a, b];
  }
}
