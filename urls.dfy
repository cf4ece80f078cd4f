/**
 * URL shortening (`resolve_urls`): every distinct grounding-chunk URL of one search task
 * gets a short id `<prefix><task id>-<index of its first occurrence>`. The result is a
 * Python dict, whose key order is insertion order; it is modelled as an ordered sequence
 * of (url, short id) pairs because citation labels depend on that order.
 */
module UrlResolution {
  import opened Wrappers
  import opened Text

  /** The `web` entry of a grounding chunk; a missing `web` or `uri` is `None`. */
  datatype Chunk = Chunk(uri: Option<string>, title: Option<string>)

  /** A Python dict from original URL to short id, in insertion order. */
  type UrlMap = seq<(string, string)>

  const ShortUrlPrefix := "https://vertexaisearch.cloud.google.com/id/"

  /** The short id for the chunk at index `idx` of task `id`. */
  function ShortId(id: int, idx: nat): string {
    ShortUrlPrefix + IntToString(id) + "-" + NatToString(idx)
  }

  /** The URI of every chunk, `None` where there is none. */
  function UrlsOf(chunks: seq<Chunk>): (urls: seq<Option<string>>)
    ensures |urls| == |chunks|
    ensures forall i :: 0 <= i < |chunks| ==> urls[i] == chunks[i].uri
  {
    seq(|chunks|, i requires 0 <= i < |chunks| => chunks[i].uri)
  }

  /** Python truthiness of an optional string. */
  predicate Truthy(u: Option<string>) {
    u.Some? && u.value != ""
  }

  /** The keys of a URL map, in insertion order. */
  function Keys(m: UrlMap): (ks: seq<string>)
    ensures |ks| == |m|
    ensures forall i :: 0 <= i < |m| ==> ks[i] == m[i].0
  {
    seq(|m|, i requires 0 <= i < |m| => m[i].0)
  }

  /** Index `i` holds a usable URL that does not occur earlier in the list. */
  predicate IsFirstUrl(urls: seq<Option<string>>, i: nat)
    requires i < |urls|
  {
    Truthy(urls[i]) && forall j :: 0 <= j < i ==> urls[j] != urls[i]
  }

  /** The map after the first `k` chunks: one entry per first occurrence of a usable URL. */
  function ResolvedPrefix(urls: seq<Option<string>>, id: int, k: nat): UrlMap
    requires k <= |urls|
  {
    if k == 0 then []
    else
      ResolvedPrefix(urls, id, k - 1)
      + (if IsFirstUrl(urls, k - 1) then [(urls[k - 1].value, ShortId(id, k - 1))] else [])
  }

  /** The map `resolve_urls` returns for the URL list of a chunk list. */
  function ResolvedMap(urls: seq<Option<string>>, id: int): UrlMap {
    ResolvedPrefix(urls, id, |urls|)
  }

  /** The index of the first occurrence of `u` in the URL list. */
  function FirstIndex(urls: seq<Option<string>>, u: string): (r: nat)
    requires Some(u) in urls
    ensures r < |urls| && urls[r] == Some(u)
    ensures forall j :: 0 <= j < r ==> urls[j] != Some(u)
  {
    if urls[0] == Some(u) then 0 else 1 + FirstIndex(urls[1..], u)
  }

  /** The loop of `resolve_urls`. */
  method ResolveUrls(chunks: seq<Chunk>, id: int) returns (m: UrlMap)
    ensures m == ResolvedMap(UrlsOf(chunks), id)
  {
    var urls := UrlsOf(chunks);
    m := [];
    for idx := 0 to |urls|
      invariant m == ResolvedPrefix(urls, id, idx)
    {
      var url := urls[idx];
      ResolvedPrefixKeys(urls, id, idx);
      assert Truthy(url) ==> (url.value in Keys(m) <==> Some(url.value) in urls[..idx]);
      if url.Some? && url.value != "" && url.value !in Keys(m) {
        m := m + [(url.value, ShortId(id, idx))];
      }
    }
  }

  lemma KeysAppend(a: UrlMap, b: UrlMap)
    ensures Keys(a + b) == Keys(a) + Keys(b)
  {
  }

  /** The keys after `k` chunks are exactly the usable URLs among them. */
  lemma {:induction false} ResolvedPrefixKeys(urls: seq<Option<string>>, id: int, k: nat)
    requires k <= |urls|
    ensures forall u :: u in Keys(ResolvedPrefix(urls, id, k)) <==> u != "" && Some(u) in urls[..k]
  {
    if k > 0 {
      ResolvedPrefixKeys(urls, id, k - 1);
      forall u
        ensures u in Keys(ResolvedPrefix(urls, id, k)) <==> u != "" && Some(u) in urls[..k]
      {
        ResolvedPrefixKeyStep(urls, id, k, u);
      }
    }
  }

  /** One chunk more: `u` is a key after `k` chunks iff it was one after `k - 1` chunks or
      chunk `k - 1` introduces it. */
  lemma ResolvedPrefixKeyStep(urls: seq<Option<string>>, id: int, k: nat, u: string)
    requires 0 < k <= |urls|
    requires u in Keys(ResolvedPrefix(urls, id, k - 1)) <==> u != "" && Some(u) in urls[..k - 1]
    ensures u in Keys(ResolvedPrefix(urls, id, k)) <==> u != "" && Some(u) in urls[..k]
  {
    var first := IsFirstUrl(urls, k - 1);
    var inPrev := u in Keys(ResolvedPrefix(urls, id, k - 1));
    var inNew := first && u == urls[k - 1].value;
    assert u in Keys(ResolvedPrefix(urls, id, k)) <==> inPrev || inNew by {
      ResolvedPrefixKeysAppend(urls, id, k);
    }
    assert Some(u) in urls[..k] <==> Some(u) in urls[..k - 1] || urls[k - 1] == Some(u) by {
      assert urls[..k] == urls[..k - 1] + [urls[k - 1]];
    }
    if !first && u != "" && urls[k - 1] == Some(u) {
      assert Some(u) in urls[..k - 1] by {
        var j :| 0 <= j < k - 1 && urls[j] == urls[k - 1];
        assert urls[..k - 1][j] == Some(u);
      }
    }
  }

  /** The keys after `k` chunks: those after `k - 1`, then chunk `k - 1`'s URL if it is new. */
  lemma ResolvedPrefixKeysAppend(urls: seq<Option<string>>, id: int, k: nat)
    requires 0 < k <= |urls|
    ensures Keys(ResolvedPrefix(urls, id, k))
      == Keys(ResolvedPrefix(urls, id, k - 1)) + (if IsFirstUrl(urls, k - 1) then [urls[k - 1].value] else [])
  {
    var prev := ResolvedPrefix(urls, id, k - 1);
    var added := if IsFirstUrl(urls, k - 1) then [(urls[k - 1].value, ShortId(id, k - 1))] else [];
    assert ResolvedPrefix(urls, id, k) == prev + added;
    KeysAppend(prev, added);
  }

  /** Each entry after `k` chunks is a usable URL among them, paired with the short id of
      its first occurrence. */
  lemma {:induction false} ResolvedPrefixEntries(urls: seq<Option<string>>, id: int, k: nat)
    requires k <= |urls|
    ensures var m := ResolvedPrefix(urls, id, k);
      && |m| <= k
      && (forall p :: 0 <= p < |m| ==>
            && m[p].0 != "" && Some(m[p].0) in urls
            && FirstIndex(urls, m[p].0) < k
            && m[p].1 == ShortId(id, FirstIndex(urls, m[p].0)))
  {
    if k > 0 {
      ResolvedPrefixEntries(urls, id, k - 1);
      var prev := ResolvedPrefix(urls, id, k - 1);
      if IsFirstUrl(urls, k - 1) {
        var u := urls[k - 1].value;
        assert FirstIndex(urls, u) == k - 1;
        var m := prev + [(u, ShortId(id, k - 1))];
        assert ResolvedPrefix(urls, id, k) == m;
        forall p | 0 <= p < |m|
          ensures && m[p].0 != "" && Some(m[p].0) in urls
                  && FirstIndex(urls, m[p].0) < k
                  && m[p].1 == ShortId(id, FirstIndex(urls, m[p].0))
        {
          if p < |prev| {
            assert m[p] == prev[p];
          }
        }
      } else {
        assert ResolvedPrefix(urls, id, k) == prev;
      }
    }
  }

  /** Entries after `k` chunks are in first-occurrence order. */
  lemma {:induction false} ResolvedPrefixOrder(urls: seq<Option<string>>, id: int, k: nat)
    requires k <= |urls|
    ensures var m := ResolvedPrefix(urls, id, k);
      forall p, q :: 0 <= p < q < |m| ==>
        Some(m[p].0) in urls && Some(m[q].0) in urls && FirstIndex(urls, m[p].0) < FirstIndex(urls, m[q].0)
  {
    if k > 0 {
      ResolvedPrefixOrder(urls, id, k - 1);
      ResolvedPrefixEntries(urls, id, k - 1);
      var prev := ResolvedPrefix(urls, id, k - 1);
      if IsFirstUrl(urls, k - 1) {
        var u := urls[k - 1].value;
        assert FirstIndex(urls, u) == k - 1;
        var m := prev + [(u, ShortId(id, k - 1))];
        assert ResolvedPrefix(urls, id, k) == m;
        forall p, q | 0 <= p < q < |m|
          ensures Some(m[p].0) in urls && Some(m[q].0) in urls && FirstIndex(urls, m[p].0) < FirstIndex(urls, m[q].0)
        {
          assert m[p] == prev[p];
          if q < |prev| {
            assert m[q] == prev[q];
          }
        }
      } else {
        assert ResolvedPrefix(urls, id, k) == prev;
      }
    }
  }

  /** `resolve_urls` keys are exactly the distinct non-empty URLs of the chunk list. */
  lemma ResolvedKeys(urls: seq<Option<string>>, id: int)
    ensures forall u :: u in Keys(ResolvedMap(urls, id)) <==> u != "" && Some(u) in urls
  {
    ResolvedPrefixKeys(urls, id, |urls|);
    assert urls[..|urls|] == urls;
  }

  /** Every entry maps a URL to the short id of its first occurrence in the whole chunk
      list (chunks without a URI included), entries are in first-occurrence order, and
      there are at most as many entries as chunks. */
  lemma ResolvedEntries(urls: seq<Option<string>>, id: int)
    ensures var m := ResolvedMap(urls, id);
      && |m| <= |urls|
      && (forall p :: 0 <= p < |m| ==>
            Some(m[p].0) in urls && m[p].1 == ShortId(id, FirstIndex(urls, m[p].0)))
      && (forall p, q :: 0 <= p < q < |m| ==> FirstIndex(urls, m[p].0) < FirstIndex(urls, m[q].0))
  {
    ResolvedPrefixEntries(urls, id, |urls|);
    ResolvedPrefixOrder(urls, id, |urls|);
  }

  /** Short ids of one task differ whenever their chunk indices differ. */
  lemma ShortIdInjective(id: int, i: nat, j: nat)
    requires ShortId(id, i) == ShortId(id, j)
    ensures i == j
  {
    var p := ShortUrlPrefix + IntToString(id) + "-";
    assert ShortId(id, i)[|p|..] == NatToString(i);
    assert ShortId(id, j)[|p|..] == NatToString(j);
    NatToStringInjective(i, j);
  }

  /** No URL is a key twice (a repeated URL maps to one short id) and no two URLs share a short id. */
  lemma ResolvedDistinct(urls: seq<Option<string>>, id: int)
    ensures var m := ResolvedMap(urls, id);
      forall p, q :: 0 <= p < q < |m| ==> m[p].0 != m[q].0 && m[p].1 != m[q].1
  {
    ResolvedEntries(urls, id);
    var m := ResolvedMap(urls, id);
    forall p, q | 0 <= p < q < |m|
      ensures m[p].0 != m[q].0 && m[p].1 != m[q].1
    {
      if m[p].1 == m[q].1 {
        ShortIdInjective(id, FirstIndex(urls, m[p].0), FirstIndex(urls, m[q].0));
      }
    }
  }
}
