/**
 * Citation marker insertion (`insert_citation_markers`): citations are sorted by
 * (end offset, start offset) in descending order with a stable sort, then for each one the
 * marker `" [label]"` per segment is spliced into the current text at its end offset.
 */
module Markers {
  import opened Text
  import opened Citations

  /** The marker text of a citation: `" [" + label + "]"` per segment, in segment order. */
  function Marker(segs: seq<Segment>): string {
    if segs == [] then "" else Marker(segs[..|segs| - 1]) + " [" + segs[|segs| - 1].labelText + "]"
  }

  /** The position Python uses for `t[:i]` and `t[i:]` on a string of length `n`: a
      negative index counts from the end, and indices outside the string are clamped. */
  function SlicePosition(i: int, n: nat): (r: nat)
    ensures r <= n
    ensures 0 <= i <= n ==> r == i
  {
    if i < 0 then (if i + n < 0 then 0 else i + n) else if i > n then n else i
  }

  /** One step of the loop: the citation's marker spliced in at its end offset. */
  function Splice(t: string, c: Citation): string {
    var e := SlicePosition(c.endIndex, |t|);
    t[..e] + Marker(c.segments) + t[e..]
  }

  /** The text after splicing the citations in the order given. */
  function SpliceAll(t: string, cs: seq<Citation>): string {
    if cs == [] then t else Splice(SpliceAll(t, cs[..|cs| - 1]), cs[|cs| - 1])
  }

  /** `a` sorts no later than `b` in descending (end offset, start offset) order. */
  predicate KeyGe(a: Citation, b: Citation) {
    a.endIndex > b.endIndex || (a.endIndex == b.endIndex && a.startIndex >= b.startIndex)
  }

  /** Every citation sorts no later than the ones after it. */
  predicate Descending(cs: seq<Citation>) {
    forall i, j :: 0 <= i < j < |cs| ==> KeyGe(cs[i], cs[j])
  }

  /** `c` placed after every leading citation whose key is at least its own, so that among
      equal keys the one inserted later comes later. */
  function InsertByKey(s: seq<Citation>, c: Citation): (r: seq<Citation>)
    ensures multiset(r) == multiset(s) + multiset{c}
  {
    if s == [] then [c]
    else if KeyGe(s[0], c) then
      assert s == [s[0]] + s[1..];
      [s[0]] + InsertByKey(s[1..], c)
    else
      [c] + s
  }

  /** A citation that sorts no later than every element of a descending list can lead it. */
  lemma DescendingCons(x: Citation, rest: seq<Citation>)
    requires Descending(rest)
    requires forall k :: 0 <= k < |rest| ==> KeyGe(x, rest[k])
    ensures Descending([x] + rest)
  {
    var r := [x] + rest;
    forall i, j | 0 <= i < j < |r|
      ensures KeyGe(r[i], r[j])
    {
      assert r[j] == rest[j - 1];
      if i > 0 {
        assert r[i] == rest[i - 1];
      }
    }
  }

  lemma DescendingTail(s: seq<Citation>)
    requires Descending(s) && s != []
    ensures Descending(s[1..])
  {
    forall i, j | 0 <= i < j < |s| - 1 ensures KeyGe(s[1..][i], s[1..][j]) {
      assert s[1..][i] == s[i + 1] && s[1..][j] == s[j + 1];
    }
  }

  lemma {:induction false} InsertByKeyDescending(s: seq<Citation>, c: Citation)
    requires Descending(s)
    ensures Descending(InsertByKey(s, c))
  {
    if s != [] {
      if KeyGe(s[0], c) {
        var rest := InsertByKey(s[1..], c);
        DescendingTail(s);
        InsertByKeyDescending(s[1..], c);
        forall k | 0 <= k < |rest|
          ensures KeyGe(s[0], rest[k])
        {
          assert rest[k] in multiset(s[1..]) + multiset{c};
          if rest[k] != c {
            assert rest[k] in s[1..];
          }
        }
        DescendingCons(s[0], rest);
      } else {
        forall k | 0 <= k < |s|
          ensures KeyGe(c, s[k])
        {
          assert KeyGe(s[0], s[k]);
        }
        DescendingCons(c, s);
      }
    }
  }

  /** Python's `sorted(cs, key=(end, start), reverse=True)`: a stable descending sort. */
  function SortedDesc(cs: seq<Citation>): (r: seq<Citation>)
    ensures multiset(r) == multiset(cs)
    ensures Descending(r)
  {
    if cs == [] then []
    else
      var init := cs[..|cs| - 1];
      assert cs == init + [cs[|cs| - 1]];
      InsertByKeyDescending(SortedDesc(init), cs[|cs| - 1]);
      InsertByKey(SortedDesc(init), cs[|cs| - 1])
  }

  /** The text with its citation markers, as `insert_citation_markers` returns it. */
  function MarkedText(t: string, cs: seq<Citation>): string {
    SpliceAll(t, SortedDesc(cs))
  }

  /** The inner loop of `insert_citation_markers`: one `" [label]"` per segment. */
  method BuildMarker(segments: seq<Segment>) returns (marker: string)
    ensures marker == Marker(segments)
  {
    marker := "";
    for j := 0 to |segments|
      invariant marker == Marker(segments[..j])
    {
      assert segments[..j + 1][..j] == segments[..j];
      marker := marker + " [" + segments[j].labelText + "]";
    }
    assert segments[..|segments|] == segments;
  }

  /** `insert_citation_markers`: the sort, then the splicing loop with its inner marker loop. */
  method InsertCitationMarkers(text: string, citations: seq<Citation>) returns (modified: string)
    ensures modified == MarkedText(text, citations)
    ensures citations == [] ==> modified == text
  {
    var sorted := SortedDesc(citations);
    modified := text;
    for k := 0 to |sorted|
      invariant modified == SpliceAll(text, sorted[..k])
    {
      var c := sorted[k];
      var endIdx := c.endIndex;
      var marker := BuildMarker(c.segments);
      var e := SlicePosition(endIdx, |modified|);
      modified := modified[..e] + marker + modified[e..];
      assert modified == SpliceAll(text, sorted[..k + 1]) by {
        assert modified == Splice(SpliceAll(text, sorted[..k]), c);
        assert sorted[..k + 1][..k] == sorted[..k];
      }
    }
    assert sorted[..|sorted|] == sorted;
  }

  // ---------------------------------------------------------------------------
  // Length

  /** The total length of the markers of all citations. */
  function MarkerTotal(cs: seq<Citation>): nat {
    if cs == [] then 0 else MarkerTotal(cs[..|cs| - 1]) + |Marker(cs[|cs| - 1].segments)|
  }

  lemma {:induction false} MarkerTotalFront(c: Citation, cs: seq<Citation>)
    ensures MarkerTotal([c] + cs) == |Marker(c.segments)| + MarkerTotal(cs)
    decreases |cs|
  {
    if cs != [] {
      var init := cs[..|cs| - 1];
      assert ([c] + cs)[..|cs|] == [c] + init;
      MarkerTotalFront(c, init);
    } else {
      assert ([c] + cs)[..0] == [];
    }
  }

  lemma {:induction false} MarkerTotalInsert(s: seq<Citation>, c: Citation)
    ensures MarkerTotal(InsertByKey(s, c)) == MarkerTotal(s) + |Marker(c.segments)|
  {
    if s == [] {
      assert [c][..0] == [];
    } else if KeyGe(s[0], c) {
      MarkerTotalInsert(s[1..], c);
      MarkerTotalFront(s[0], InsertByKey(s[1..], c));
      MarkerTotalFront(s[0], s[1..]);
      assert s == [s[0]] + s[1..];
    } else {
      MarkerTotalFront(c, s);
    }
  }

  lemma {:induction false} MarkerTotalSorted(cs: seq<Citation>)
    ensures MarkerTotal(SortedDesc(cs)) == MarkerTotal(cs)
  {
    if cs != [] {
      MarkerTotalSorted(cs[..|cs| - 1]);
      MarkerTotalInsert(SortedDesc(cs[..|cs| - 1]), cs[|cs| - 1]);
    }
  }

  lemma {:induction false} SpliceAllLength(t: string, cs: seq<Citation>)
    ensures |SpliceAll(t, cs)| == |t| + MarkerTotal(cs)
  {
    if cs != [] {
      SpliceAllLength(t, cs[..|cs| - 1]);
    }
  }

  /** Whatever the offsets (Python slicing clamps them), the marked text is exactly as
      long as the original plus every marker of every citation. */
  lemma MarkedTextLength(t: string, cs: seq<Citation>)
    ensures |MarkedText(t, cs)| == |t| + MarkerTotal(cs)
  {
    SpliceAllLength(t, SortedDesc(cs));
    MarkerTotalSorted(cs);
  }

  /** Each segment contributes `" [" + label + "]"`: three characters plus its label. */
  lemma {:induction false} MarkerLength(segs: seq<Segment>)
    ensures |Marker(segs)| == 3 * |segs| + LabelChars(segs)
  {
    if segs != [] {
      MarkerLength(segs[..|segs| - 1]);
    }
  }

  function LabelChars(segs: seq<Segment>): nat {
    if segs == [] then 0 else LabelChars(segs[..|segs| - 1]) + |segs[|segs| - 1].labelText|
  }

  // ---------------------------------------------------------------------------
  // Where the markers go

  /** All end offsets lie within the text. */
  predicate EndsInRange(t: string, cs: seq<Citation>) {
    forall c :: c in cs ==> 0 <= c.endIndex <= |t|
  }

  /** Reference reading of a marked text, left to right: the original text from `p` up to
      the smallest end offset, that citation's marker (when `marked`), and so on. `cs` is in
      descending order, so its last citation is the leftmost. */
  function Woven(t: string, cs: seq<Citation>, p: nat, marked: bool): string
    requires p <= |t|
    requires forall c :: c in cs ==> p <= c.endIndex <= |t|
    requires forall i, j :: 0 <= i < j < |cs| ==> cs[i].endIndex >= cs[j].endIndex
  {
    if cs == [] then t[p..]
    else
      var c := cs[|cs| - 1];
      var init := cs[..|cs| - 1];
      assert forall d :: d in init ==> d in cs;
      t[p..c.endIndex] + (if marked then Marker(c.segments) else "") + Woven(t, init, c.endIndex, marked)
  }

  lemma {:induction false} WovenLength(t: string, cs: seq<Citation>, p: nat)
    requires p <= |t|
    requires forall c :: c in cs ==> p <= c.endIndex <= |t|
    requires forall i, j :: 0 <= i < j < |cs| ==> cs[i].endIndex >= cs[j].endIndex
    ensures |Woven(t, cs, p, true)| >= |t| - p
  {
    if cs != [] {
      var init := cs[..|cs| - 1];
      assert forall d :: d in init ==> d in cs;
      WovenLength(t, init, cs[|cs| - 1].endIndex);
    }
  }

  /** Starting the reading earlier only prepends original text. */
  lemma {:induction false} WovenSplit(t: string, cs: seq<Citation>, p: nat, q: nat)
    requires p <= q <= |t|
    requires forall c :: c in cs ==> q <= c.endIndex <= |t|
    requires forall i, j :: 0 <= i < j < |cs| ==> cs[i].endIndex >= cs[j].endIndex
    ensures Woven(t, cs, p, true) == t[p..q] + Woven(t, cs, q, true)
  {
    if cs == [] {
      assert t[p..] == t[p..q] + t[q..];
    } else {
      var c := cs[|cs| - 1];
      var e := c.endIndex;
      var init := cs[..|cs| - 1];
      assert forall d :: d in init ==> d in cs;
      var w := Woven(t, init, e, true);
      var m := Marker(c.segments);
      assert Woven(t, cs, p, true) == (t[p..e] + m) + w;
      assert Woven(t, cs, q, true) == (t[q..e] + m) + w;
      assert t[p..e] == t[p..q] + t[q..e] by {
        assert t[p..e] == t[p..q] + t[q..e];
      }
      SeqAssoc(t[p..q], t[q..e], m);
      SeqAssoc(t[p..q], t[q..e] + m, w);
    }
  }

  /** Splicing citations of descending end offset one after another leaves every marker at
      its citation's original end offset: earlier splices never shift later ones. */
  lemma {:induction false} SpliceAllWoven(t: string, cs: seq<Citation>)
    requires EndsInRange(t, cs)
    requires forall i, j :: 0 <= i < j < |cs| ==> cs[i].endIndex >= cs[j].endIndex
    ensures SpliceAll(t, cs) == Woven(t, cs, 0, true)
  {
    if cs != [] {
      var c := cs[|cs| - 1];
      var init := cs[..|cs| - 1];
      assert forall d :: d in init ==> d in cs;
      SpliceAllWoven(t, init);
      var w := Woven(t, init, 0, true);
      WovenSplit(t, init, 0, c.endIndex);
      WovenLength(t, init, c.endIndex);
      assert w == t[..c.endIndex] + Woven(t, init, c.endIndex, true);
      assert SlicePosition(c.endIndex, |w|) == c.endIndex;
      assert w[..c.endIndex] == t[..c.endIndex];
      assert w[c.endIndex..] == Woven(t, init, c.endIndex, true);
    }
  }

  /** The reading without markers is the original text. */
  lemma {:induction false} WovenUnmarked(t: string, cs: seq<Citation>, p: nat)
    requires p <= |t|
    requires forall c :: c in cs ==> p <= c.endIndex <= |t|
    requires forall i, j :: 0 <= i < j < |cs| ==> cs[i].endIndex >= cs[j].endIndex
    ensures Woven(t, cs, p, false) == t[p..]
  {
    if cs != [] {
      var c := cs[|cs| - 1];
      var e := c.endIndex;
      var init := cs[..|cs| - 1];
      assert forall d :: d in init ==> d in cs;
      WovenUnmarked(t, init, e);
      assert Woven(t, cs, p, false) == t[p..e] + "" + t[e..];
      assert t[p..e] + "" + t[e..] == t[p..] by {
        assert t[p..e] + "" == t[p..e];
        assert t[p..] == t[p..e] + t[e..];
      }
    }
  }

  /** With every end offset inside the text, the marked text is the original text with each
      citation's marker at that citation's end offset, in offset order; and deleting the
      markers gives back the original text. */
  lemma MarkersAtEndOffsets(t: string, cs: seq<Citation>)
    requires EndsInRange(t, cs)
    ensures var s := SortedDesc(cs);
      && EndsInRange(t, s)
      && MarkedText(t, cs) == Woven(t, s, 0, true)
      && Woven(t, s, 0, false) == t
  {
    var s := SortedDesc(cs);
    assert forall c :: c in s ==> c in multiset(s);
    SpliceAllWoven(t, s);
    WovenUnmarked(t, s, 0);
  }

  // ---------------------------------------------------------------------------
  // Order of the input

  /** A list already in descending key order is left as it is by the stable sort. */
  lemma {:induction false} SortedDescIdentity(cs: seq<Citation>)
    requires Descending(cs)
    ensures SortedDesc(cs) == cs
  {
    if cs != [] {
      var init := cs[..|cs| - 1];
      SortedDescIdentity(init);
      InsertAtEnd(init, cs[|cs| - 1]);
      assert init + [cs[|cs| - 1]] == cs;
    }
  }

  lemma {:induction false} InsertAtEnd(s: seq<Citation>, c: Citation)
    requires forall d :: d in s ==> KeyGe(d, c)
    ensures InsertByKey(s, c) == s + [c]
  {
    if s != [] {
      InsertAtEnd(s[1..], c);
    }
  }

  /** Marking a list that is already sorted descending splices it in the order given. */
  lemma PreSortedInput(t: string, cs: seq<Citation>)
    requires Descending(cs)
    ensures MarkedText(t, cs) == SpliceAll(t, cs)
  {
    SortedDescIdentity(cs);
  }

  /** Citations with the same key are the same citation. */
  predicate KeyDetermines(cs: seq<Citation>) {
    forall i, j ::
      (0 <= i < |cs| && 0 <= j < |cs| && cs[i].endIndex == cs[j].endIndex && cs[i].startIndex == cs[j].startIndex)
      ==> cs[i] == cs[j]
  }

  /** The tail's multiset is the list's multiset without its head. */
  lemma MultisetTail(x: seq<Citation>)
    requires x != []
    ensures multiset(x[1..]) == multiset(x) - multiset{x[0]}
  {
    assert x == [x[0]] + x[1..];
  }

  /** Two descending lists with the same elements, in which a key picks one citation, start
      with the same citation. */
  lemma DescendingSameHead(x: seq<Citation>, y: seq<Citation>)
    requires Descending(x) && Descending(y)
    requires multiset(x) == multiset(y)
    requires KeyDetermines(x)
    requires x != []
    ensures y != [] && x[0] == y[0]
  {
    assert x[0] in multiset(y);
    assert y[0] in multiset(x);
    var i :| 0 <= i < |x| && x[i] == y[0];
    var j :| 0 <= j < |y| && y[j] == x[0];
    assert KeyGe(x[0], x[i]);
    assert KeyGe(y[0], y[j]);
  }

  /** Two descending lists with the same elements, in which a key picks one citation, are equal. */
  lemma {:induction false} DescendingUnique(x: seq<Citation>, y: seq<Citation>)
    requires Descending(x) && Descending(y)
    requires multiset(x) == multiset(y)
    requires KeyDetermines(x)
    ensures x == y
    decreases |x|
  {
    if x != [] {
      DescendingSameHead(x, y);
      MultisetTail(x);
      MultisetTail(y);
      var x', y' := x[1..], y[1..];
      assert Descending(x') by {
        forall i, j | 0 <= i < j < |x'| ensures KeyGe(x'[i], x'[j]) {
          assert x'[i] == x[i + 1] && x'[j] == x[j + 1];
        }
      }
      assert Descending(y') by {
        forall i, j | 0 <= i < j < |y'| ensures KeyGe(y'[i], y'[j]) {
          assert y'[i] == y[i + 1] && y'[j] == y[j + 1];
        }
      }
      assert KeyDetermines(x') by {
        forall i, j | 0 <= i < |x'| && 0 <= j < |x'| && x'[i].endIndex == x'[j].endIndex && x'[i].startIndex == x'[j].startIndex
          ensures x'[i] == x'[j]
        {
          assert x'[i] == x[i + 1] && x'[j] == x[j + 1];
        }
      }
      DescendingUnique(x', y');
      assert x == [x[0]] + x';
      assert y == [y[0]] + y';
    }
  }

  /** Reordering the input does not change the output when equal keys mean equal citations
      (in particular when all (end, start) pairs are distinct). */
  lemma MarkedTextOrderIndependent(t: string, a: seq<Citation>, b: seq<Citation>)
    requires multiset(a) == multiset(b)
    requires KeyDetermines(a)
    ensures MarkedText(t, a) == MarkedText(t, b)
  {
    var sa, sb := SortedDesc(a), SortedDesc(b);
    forall i, j | 0 <= i < |sa| && 0 <= j < |sa| && sa[i].endIndex == sa[j].endIndex && sa[i].startIndex == sa[j].startIndex
      ensures sa[i] == sa[j]
    {
      assert sa[i] in multiset(a) && sa[j] in multiset(a);
      var p :| 0 <= p < |a| && a[p] == sa[i];
      var q :| 0 <= q < |a| && a[q] == sa[j];
    }
    DescendingUnique(sa, sb);
  }

  /** Splicing at an offset inside the text: the text before the offset is kept, and the
      marker comes first in the rest. */
  lemma SpliceInRange(t: string, c: Citation)
    requires 0 <= c.endIndex <= |t|
    ensures var r := Splice(t, c);
      && r == (t[..c.endIndex] + Marker(c.segments)) + t[c.endIndex..]
      && r[..c.endIndex] == t[..c.endIndex]
      && r[c.endIndex..] == Marker(c.segments) + t[c.endIndex..]
  {
  }

  /** Splicing two citations is splicing the first, then the second. */
  lemma SpliceAllPair(t: string, c1: Citation, c2: Citation)
    ensures SpliceAll(t, [c1, c2]) == Splice(Splice(t, c1), c2)
  {
    assert [c1, c2][..1] == [c1] && [c1][..0] == [];
    assert SpliceAll(t, [c1]) == Splice(SpliceAll(t, []), c1);
  }

  /** Two citations with the same key at an offset inside the text: the stable sort keeps
      them in input order, so the later one is spliced last and its marker comes first. */
  lemma TiedCitationsLaterFirst(t: string, c1: Citation, c2: Citation)
    requires c1.endIndex == c2.endIndex && c1.startIndex == c2.startIndex
    requires 0 <= c1.endIndex <= |t|
    ensures MarkedText(t, [c1, c2])
      == t[..c1.endIndex] + Marker(c2.segments) + Marker(c1.segments) + t[c1.endIndex..]
  {
    var e := c1.endIndex;
    var m1, m2 := Marker(c1.segments), Marker(c2.segments);
    assert KeyGe(c1, c2);
    SortedDescIdentity([c1, c2]);
    SpliceAllPair(t, c1, c2);
    var t1 := Splice(t, c1);
    SpliceInRange(t, c1);
    SpliceInRange(t1, c2);
    SeqAssoc(t[..e] + m2, m1, t[e..]);
  }

  // ---------------------------------------------------------------------------
  // Ties: stability of the sort, and where tied markers end up

  /** Where a citation's (end offset, start offset) key lies relative to that of `c`. */
  datatype Side = Above | Level | Below

  function SideOf(x: Citation, c: Citation): Side {
    if x.endIndex == c.endIndex && x.startIndex == c.startIndex then Level
    else if KeyGe(x, c) then Above
    else Below
  }

  /** The citations on one side of `c`'s key, in their order in `cs`. */
  function Band(cs: seq<Citation>, c: Citation, side: Side): (r: seq<Citation>)
    ensures forall x :: x in r ==> x in cs && SideOf(x, c) == side
  {
    if cs == [] then []
    else (if SideOf(cs[0], c) == side then [cs[0]] else []) + Band(cs[1..], c, side)
  }

  lemma {:induction false} BandAppend(a: seq<Citation>, b: seq<Citation>, c: Citation, side: Side)
    ensures Band(a + b, c, side) == Band(a, c, side) + Band(b, c, side)
    decreases |a|
  {
    if a == [] {
      assert a + b == b;
    } else {
      assert (a + b)[0] == a[0];
      assert (a + b)[1..] == a[1..] + b;
      BandAppend(a[1..], b, c, side);
    }
  }

  /** An insertion step into a descending list puts `x` after every citation tied with it. */
  lemma {:induction false} TiedInsert(s: seq<Citation>, x: Citation, c: Citation)
    requires Descending(s)
    ensures Band(InsertByKey(s, x), c, Level) == Band(s, c, Level) + (if SideOf(x, c) == Level then [x] else [])
  {
    if s == [] {
      assert [x][1..] == [];
    } else if KeyGe(s[0], x) {
      DescendingTail(s);
      TiedInsert(s[1..], x, c);
      TiedInsertBehindHead(s, x, c);
    } else {
      TiedInsertInFront(s, x, c);
    }
  }

  /** The step of `TiedInsert` where `x` goes behind the head. */
  lemma TiedInsertBehindHead(s: seq<Citation>, x: Citation, c: Citation)
    requires s != [] && KeyGe(s[0], x)
    requires Band(InsertByKey(s[1..], x), c, Level) == Band(s[1..], c, Level) + (if SideOf(x, c) == Level then [x] else [])
    ensures Band(InsertByKey(s, x), c, Level) == Band(s, c, Level) + (if SideOf(x, c) == Level then [x] else [])
  {
    var r := InsertByKey(s, x);
    assert r[0] == s[0] && r[1..] == InsertByKey(s[1..], x);
    BandsCons(r, c);
    BandsCons(s, c);
    var hd := if SideOf(s[0], c) == Level then [s[0]] else [];
    SeqAssoc(hd, Band(s[1..], c, Level), if SideOf(x, c) == Level then [x] else []);
  }

  /** The step of `TiedInsert` where `x` goes in front: no citation of `s` is tied with it. */
  lemma TiedInsertInFront(s: seq<Citation>, x: Citation, c: Citation)
    requires Descending(s)
    requires s != [] && !KeyGe(s[0], x)
    ensures Band(InsertByKey(s, x), c, Level) == Band(s, c, Level) + (if SideOf(x, c) == Level then [x] else [])
  {
    var r := [x] + s;
    assert InsertByKey(s, x) == r;
    assert r[0] == x && r[1..] == s;
    BandsCons(r, c);
    if SideOf(x, c) == Level {
      forall k | 0 <= k < |s| ensures SideOf(s[k], c) != Level {
        assert KeyGe(s[0], s[k]);
      }
      BandEmpty(s, c, Level);
    }
  }

  /** The sort is stable: citations with the same key keep their input order. */
  lemma {:induction false} SortedStable(cs: seq<Citation>, c: Citation)
    ensures Band(SortedDesc(cs), c, Level) == Band(cs, c, Level)
  {
    if cs != [] {
      var init, x := cs[..|cs| - 1], cs[|cs| - 1];
      assert Band(cs, c, Level) == Band(init, c, Level) + Band([x], c, Level) by {
        assert cs == init + [x];
        BandAppend(init, [x], c, Level);
      }
      assert Band([x], c, Level) == if SideOf(x, c) == Level then [x] else [] by {
        assert [x][1..] == [];
      }
      SortedStable(init, c);
      TiedInsert(SortedDesc(init), x, c);
    }
  }

  /** No citation after the head of a descending list lies on a side of `c` above the head's. */
  lemma BandEmptyBelowHead(s: seq<Citation>, c: Citation, side: Side)
    requires Descending(s) && s != []
    requires side == Above || (side == Level && SideOf(s[0], c) == Below)
    requires SideOf(s[0], c) != Above
    ensures Band(s[1..], c, side) == []
  {
    forall k | 0 <= k < |s[1..]| ensures SideOf(s[1..][k], c) != side {
      assert KeyGe(s[0], s[k + 1]);
    }
    BandEmpty(s[1..], c, side);
  }

  lemma BandEmpty(s: seq<Citation>, c: Citation, side: Side)
    requires forall k :: 0 <= k < |s| ==> SideOf(s[k], c) != side
    ensures Band(s, c, side) == []
  {
  }

  /** The three bands of a list that starts with `x`, from those of the rest. */
  lemma BandsCons(s: seq<Citation>, c: Citation)
    requires s != []
    ensures var x, rest := s[0], s[1..];
      && Band(s, c, Above) == (if SideOf(x, c) == Above then [x] else []) + Band(rest, c, Above)
      && Band(s, c, Level) == (if SideOf(x, c) == Level then [x] else []) + Band(rest, c, Level)
      && Band(s, c, Below) == (if SideOf(x, c) == Below then [x] else []) + Band(rest, c, Below)
  {
  }

  lemma Reassemble(s: seq<Citation>, x: Citation, a: seq<Citation>, l: seq<Citation>, b: seq<Citation>,
                   a': seq<Citation>, l': seq<Citation>, b': seq<Citation>)
    requires s == [x] + (a + l + b)
    requires (a' == [x] + a && l' == l && b' == b)
          || (a == [] && a' == [] && l' == [x] + l && b' == b)
          || (a == [] && l == [] && a' == [] && l' == [] && b' == [x] + b)
    ensures s == a' + l' + b'
  {
  }

  /** A descending list is its citations above `c`'s key, then those tied with it, then
      those below it. */
  lemma {:induction false} DescendingBands(s: seq<Citation>, c: Citation)
    requires Descending(s)
    ensures s == Band(s, c, Above) + Band(s, c, Level) + Band(s, c, Below)
  {
    if s != [] {
      var rest := s[1..];
      DescendingTail(s);
      DescendingBands(rest, c);
      BandsCons(s, c);
      var a, l, b := Band(rest, c, Above), Band(rest, c, Level), Band(rest, c, Below);
      assert s == [s[0]] + (a + l + b);
      var side := SideOf(s[0], c);
      if side != Above {
        BandEmptyBelowHead(s, c, Above);
      }
      if side == Below {
        BandEmptyBelowHead(s, c, Level);
      }
      Reassemble(s, s[0], a, l, b, Band(s, c, Above), Band(s, c, Level), Band(s, c, Below));
    }
  }

  /** The markers of citations spliced one after the other at the same offset: the last
      one's marker first. */
  function LaterFirst(run: seq<Citation>): string {
    if run == [] then "" else Marker(run[|run| - 1].segments) + LaterFirst(run[..|run| - 1])
  }

  lemma {:induction false} SpliceAllAppend(t: string, a: seq<Citation>, b: seq<Citation>)
    ensures SpliceAll(t, a + b) == SpliceAll(SpliceAll(t, a), b)
    decreases |b|
  {
    if b == [] {
      assert a + b == a;
    } else {
      var b' := b[..|b| - 1];
      assert (a + b)[..|a + b| - 1] == a + b';
      assert (a + b)[|a + b| - 1] == b[|b| - 1];
      SpliceAllAppend(t, a, b');
    }
  }

  /** Splicing at offsets no smaller than `e` keeps the text before `e`. */
  lemma {:induction false} SpliceAboveKeepsPrefix(t: string, run: seq<Citation>, e: nat)
    requires e <= |t|
    requires forall x :: x in run ==> e <= x.endIndex <= |t|
    ensures |SpliceAll(t, run)| >= |t|
    ensures SpliceAll(t, run)[..e] == t[..e]
  {
    if run != [] {
      var init, x := run[..|run| - 1], run[|run| - 1];
      assert forall y :: y in init ==> y in run;
      SpliceAboveKeepsPrefix(t, init, e);
      var u := SpliceAll(t, init);
      SpliceInRange(u, x);
      assert Splice(u, x)[..e] == u[..x.endIndex][..e];
    }
  }

  /** Splicing citations that all end at `e`: their markers sit at `e`, the last one first. */
  lemma {:induction false} SpliceLevel(t: string, run: seq<Citation>, e: nat)
    requires e <= |t|
    requires forall x :: x in run ==> x.endIndex == e
    ensures SpliceAll(t, run) == t[..e] + LaterFirst(run) + t[e..]
  {
    if run != [] {
      var init, x := run[..|run| - 1], run[|run| - 1];
      assert forall y :: y in init ==> y in run;
      SpliceLevel(t, init, e);
      var u := SpliceAll(t, init);
      var m := Marker(x.segments);
      assert u == t[..e] + (LaterFirst(init) + t[e..]);
      assert u[..e] == t[..e] && u[e..] == LaterFirst(init) + t[e..];
      SpliceInRange(u, x);
      SeqAssoc(t[..e] + m, LaterFirst(init), t[e..]);
      SeqAssoc(t[..e], m, LaterFirst(init));
    }
  }

  /** Splicing at offsets inside `x` leaves a suffix `b` after `x` untouched. */
  lemma {:induction false} SpliceBelow(x: string, b: string, run: seq<Citation>)
    requires forall y :: y in run ==> 0 <= y.endIndex <= |x|
    ensures |SpliceAll(x, run)| >= |x|
    ensures SpliceAll(x + b, run) == SpliceAll(x, run) + b
  {
    if run != [] {
      var init, y := run[..|run| - 1], run[|run| - 1];
      assert forall z :: z in init ==> z in run;
      SpliceBelow(x, b, init);
      var u := SpliceAll(x, init);
      var e := y.endIndex;
      var m := Marker(y.segments);
      assert (u + b)[..e] == u[..e] && (u + b)[e..] == u[e..] + b;
      SpliceInRange(u + b, y);
      SpliceInRange(u, y);
      SeqAssoc(u[..e] + m, u[e..], b);
    }
  }

  /** Tied citations anywhere in the input: with every end offset inside the text, the
      markers of all citations sharing `c`'s (end offset, start offset) key appear side by
      side in the marked text, the one latest in the input first. The run starts at `c`'s
      end offset, moved right by the markers of every citation sorted below the tie, since
      those are spliced in later, at that offset or before it. */
  lemma TiedCitationsAdjacent(t: string, cs: seq<Citation>, c: Citation)
    requires EndsInRange(t, cs)
    requires c in cs
    ensures OccursAt(MarkedText(t, cs), LaterFirst(Band(cs, c, Level)),
                     c.endIndex + MarkerTotal(Band(SortedDesc(cs), c, Below)))
  {
    var s := SortedDesc(cs);
    var above, level, below := Band(s, c, Above), Band(s, c, Level), Band(s, c, Below);
    assert s == above + level + below by {
      DescendingBands(s, c);
    }
    SortedBandsInRange(t, cs, c);
    RunsLaidOut(t, above, level, below, c.endIndex);
    assert level == Band(cs, c, Level) by {
      SortedStable(cs, c);
    }
    var pos := c.endIndex + MarkerTotal(below);
    assert OccursAt(SpliceAll(t, s), LaterFirst(Band(cs, c, Level)), pos);
    assert OccursAt(MarkedText(t, cs), LaterFirst(Band(cs, c, Level)), pos);
  }

  /** In the sorted list, citations above `c`'s key end at or after `c` and those below it
      end at or before `c`, all inside the text. */
  lemma SortedBandsInRange(t: string, cs: seq<Citation>, c: Citation)
    requires EndsInRange(t, cs)
    requires c in cs
    ensures c.endIndex <= |t|
    ensures forall x :: x in Band(SortedDesc(cs), c, Above) ==> c.endIndex <= x.endIndex <= |t|
    ensures forall x :: x in Band(SortedDesc(cs), c, Below) ==> 0 <= x.endIndex <= c.endIndex
  {
    var s := SortedDesc(cs);
    forall x | x in Band(s, c, Above) ensures c.endIndex <= x.endIndex <= |t| {
      assert x in s && SideOf(x, c) == Above;
      assert x in multiset(s);
    }
    forall x | x in Band(s, c, Below) ensures 0 <= x.endIndex <= c.endIndex {
      assert x in s && SideOf(x, c) == Below;
      assert x in multiset(s);
    }
  }

  /** Splicing runs whose end offsets lie at or after `e`, exactly at `e`, and at or before
      `e`, in that order: the middle run's markers sit together at `e`, after every marker
      of the last run. */
  lemma RunsLaidOut(t: string, above: seq<Citation>, level: seq<Citation>, below: seq<Citation>, e: nat)
    requires e <= |t|
    requires forall x :: x in above ==> e <= x.endIndex <= |t|
    requires forall x :: x in level ==> x.endIndex == e
    requires forall x :: x in below ==> 0 <= x.endIndex <= e
    ensures OccursAt(SpliceAll(t, above + level + below), LaterFirst(level), e + MarkerTotal(below))
  {
    var t1 := SpliceAll(t, above);
    assert e <= |t1| by {
      SpliceAboveKeepsPrefix(t, above, e);
    }
    var b := LaterFirst(level) + t1[e..];
    assert SpliceAll(t1, level) == t1[..e] + b by {
      SpliceLevel(t1, level, e);
      SeqAssoc(t1[..e], LaterFirst(level), t1[e..]);
    }
    var x := SpliceAll(t1[..e], below);
    assert SpliceAll(t1[..e] + b, below) == x + b by {
      SpliceBelow(t1[..e], b, below);
    }
    assert SpliceAll(t, above + level + below) == x + b by {
      SpliceAllAppend(t, above + level, below);
      SpliceAllAppend(t, above, level);
    }
    assert |x| == e + MarkerTotal(below) by {
      SpliceAllLength(t1[..e], below);
    }
    OccursInMiddle(x, LaterFirst(level), t1[e..]);
  }
}
