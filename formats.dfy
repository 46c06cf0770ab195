/**
 * The format filter: drop the page-only renditions (`mhtml`, `html`), project
 * every other raw format onto the client-facing record, and sort the result
 * in place by height, highest first, with a missing height counting as 0.
 * The sort is stable, as Python's `list.sort` is.
 */
module Formats {
  import opened Wrappers

  /**
   * One raw entry of the extractor's `formats` list. Each attribute the
   * filter reads is optional (absent key and `None` are the same here);
   * `others` stands for every further attribute the extractor supplies,
   * which the projection drops. `fps` is passed through untouched.
   */
  datatype FormatDescriptor = FormatDescriptor(
    formatId: Option<string>,
    ext: Option<string>,
    resolution: Option<string>,
    height: Option<int>,
    width: Option<int>,
    fps: Option<real>,
    filesize: Option<int>,
    url: Option<string>,
    vcodec: Option<string>,
    acodec: Option<string>,
    others: map<string, string>)

  /** The record the filter emits for one kept format: the same ten attributes. */
  datatype FormatSummary = FormatSummary(
    formatId: Option<string>,
    ext: Option<string>,
    resolution: Option<string>,
    height: Option<int>,
    width: Option<int>,
    fps: Option<real>,
    filesize: Option<int>,
    url: Option<string>,
    vcodec: Option<string>,
    acodec: Option<string>)

  /** The extensions of renditions that are web pages, not media. */
  predicate IsPageExt(ext: Option<string>) {
    ext == Some("mhtml") || ext == Some("html")
  }

  /** The `format_info` record built for a kept entry. */
  function Summarize(f: FormatDescriptor): FormatSummary {
    FormatSummary(f.formatId, f.ext, f.resolution, f.height, f.width,
                  f.fps, f.filesize, f.url, f.vcodec, f.acodec)
  }

  /** `formats` may be absent; an absent list behaves as the empty one. */
  function Entries(formats: Option<seq<FormatDescriptor>>): seq<FormatDescriptor> {
    formats.GetOr([])
  }

  /** The filtered list before sorting: the summaries of the non-page entries, in input order. */
  function Kept(xs: seq<FormatDescriptor>): seq<FormatSummary> {
    if |xs| == 0 then []
    else
      var last := xs[|xs| - 1];
      Kept(xs[..|xs| - 1]) + (if IsPageExt(last.ext) then [] else [Summarize(last)])
  }

  /** The positions of the non-page entries of `xs`, increasing: each kept entry exactly once. */
  ghost function KeptIndices(xs: seq<FormatDescriptor>): (idx: seq<nat>)
    ensures forall i, j :: 0 <= i < j < |idx| ==> idx[i] < idx[j]
    ensures forall i :: 0 <= i < |idx| ==> idx[i] < |xs| && !IsPageExt(xs[idx[i]].ext)
    ensures forall j :: 0 <= j < |xs| && !IsPageExt(xs[j].ext) ==> j in idx
  {
    if |xs| == 0 then []
    else
      var front := KeptIndices(xs[..|xs| - 1]);
      assert forall j :: 0 <= j < |xs| - 1 ==> xs[..|xs| - 1][j] == xs[j];
      front + (if IsPageExt(xs[|xs| - 1].ext) then [] else [|xs| - 1])
  }

  /** The sort key `x.get('height') or 0`. */
  function HeightKey(s: FormatSummary): int {
    s.height.GetOr(0)
  }

  ghost predicate SortedByHeight(s: seq<FormatSummary>) {
    forall i, j :: 0 <= i < j < |s| ==> HeightKey(s[i]) >= HeightKey(s[j])
  }

  /** The entries of `s` whose key is `k`, in their order in `s`. */
  function SameHeight(s: seq<FormatSummary>, k: int): (r: seq<FormatSummary>)
    ensures forall x :: x in r ==> x in s && HeightKey(x) == k
  {
    if |s| == 0 then []
    else (if HeightKey(s[0]) == k then [s[0]] else []) + SameHeight(s[1..], k)
  }

  /** `r` keeps, among the entries of every height, the relative order they have in `s`. */
  ghost predicate SameOrderPerHeight(r: seq<FormatSummary>, s: seq<FormatSummary>) {
    forall k :: SameHeight(r, k) == SameHeight(s, k)
  }

  // ----- Properties of the filtering step -----

  /** Output entry `i` is the projection of input entry `KeptIndices(xs)[i]`. */
  lemma {:induction false} KeptCorrespondence(xs: seq<FormatDescriptor>)
    ensures |Kept(xs)| == |KeptIndices(xs)|
    ensures forall i :: 0 <= i < |Kept(xs)| ==> Kept(xs)[i] == Summarize(xs[KeptIndices(xs)[i]])
  {
    if |xs| > 0 {
      var front := xs[..|xs| - 1];
      KeptCorrespondence(front);
      assert forall j :: 0 <= j < |front| ==> front[j] == xs[j];
    }
  }

  /** No page rendition survives, and every attribute of a kept entry is the source's own. */
  lemma KeptDropsPages(xs: seq<FormatDescriptor>)
    ensures forall s :: s in Kept(xs) ==> !IsPageExt(s.ext)
    ensures forall s :: s in Kept(xs) ==> exists j :: 0 <= j < |xs| && s == Summarize(xs[j])
  {
    KeptCorrespondence(xs);
    forall s | s in Kept(xs)
      ensures !IsPageExt(s.ext) && exists j :: 0 <= j < |xs| && s == Summarize(xs[j])
    {
      var i :| 0 <= i < |Kept(xs)| && Kept(xs)[i] == s;
      var j := KeptIndices(xs)[i];
      assert s == Summarize(xs[j]);
    }
  }

  /** An absent height stays absent: the summary has a height exactly when its source does, and the same one. */
  lemma SummaryKeepsHeight(f: FormatDescriptor)
    ensures Summarize(f).height.None? <==> f.height.None?
    ensures f.height.Some? ==> Summarize(f).height == f.height
    ensures f.height == Some(0) ==> HeightKey(Summarize(f)) == 0 && Summarize(f).height.Some?
  {
  }

  // ----- Properties of the per-height subsequences -----

  lemma {:induction false} SameHeightAppend(a: seq<FormatSummary>, b: seq<FormatSummary>, k: int)
    ensures SameHeight(a + b, k) == SameHeight(a, k) + SameHeight(b, k)
  {
    if |a| == 0 {
      assert a + b == b;
    } else {
      assert (a + b)[0] == a[0];
      assert (a + b)[1..] == a[1..] + b;
      SameHeightAppend(a[1..], b, k);
    }
  }

  /** The exchange of neighbours `s[j - 1]` and `s[j]`. */
  function SwapAt(s: seq<FormatSummary>, j: nat): (t: seq<FormatSummary>)
    requires 0 < j < |s|
    ensures t == s[..j - 1] + [s[j], s[j - 1]] + s[j + 1..]
  {
    s[j - 1 := s[j]][j := s[j - 1]]
  }

  lemma SameHeightSingle(x: FormatSummary, k: int)
    ensures SameHeight([x], k) == if HeightKey(x) == k then [x] else []
  {
    assert [x][1..] == [];
  }

  /** Two neighbours of different heights contribute the same to every height in either order. */
  lemma SameHeightPairCommutes(x: FormatSummary, y: FormatSummary, k: int)
    requires HeightKey(x) != HeightKey(y)
    ensures SameHeight([x, y], k) == SameHeight([y, x], k)
  {
    SameHeightAppend([x], [y], k);
    SameHeightAppend([y], [x], k);
    assert [x] + [y] == [x, y];
    assert [y] + [x] == [y, x];
    SameHeightSingle(x, k);
    SameHeightSingle(y, k);
  }

  lemma SwapSameHeight(s: seq<FormatSummary>, j: nat, k: int)
    requires 0 < j < |s| && HeightKey(s[j - 1]) != HeightKey(s[j])
    ensures SameHeight(SwapAt(s, j), k) == SameHeight(s, k)
  {
    var front, back := s[..j - 1], s[j + 1..];
    var xy, yx := [s[j - 1], s[j]], [s[j], s[j - 1]];
    assert s == (front + xy) + back;
    assert SwapAt(s, j) == (front + yx) + back;
    SameHeightAppend(front + xy, back, k);
    SameHeightAppend(front, xy, k);
    SameHeightAppend(front + yx, back, k);
    SameHeightAppend(front, yx, k);
    SameHeightPairCommutes(s[j - 1], s[j], k);
  }

  /** Exchanging two neighbours of different heights changes no per-height subsequence. */
  lemma SwapKeepsOrderPerHeight(s: seq<FormatSummary>, j: nat)
    requires 0 < j < |s| && HeightKey(s[j - 1]) != HeightKey(s[j])
    ensures SameOrderPerHeight(SwapAt(s, j), s)
    ensures multiset(SwapAt(s, j)) == multiset(s)
    ensures StablyRearranged(SwapAt(s, j), s)
  {
    forall k ensures SameHeight(SwapAt(s, j), k) == SameHeight(s, k) {
      SwapSameHeight(s, j, k);
    }
    var front, back := s[..j - 1], s[j + 1..];
    assert s == front + [s[j - 1], s[j]] + back;
  }

  lemma HeadHeightPresent(s: seq<FormatSummary>)
    ensures |s| > 0 ==> SameHeight(s, HeightKey(s[0])) == [s[0]] + SameHeight(s[1..], HeightKey(s[0]))
  {
  }

  /** In a list sorted by height, the first entry is at least as high as any entry. */
  lemma SortedHeadHighest(s: seq<FormatSummary>, x: FormatSummary)
    requires SortedByHeight(s) && x in s
    ensures HeightKey(s[0]) >= HeightKey(x)
  {
    var i :| 0 <= i < |s| && s[i] == x;
    if i > 0 {
      assert HeightKey(s[0]) >= HeightKey(s[i]);
    }
  }

  /** The first entry of a sorted list heads the subsequence of its own height. */
  lemma HeadOfOwnHeight(s: seq<FormatSummary>)
    requires SortedByHeight(s) && |s| > 0
    ensures SameHeight(s, HeightKey(s[0])) != [] && SameHeight(s, HeightKey(s[0]))[0] == s[0]
  {
    HeadHeightPresent(s);
  }

  /** Two sorted arrangements that agree on every height's order start with the same entry. */
  lemma SortedHeadsAgree(r1: seq<FormatSummary>, r2: seq<FormatSummary>)
    requires SortedByHeight(r1) && SortedByHeight(r2)
    requires SameOrderPerHeight(r1, r2)
    requires |r1| > 0
    ensures |r2| > 0 && r1[0] == r2[0]
  {
    var k1 := HeightKey(r1[0]);
    HeadOfOwnHeight(r1);
    assert SameHeight(r2, k1) == SameHeight(r1, k1);
    var y := SameHeight(r2, k1)[0];
    assert y in r2 && HeightKey(y) == k1;
    SortedHeadHighest(r2, y);
    var k2 := HeightKey(r2[0]);
    HeadOfOwnHeight(r2);
    assert SameHeight(r1, k2) == SameHeight(r2, k2);
    var x := SameHeight(r1, k2)[0];
    assert x in r1 && HeightKey(x) == k2;
    SortedHeadHighest(r1, x);
    assert k1 == k2;
  }

  lemma SameHeightUnfold(s: seq<FormatSummary>, k: int)
    requires |s| > 0
    ensures SameHeight(s, k) == (if HeightKey(s[0]) == k then [s[0]] else []) + SameHeight(s[1..], k)
  {
  }

  /** Removing the same first entry from both lists keeps every height's order equal. */
  lemma TailsSameOrder(r1: seq<FormatSummary>, r2: seq<FormatSummary>)
    requires |r1| > 0 && |r2| > 0 && r1[0] == r2[0]
    requires SameOrderPerHeight(r1, r2)
    ensures SameOrderPerHeight(r1[1..], r2[1..])
  {
    forall k ensures SameHeight(r1[1..], k) == SameHeight(r2[1..], k) {
      var t1, t2 := SameHeight(r1[1..], k), SameHeight(r2[1..], k);
      SameHeightUnfold(r1, k);
      SameHeightUnfold(r2, k);
      assert SameHeight(r1, k) == SameHeight(r2, k);
      if HeightKey(r1[0]) == k {
        assert ([r1[0]] + t1)[1..] == t1;
        assert ([r2[0]] + t2)[1..] == t2;
      } else {
        assert [] + t1 == t1 && [] + t2 == t2;
      }
    }
  }

  /**
   * Sorted by height and in input order within each height determine the
   * result completely: two such arrangements of the same entries are equal.
   */
  lemma {:induction false} SortedSameOrderUnique(r1: seq<FormatSummary>, r2: seq<FormatSummary>)
    requires SortedByHeight(r1) && SortedByHeight(r2)
    requires SameOrderPerHeight(r1, r2)
    ensures r1 == r2
  {
    if |r1| > 0 {
      SortedHeadsAgree(r1, r2);
      TailsSameOrder(r1, r2);
      SortedSameOrderUnique(r1[1..], r2[1..]);
      assert r1 == [r1[0]] + r1[1..];
      assert r2 == [r2[0]] + r2[1..];
    } else if |r2| > 0 {
      SortedHeadsAgree(r2, r1);
    }
  }

  // ----- The in-place sort -----

  /**
   * `filtered.sort(key=lambda x: (x.get('height') or 0), reverse=True)`:
   * an insertion sort that moves an entry left only past strictly lower
   * entries, which is what makes it stable.
   */
  method SortByHeight(a: array<FormatSummary>)
    modifies a
    ensures SortedByHeight(a[..])
    ensures multiset(a[..]) == multiset(old(a[..]))
    ensures SameOrderPerHeight(a[..], old(a[..]))
  {
    var i := 0;
    while i < a.Length
      invariant 0 <= i <= a.Length
      invariant forall p, q :: 0 <= p < q < i ==> HeightKey(a[p]) >= HeightKey(a[q])
      invariant StablyRearranged(a[..], old(a[..]))
    {
      ghost var s := a[..];
      InsertLeft(a, i);
      StablyRearrangedTrans(a[..], s, old(a[..]));
      i := i + 1;
    }
  }

  /** `t` holds the entries of `s`, each height's entries in the order they have in `s`. */
  ghost predicate StablyRearranged(t: seq<FormatSummary>, s: seq<FormatSummary>) {
    multiset(t) == multiset(s) && SameOrderPerHeight(t, s)
  }

  lemma StablyRearrangedTrans(u: seq<FormatSummary>, t: seq<FormatSummary>, s: seq<FormatSummary>)
    requires StablyRearranged(u, t) && StablyRearranged(t, s)
    ensures StablyRearranged(u, s)
  {
  }

  /** `s[..i + 1]` is sorted by height except that `s[j]` may be higher than what precedes it. */
  ghost predicate SortedExcept(s: seq<FormatSummary>, i: nat, j: nat) {
    i < |s| && j <= i &&
    forall p, q :: 0 <= p < q <= i && q != j ==> HeightKey(s[p]) >= HeightKey(s[q])
  }

  lemma SinkStep(s: seq<FormatSummary>, i: nat, j: nat)
    requires SortedExcept(s, i, j) && 0 < j && HeightKey(s[j - 1]) < HeightKey(s[j])
    ensures SortedExcept(SwapAt(s, j), i, j - 1)
  {
  }

  lemma SinkDone(s: seq<FormatSummary>, i: nat, j: nat)
    requires SortedExcept(s, i, j) && (j == 0 || HeightKey(s[j - 1]) >= HeightKey(s[j]))
    ensures forall p, q :: 0 <= p < q <= i ==> HeightKey(s[p]) >= HeightKey(s[q])
  {
    forall p, q | 0 <= p < q <= i ensures HeightKey(s[p]) >= HeightKey(s[q]) {
      if q == j && p < j - 1 {
        assert HeightKey(s[p]) >= HeightKey(s[j - 1]);
      }
    }
  }

  /** Exchanging neighbours at or before `i` leaves everything after `i` in place. */
  lemma SwapKeepsSuffix(s: seq<FormatSummary>, j: nat, i: nat)
    requires 0 < j <= i < |s|
    ensures SwapAt(s, j)[i + 1..] == s[i + 1..]
  {
  }

  /** Equal contents and an equal tail from `n` on mean equal contents before `n`. */
  lemma PrefixMultiset(t: seq<FormatSummary>, s: seq<FormatSummary>, n: nat)
    requires n <= |t| == |s| && multiset(t) == multiset(s) && t[n..] == s[n..]
    ensures multiset(t[..n]) == multiset(s[..n])
  {
    assert t == t[..n] + t[n..];
    assert s == s[..n] + s[n..];
    assert multiset(t[..n]) == multiset(t) - multiset(t[n..]);
    assert multiset(s[..n]) == multiset(s) - multiset(s[n..]);
  }

  /**
   * The state of one insertion pass over `t`, started from `s0`: `t[j]` is
   * sinking into the sorted `t[..i + 1]`, `t` is a stable rearrangement of
   * `s0`, and nothing after position `i` has moved.
   */
  ghost predicate Inserting(t: seq<FormatSummary>, s0: seq<FormatSummary>, i: nat, j: nat) {
    SortedExcept(t, i, j) && StablyRearranged(t, s0) && |t| == |s0| && t[i + 1..] == s0[i + 1..]
  }

  lemma InsertingStep(t: seq<FormatSummary>, s0: seq<FormatSummary>, i: nat, j: nat)
    requires Inserting(t, s0, i, j) && 0 < j && HeightKey(t[j - 1]) < HeightKey(t[j])
    ensures Inserting(SwapAt(t, j), s0, i, j - 1)
  {
    SwapKeepsOrderPerHeight(t, j);
    SinkStep(t, i, j);
    SwapKeepsSuffix(t, j, i);
    StablyRearrangedTrans(SwapAt(t, j), t, s0);
  }

  lemma InsertingDone(t: seq<FormatSummary>, s0: seq<FormatSummary>, i: nat, j: nat)
    requires Inserting(t, s0, i, j) && (j == 0 || HeightKey(t[j - 1]) >= HeightKey(t[j]))
    ensures forall p, q :: 0 <= p < q <= i ==> HeightKey(t[p]) >= HeightKey(t[q])
    ensures multiset(t[..i + 1]) == multiset(s0[..i + 1])
  {
    SinkDone(t, i, j);
    PrefixMultiset(t, s0, i + 1);
  }

  /** Exchange `a[j - 1]` and `a[j]`. */
  method SwapNeighbours(a: array<FormatSummary>, j: nat)
    requires 0 < j < a.Length
    modifies a
    ensures a[..] == SwapAt(old(a[..]), j)
  {
    a[j - 1], a[j] := a[j], a[j - 1];
  }

  /** One pass of the insertion sort: move `a[i]` left into the sorted prefix `a[..i]`. */
  method InsertLeft(a: array<FormatSummary>, i: nat)
    requires i < a.Length
    requires forall p, q :: 0 <= p < q < i ==> HeightKey(a[p]) >= HeightKey(a[q])
    modifies a
    ensures forall p, q :: 0 <= p < q <= i ==> HeightKey(a[p]) >= HeightKey(a[q])
    ensures StablyRearranged(a[..], old(a[..]))
    ensures a[i + 1..] == old(a[i + 1..])
    ensures multiset(a[..i + 1]) == multiset(old(a[..i + 1]))
  {
    ghost var s0 := a[..];
    var j: nat := i;
    assert Inserting(a[..], s0, i, j);
    while j > 0 && HeightKey(a[j - 1]) < HeightKey(a[j])
      invariant Inserting(a[..], s0, i, j)
    {
      InsertingStep(a[..], s0, i, j);
      SwapNeighbours(a, j);
      j := j - 1;
    }
    InsertingDone(a[..], s0, i, j);
  }

  // ----- The whole filter -----

  /**
   * `filter_formats`: the kept entries, sorted by height (highest first),
   * entries of equal height in their input order; an absent or empty
   * list gives the empty list.
   */
  method FilterFormats(formats: Option<seq<FormatDescriptor>>) returns (r: seq<FormatSummary>)
    ensures formats == None || formats == Some([]) ==> r == []
    ensures forall s :: s in r ==> !IsPageExt(s.ext)
    ensures multiset(r) == multiset(Kept(Entries(formats)))
    ensures SortedByHeight(r)
    ensures SameOrderPerHeight(r, Kept(Entries(formats)))
  {
    if formats.None? || |formats.value| == 0 {
      return [];
    }
    var xs := formats.value;
    var filtered: seq<FormatSummary> := [];
    for i := 0 to |xs|
      invariant filtered == Kept(xs[..i])
    {
      var f := xs[i];
      assert xs[..i + 1][..i] == xs[..i];
      if IsPageExt(f.ext) {
        continue;
      }
      var formatInfo := Summarize(f);
      filtered := filtered + [formatInfo];
    }
    assert xs[..|xs|] == xs;
    var a := new FormatSummary[|filtered|](k requires 0 <= k < |filtered| => filtered[k]);
    assert a[..] == filtered;
    SortByHeight(a);
    r := a[..];
    KeptDropsPages(xs);
    forall s | s in r ensures !IsPageExt(s.ext) {
      assert s in multiset(r);
    }
  }
}
