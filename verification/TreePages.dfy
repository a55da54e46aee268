// The pages a tree occupies, and the chain that links its leaves.
module TreePages {
  import opened Sequences
  import opened TreeModel

  ghost function PagesOf(t: Tree): set<PageId> {
    {t.page} + if t.Inner? then set i, p | 0 <= i < |t.children| && p in PagesOf(t.children[i]) :: p else {}
  }

  /** No page is used twice. */
  ghost predicate Distinct(t: Tree) {
    t.Inner? ==>
      && (forall i :: 0 <= i < |t.children| ==> Distinct(t.children[i]) && t.page !in PagesOf(t.children[i]))
      && (forall i, j :: 0 <= i < j < |t.children| ==> PagesOf(t.children[i]) !! PagesOf(t.children[j]))
  }

  ghost predicate Below(pages: set<PageId>, np: PageId) {
    forall p :: p in pages ==> p < np
  }

  /** new uses pages of was and pages from lo up to hi. */
  ghost predicate Grown(new': set<PageId>, was: set<PageId>, lo: PageId, hi: PageId) {
    forall p :: p in new' ==> p in was || lo <= p < hi
  }

  ghost function ResultPages(r: Inserted): set<PageId> {
    match r
    case Kept(t, _) => PagesOf(t)
    case Split(l, _, r, _) => PagesOf(l) + PagesOf(r)
  }

  ghost predicate ResultDistinct(r: Inserted) {
    match r
    case Kept(t, _) => Distinct(t)
    case Split(l, _, r, _) => Distinct(l) && Distinct(r) && PagesOf(l) !! PagesOf(r)
  }

  lemma ChildPages(t: Tree, i: nat)
    requires t.Inner? && i < |t.children|
    ensures PagesOf(t.children[i]) <= PagesOf(t)
  {
  }

  lemma SplitPages(t: Tree, np: PageId)
    requires t.Leaf? ==> |t.keys| == |t.values|
    requires t.Inner? ==> |t.children| == |t.keys| + 1
    requires Distinct(t) && Below(PagesOf(t), np)
    ensures ResultDistinct(Settle(t, np))
    ensures Grown(ResultPages(Settle(t, np)), PagesOf(t), np, Settle(t, np).np)
  {
    if |t.keys| >= MAX_KEYS && t.Inner? {
      HalvesDistinct(t, np, |t.keys| / 2, SplitInner(t, np).left, SplitInner(t, np).right);
    }
  }

  /** A node over some of the children of a distinct tree is distinct. */
  lemma SliceDistinct(t: Tree, lo: nat, hi: nat, s: Tree)
    requires t.Inner? && Distinct(t) && lo <= hi <= |t.children|
    requires s.Inner? && s.children == t.children[lo..hi]
    requires s.page !in PagesOf(t) || s.page == t.page
    ensures Distinct(s) && Grown(PagesOf(s), PagesOf(t), s.page, s.page + 1)
  {
    assert forall i :: 0 <= i < |s.children| ==> s.children[i] == t.children[lo + i];
  }

  lemma ChildWith(t: Tree, p: PageId) returns (i: nat)
    requires t.Inner? && p in PagesOf(t) && p != t.page
    ensures i < |t.children| && p in PagesOf(t.children[i])
  {
    i :| 0 <= i < |t.children| && p in PagesOf(t.children[i]);
  }

  lemma SharedPage(t: Tree, p: PageId, i: nat, j: nat)
    requires t.Inner? && Distinct(t) && i < j < |t.children|
    ensures !(p in PagesOf(t.children[i]) && p in PagesOf(t.children[j]))
    ensures t.page !in PagesOf(t.children[j])
  {
  }

  lemma SlicesApart(t: Tree, m: nat, l: Tree, r: Tree)
    requires t.Inner? && Distinct(t) && 0 < m <= |t.children|
    requires l.Inner? && l.page == t.page && l.children == t.children[..m]
    requires r.Inner? && r.page !in PagesOf(t) && r.children == t.children[m..]
    ensures PagesOf(l) !! PagesOf(r)
  {
    forall p | p in PagesOf(l) ensures p !in PagesOf(r) {
      if p in PagesOf(r) {
        var i := 0;
        if p != l.page {
          i := ChildWith(l, p);
          ChildPages(t, i);
        }
        assert p in PagesOf(t);
        var j := ChildWith(r, p);
        SharedPage(t, p, i, m + j);
      }
    }
  }

  lemma HalvesDistinct(t: Tree, np: PageId, mid: nat, l: Tree, r: Tree)
    requires t.Inner? && Distinct(t) && Below(PagesOf(t), np) && mid < |t.children| - 1
    requires l.Inner? && l.page == t.page && l.children == t.children[..mid + 1]
    requires r.Inner? && r.page == np && r.children == t.children[mid + 1..]
    ensures Distinct(l) && Distinct(r) && PagesOf(l) !! PagesOf(r)
    ensures Grown(PagesOf(l) + PagesOf(r), PagesOf(t), np, np + 1)
  {
    SlicesApart(t, mid + 1, l, r);
    SliceDistinct(t, 0, mid + 1, l);
    SliceDistinct(t, mid + 1, |t.children|, r);
  }

  lemma ReplacedDistinct(t: Tree, i: nat, c: Tree, lo: PageId, hi: PageId)
    requires t.Inner? && Distinct(t) && Below(PagesOf(t), lo) && i < |t.children|
    requires Distinct(c) && Grown(PagesOf(c), PagesOf(t.children[i]), lo, hi)
    ensures Distinct(t.(children := t.children[i := c]))
    ensures Grown(PagesOf(t.(children := t.children[i := c])), PagesOf(t), lo, hi)
  {
    var t' := t.(children := t.children[i := c]);
    ChildPages(t, i);
    forall j | 0 <= j < |t'.children| ensures Grown(PagesOf(t'.children[j]), PagesOf(t.children[j]), lo, hi) {
    }
    forall j, m | 0 <= j < m < |t'.children| ensures PagesOf(t'.children[j]) !! PagesOf(t'.children[m]) {
      ChildPages(t, j);
      ChildPages(t, m);
    }
  }

  ghost predicate Added(t: Tree, i: nat, c: Tree, t': Tree) {
    && t.Inner? && i <= |t.children| && Distinct(t) && Distinct(c) && PagesOf(c) !! PagesOf(t)
    && t'.Inner? && t'.page == t.page && t'.children == InsertAt(t.children, i, c)
  }

  lemma AddedPair(t: Tree, i: nat, c: Tree, t': Tree, j: nat, m: nat)
    requires Added(t, i, c, t') && j < m < |t'.children|
    ensures PagesOf(t'.children[j]) !! PagesOf(t'.children[m])
  {
    InsertedAt(t.children, i, c, j);
    InsertedAt(t.children, i, c, m);
    if j == i {
      ChildPages(t, m - 1);
    } else if m == i {
      ChildPages(t, j);
    }
  }

  lemma AddedChild(t: Tree, i: nat, c: Tree, t': Tree, j: nat)
    requires Added(t, i, c, t') && j < |t'.children|
    ensures Distinct(t'.children[j]) && t'.page !in PagesOf(t'.children[j])
    ensures PagesOf(t'.children[j]) <= PagesOf(t) + PagesOf(c)
  {
    InsertedAt(t.children, i, c, j);
    if j != i {
      ChildPages(t, if j < i then j else j - 1);
    }
  }

  /** One more child with pages of its own keeps a tree distinct. */
  lemma AddedDistinct(t: Tree, i: nat, c: Tree, t': Tree)
    requires Added(t, i, c, t')
    ensures Distinct(t') && PagesOf(t') <= PagesOf(t) + PagesOf(c)
  {
    forall j | 0 <= j < |t'.children|
      ensures Distinct(t'.children[j]) && t'.page !in PagesOf(t'.children[j])
      ensures PagesOf(t'.children[j]) <= PagesOf(t) + PagesOf(c)
    {
      AddedChild(t, i, c, t', j);
    }
    forall j, m | 0 <= j < m < |t'.children| ensures PagesOf(t'.children[j]) !! PagesOf(t'.children[m]) {
      AddedPair(t, i, c, t', j, m);
    }
  }

  lemma AfterChildDistinct(t: Tree, i: nat, below: Inserted, np: PageId)
    requires t.Inner? && |t.children| == |t.keys| + 1 && i < |t.children|
    requires Distinct(t) && Below(PagesOf(t), np) && np <= below.np
    requires ResultDistinct(below) && Grown(ResultPages(below), PagesOf(t.children[i]), np, below.np)
    ensures ResultDistinct(AfterChild(t, i, below))
    ensures Grown(ResultPages(AfterChild(t, i, below)), PagesOf(t), np, AfterChild(t, i, below).np)
  {
    match below
    case Kept(c, np') => ReplacedDistinct(t, i, c, np, np');
    case Split(l, s, r, np') =>
      var t1, t2 := t.(children := t.children[i := l]), WithSplitChild(t, i, l, s, r);
      ReplacedDistinct(t, i, l, np, np');
      DisjointSibling(t, i, l, r, np, np');
      AddedDistinct(t1, i + 1, r, t2);
      SplitPages(t2, np');
  }

  lemma DisjointSibling(t: Tree, i: nat, l: Tree, r: Tree, lo: PageId, hi: PageId)
    requires t.Inner? && Distinct(t) && Below(PagesOf(t), lo) && i < |t.children|
    requires PagesOf(l) !! PagesOf(r)
    requires Grown(PagesOf(r), PagesOf(t.children[i]), lo, hi)
    ensures PagesOf(r) !! PagesOf(t.(children := t.children[i := l]))
  {
    var t1 := t.(children := t.children[i := l]);
    ChildPages(t, i);
    forall p | p in PagesOf(t1) ensures p !in PagesOf(r) {
      if p != t.page {
        var j :| 0 <= j < |t1.children| && p in PagesOf(t1.children[j]);
        ChildPages(t, j);
      }
    }
  }

  /** An insertion keeps the pages it had, takes the rest from np on, and uses none twice. */
  lemma {:induction false} InsertDistinct(t: Tree, k: Key, v: Value, np: PageId)
    requires Sized(t) && Distinct(t) && Below(PagesOf(t), np)
    ensures ResultDistinct(InsertBelow(t, k, v, np))
    ensures Grown(ResultPages(InsertBelow(t, k, v, np)), PagesOf(t), np, InsertBelow(t, k, v, np).np)
  {
    if t.Leaf? {
      SplitPages(InsertLeaf(t, k, v), np);
    } else {
      var i := Position(t.keys, k);
      ChildPages(t, i);
      InsertDistinct(t.children[i], k, v, np);
      AfterChildDistinct(t, i, InsertBelow(t.children[i], k, v, np), np);
    }
  }

  // ----- the leaf chain -----

  function FirstPage(t: Tree): PageId
    requires Sized(t)
  {
    if t.Leaf? then t.page else FirstPage(t.children[0])
  }

  /** Each leaf of t points to the next one, and the last to page e. */
  ghost predicate Chained(t: Tree, e: PageId)
    requires Sized(t)
  {
    match t
    case Leaf(_, _, _, next) => next == e
    case Inner(_, _, children) =>
      forall i :: 0 <= i < |children| ==> Chained(children[i], Following(children, i, e))
  }

  /** The page that the last leaf of child i points to. */
  function Following(cs: seq<Tree>, i: nat, e: PageId): PageId
    requires i < |cs| && forall j :: 0 <= j < |cs| ==> Sized(cs[j])
  {
    if i + 1 < |cs| then FirstPage(cs[i + 1]) else e
  }

  ghost predicate ResultChained(r: Inserted, first: PageId, e: PageId) {
    match r
    case Kept(t, _) => Sized(t) && Chained(t, e) && FirstPage(t) == first
    case Split(l, _, r, _) =>
      Sized(l) && Sized(r) && Chained(l, FirstPage(r)) && Chained(r, e) && FirstPage(l) == first
  }

  lemma SettleChained(t: Tree, np: PageId, e: PageId)
    requires Sized(t) && Chained(t, e)
    ensures ResultChained(Settle(t, np), FirstPage(t), e)
  {
    if |t.keys| >= MAX_KEYS && t.Inner? {
      var s, mid := SplitInner(t, np), |t.keys| / 2;
      HalvesChained(t, mid + 1, s.left, s.right, e);
    }
  }

  ghost predicate AllSized(cs: seq<Tree>) {
    forall j :: 0 <= j < |cs| ==> Sized(cs[j])
  }

  lemma FollowingInSlices(cs: seq<Tree>, m: nat, i: nat, e: PageId)
    requires 0 < m < |cs| && i < |cs| && AllSized(cs)
    ensures AllSized(cs[..m]) && AllSized(cs[m..])
    ensures i < m ==> cs[..m][i] == cs[i] && Following(cs[..m], i, FirstPage(cs[m])) == Following(cs, i, e)
    ensures i >= m ==> cs[m..][i - m] == cs[i] && Following(cs[m..], i - m, e) == Following(cs, i, e)
  {
    assert forall j :: 0 <= j < |cs[m..]| ==> cs[m..][j] == cs[m + j];
  }

  ghost predicate ForestChained(cs: seq<Tree>, e: PageId)
    requires AllSized(cs)
  {
    forall i :: 0 <= i < |cs| ==> Chained(cs[i], Following(cs, i, e))
  }

  lemma SlicesChained(cs: seq<Tree>, m: nat, e: PageId)
    requires AllSized(cs) && ForestChained(cs, e) && 0 < m < |cs|
    ensures AllSized(cs[..m]) && ForestChained(cs[..m], FirstPage(cs[m]))
    ensures AllSized(cs[m..]) && ForestChained(cs[m..], e)
  {
    FollowingInSlices(cs, m, 0, e);
    forall i | 0 <= i < m ensures Chained(cs[..m][i], Following(cs[..m], i, FirstPage(cs[m]))) {
      FollowingInSlices(cs, m, i, e);
    }
    forall i | 0 <= i < |cs[m..]| ensures Chained(cs[m..][i], Following(cs[m..], i, e)) {
      FollowingInSlices(cs, m, m + i, e);
    }
  }

  lemma HalvesChained(t: Tree, m: nat, l: Tree, r: Tree, e: PageId)
    requires t.Inner? && Sized(t) && Chained(t, e) && 0 < m < |t.children|
    requires l.Inner? && l.children == t.children[..m] && |l.keys| == m - 1
    requires r.Inner? && r.children == t.children[m..] && |r.keys| == |t.children| - m - 1
    ensures Sized(l) && Sized(r) && Chained(l, FirstPage(r)) && Chained(r, e) && FirstPage(l) == FirstPage(t)
  {
    SlicesChained(t.children, m, e);
  }

  lemma AfterChildChained(t: Tree, i: nat, below: Inserted, e: PageId)
    requires t.Inner? && Sized(t) && Chained(t, e) && i < |t.children|
    requires ResultChained(below, FirstPage(t.children[i]), Following(t.children, i, e))
    ensures ResultChained(AfterChild(t, i, below), FirstPage(t), e)
  {
    match below
    case Kept(c, _) =>
      var t' := t.(children := t.children[i := c]);
      forall j | 0 <= j < |t'.children| ensures Chained(t'.children[j], Following(t'.children, j, e)) {
        assert Chained(t.children[j], Following(t.children, j, e));
      }
    case Split(l, s, r, np) =>
      SplitChildChained(t, i, l, s, r, e);
      SettleChained(WithSplitChild(t, i, l, s, r), np, e);
  }

  lemma TwoForOneSized(cs: seq<Tree>, i: nat, l: Tree, r: Tree, cs': seq<Tree>)
    requires TwoForOne(cs, i, l, r, cs') && AllSized(cs) && Sized(l) && Sized(r)
    ensures AllSized(cs')
  {
    forall j | 0 <= j < |cs'| ensures Sized(cs'[j]) {
      TwoForOneFrom(cs, i, l, r, cs', j);
    }
  }

  lemma TwoForOneChild(cs: seq<Tree>, i: nat, l: Tree, r: Tree, cs': seq<Tree>, e: PageId, j: nat)
    requires TwoForOne(cs, i, l, r, cs') && j < |cs| && AllSized(cs) && AllSized(cs')
    requires FirstPage(l) == FirstPage(cs[i]) && Chained(cs[j], Following(cs, j, e))
    ensures j < i ==> Chained(cs'[j], Following(cs', j, e))
    ensures j > i ==> Chained(cs'[j + 1], Following(cs', j + 1, e))
    ensures Following(cs', i + 1, e) == Following(cs, i, e)
  {
    if j + 1 < |cs| { assert cs[j + 1] == cs'[j + 1] || cs[j + 1] == cs'[j + 2] || j + 1 == i; }
    if i + 1 < |cs| { assert cs[i + 1] == cs'[i + 2]; }
  }

  lemma TwoForOneAt(cs: seq<Tree>, i: nat, l: Tree, r: Tree, cs': seq<Tree>, e: PageId, j: nat)
    requires TwoForOne(cs, i, l, r, cs') && AllSized(cs) && AllSized(cs') && ForestChained(cs, e) && j < |cs'|
    requires FirstPage(l) == FirstPage(cs[i]) && Chained(l, FirstPage(r)) && Chained(r, Following(cs, i, e))
    ensures Chained(cs'[j], Following(cs', j, e))
  {
    hide Chained, FirstPage, Sized;
    var was := if j <= i then j else j - 1;
    assert Chained(cs[was], Following(cs, was, e));
    TwoForOneChild(cs, i, l, r, cs', e, was);
  }

  lemma TwoForOneChained(cs: seq<Tree>, i: nat, l: Tree, r: Tree, cs': seq<Tree>, e: PageId)
    requires TwoForOne(cs, i, l, r, cs') && AllSized(cs) && AllSized(cs') && ForestChained(cs, e)
    requires FirstPage(l) == FirstPage(cs[i]) && Chained(l, FirstPage(r)) && Chained(r, Following(cs, i, e))
    ensures ForestChained(cs', e)
  {
    forall j | 0 <= j < |cs'| ensures Chained(cs'[j], Following(cs', j, e)) {
      TwoForOneAt(cs, i, l, r, cs', e, j);
    }
  }

  lemma SplitChildChained(t: Tree, i: nat, l: Tree, s: Key, r: Tree, e: PageId)
    requires t.Inner? && Sized(t) && Chained(t, e) && i < |t.children|
    requires ResultChained(Split(l, s, r, 0), FirstPage(t.children[i]), Following(t.children, i, e))
    ensures ResultChained(Kept(WithSplitChild(t, i, l, s, r), 0), FirstPage(t), e)
  {
    InsertTwoForOne(t.children, i, l, r);
    TwoForOneSized(t.children, i, l, r, InsertAt(t.children[i := l], i + 1, r));
    TwoForOneChained(t.children, i, l, r, InsertAt(t.children[i := l], i + 1, r), e);
  }

  /** Every insertion keeps the chain through all leaves, splits included. */
  lemma {:induction false} InsertChained(t: Tree, k: Key, v: Value, np: PageId, e: PageId)
    requires Sized(t) && Chained(t, e)
    ensures ResultChained(InsertBelow(t, k, v, np), FirstPage(t), e)
  {
    if t.Leaf? {
      SettleChained(InsertLeaf(t, k, v), np, e);
    } else {
      var i := Position(t.keys, k);
      InsertChained(t.children[i], k, v, np, Following(t.children, i, e));
      AfterChildChained(t, i, InsertBelow(t.children[i], k, v, np), e);
    }
  }
}
