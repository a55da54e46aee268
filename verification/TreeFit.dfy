// Which nodes fit their pages, and what becomes of that over an insertion and over a whole run.
module TreeFit {
  import opened Sequences
  import opened Bytes
  import opened NodeCodec
  import opened TreeModel
  import opened TreeContents
  import opened TreeSearch
  import opened TreeBalance
  import opened TreePages
  import opened TreeStorage
  import opened TreeTheorems

  /** Every node of t is written whole. */
  ghost predicate AllFit(t: Tree) {
    Encodable(NodeOf(t)) && (t.Inner? ==> forall i :: 0 <= i < |t.children| ==> AllFit(t.children[i]))
  }

  ghost predicate AllFitResult(r: Inserted) {
    match r
    case Kept(t, _) => AllFit(t)
    case Split(l, _, r, _) => AllFit(l) && AllFit(r)
  }

  predicate Whole(v: NodeVal) {
    KeysFit(v) && Fits(v)
  }

  /** The leaf or leaves that an insertion of k rewrites are written whole. */
  predicate LeafFits(t: Tree, k: Key, v: Value)
    requires Sized(t)
  {
    match t
    case Leaf(_, keys, _, _) =>
      (match InsertBelow(t, k, v, 0)
       case Kept(t', _) => Whole(NodeOf(t'))
       case Split(l, _, r, _) => Whole(NodeOf(l)) && Whole(NodeOf(r)))
    case Inner(_, keys, children) => LeafFits(children[Position(keys, k)], k, v)
  }

  /** Writing them does not panic. */
  predicate LeafSaves(t: Tree, k: Key, v: Value)
    requires Sized(t)
  {
    match t
    case Leaf(_, keys, _, _) => ResultSaves(InsertBelow(t, k, v, 0))
    case Inner(_, keys, children) => LeafSaves(children[Position(keys, k)], k, v)
  }

  predicate ResultSaves(r: Inserted) {
    match r
    case Kept(t, _) => Saves(NodeOf(t))
    case Split(l, _, r, _) => Saves(NodeOf(l)) && Saves(NodeOf(r))
  }

  /** The link of a leaf has its place whatever it is. */
  lemma LinkFits(v: NodeVal, next: nat)
    ensures Whole(v.(next := next)) <==> Whole(v)
    ensures Saves(v.(next := next)) <==> Saves(v)
  {
    assert Payload(v.(next := next)) == Payload(v);
  }

  lemma LeafResult(t: Tree, k: Key, v: Value, np: PageId)
    requires t.Leaf? && Sized(t)
    ensures ResultSaves(InsertBelow(t, k, v, np)) <==> LeafSaves(t, k, v)
    ensures CodedResult(InsertBelow(t, k, v, np)) ==> (AllFitResult(InsertBelow(t, k, v, np)) <==> LeafFits(t, k, v))
  {
    hide Saves, Fits;
    match InsertBelow(t, k, v, np)
    case Kept(_, _) =>
    case Split(l, _, r, _) =>
      var l0 := InsertBelow(t, k, v, 0).left;
      LinkFits(NodeOf(l0), np);
      assert NodeOf(l0).(next := np) == NodeOf(l);
      assert NodeOf(InsertBelow(t, k, v, 0).right) == NodeOf(r);
  }

  // ----- inner nodes always fit -----

  lemma InnerFitsAll(t: Tree)
    requires t.Inner? && Coded(t) && |t.keys| < MAX_KEYS
    ensures Encodable(NodeOf(t)) && Saves(NodeOf(t))
    ensures AllFit(t) <==> forall i :: 0 <= i < |t.children| ==> AllFit(t.children[i])
  {
    InnerFits(NodeOf(t));
    EncodableIsWritten(NodeOf(t));
  }

  lemma SettleFits(t: Tree, np: PageId)
    requires t.Inner? && |t.keys| <= MAX_KEYS && |t.children| == |t.keys| + 1 && CodedResult(Settle(t, np))
    ensures ResultSaves(Settle(t, np))
    ensures AllFitResult(Settle(t, np)) <==> forall i :: 0 <= i < |t.children| ==> AllFit(t.children[i])
  {
    hide Encodable, Codable, Saves;
    if |t.keys| < MAX_KEYS {
      InnerFitsAll(t);
    } else {
      var s := SplitInner(t, np);
      InnerFitsAll(s.left);
      InnerFitsAll(s.right);
      HalvesFit(t.children, |t.keys| / 2 + 1);
    }
  }

  lemma HalvesFit(cs: seq<Tree>, mid: nat)
    requires mid <= |cs|
    ensures (forall i :: 0 <= i < |cs| ==> AllFit(cs[i])) <==>
            (forall i :: 0 <= i < mid ==> AllFit(cs[..mid][i])) &&
              (forall i :: 0 <= i < |cs| - mid ==> AllFit(cs[mid..][i]))
  {
    hide AllFit;
    assert forall i :: mid <= i < |cs| ==> cs[i] == cs[mid..][i - mid];
    assert forall i :: 0 <= i < mid ==> cs[i] == cs[..mid][i];
  }

  lemma AfterChildSaves(t: Tree, i: nat, below: Inserted)
    requires t.Inner? && Sized(t) && |t.keys| < MAX_KEYS && i < |t.children| && CodedResult(AfterChild(t, i, below))
    ensures ResultSaves(AfterChild(t, i, below))
  {
    hide Codable, Encodable, InsertAt, Settle, Saves;
    match below
    case Kept(c, _) => InnerFitsAll(t.(children := t.children[i := c]));
    case Split(l, s, r, np) => SettleFits(WithSplitChild(t, i, l, s, r), np);
  }

  /** A node that takes in what became of its child fits exactly if that does. */
  lemma AfterChildFits(t: Tree, i: nat, below: Inserted)
    requires t.Inner? && Sized(t) && AllFit(t) && |t.keys| < MAX_KEYS && i < |t.children|
    requires CodedResult(AfterChild(t, i, below))
    ensures AllFitResult(AfterChild(t, i, below)) <==> AllFitResult(below)
  {
    hide Codable, Encodable, InsertAt, Settle;
    match below
    case Kept(c, _) =>
      InnerFitsAll(t.(children := t.children[i := c]));
      assert t.children[i := c][i] == c;
    case Split(l, s, r, np) =>
      SettleFits(WithSplitChild(t, i, l, s, r), np);
      ChildrenFit(t, i);
      SplitChildrenFit(t.children, i, l, r);
  }

  lemma ChildrenFit(t: Tree, i: nat)
    requires t.Inner? && AllFit(t)
    ensures forall j :: 0 <= j < |t.children| ==> AllFit(t.children[j])
  {
  }

  lemma SplitChildrenFit(cs: seq<Tree>, i: nat, l: Tree, r: Tree)
    requires i < |cs| && forall j :: 0 <= j < |cs| ==> AllFit(cs[j])
    ensures var ds := InsertAt(cs[i := l], i + 1, r);
            (forall j :: 0 <= j < |ds| ==> AllFit(ds[j])) <==> AllFit(l) && AllFit(r)
  {
    hide AllFit;
    var ds := InsertAt(cs[i := l], i + 1, r);
    forall j | 0 <= j < |ds|
      ensures ds[j] == if j <= i then cs[i := l][j] else if j == i + 1 then r else cs[i := l][j - 1]
    {
      InsertedAt(cs[i := l], i + 1, r, j);
    }
    assert ds[i] == l && ds[i + 1] == r;
  }

  lemma {:induction false} FitsIsCoded(t: Tree)
    requires AllFit(t)
    ensures Coded(t)
  {
    if t.Inner? {
      forall i | 0 <= i < |t.children| ensures Coded(t.children[i]) {
        FitsIsCoded(t.children[i]);
      }
    }
  }

  /** After an insertion into a tree written whole, all of it is written whole exactly if the leaf it lands in is. */
  lemma {:induction false} InsertFitsIff(t: Tree, h: nat, lo: Bound, hi: Bound, k: Key, v: Value, np: PageId)
    requires Shaped(t, h, lo, hi) && Sized(t) && AllFit(t) && |t.keys| < MAX_KEYS
    requires t.Inner? ==> AllOccupied(t.children)
    requires IsInt64(k) && np + h + 1 <= TWO64
    ensures AllFitResult(InsertBelow(t, k, v, np)) <==> LeafFits(t, k, v)
    decreases h
  {
    FitsIsCoded(t);
    InsertCoded(t, h, lo, hi, k, v, np);
    if t.Leaf? {
      LeafResult(t, k, v, np);
    } else {
      var i := Position(t.keys, k);
      ChildIsShaped(t, h, lo, hi, i);
      InsertFitsIff(t.children[i], h - 1, LowOf(t.keys, i, lo), HighOf(t.keys, i, hi), k, v, np);
      AfterChildFits(t, i, InsertBelow(t.children[i], k, v, np));
    }
  }

  // ----- short values -----

  ghost predicate SmallValues(t: Tree) {
    match t
    case Leaf(_, _, values, _) => AllSmall(values)
    case Inner(_, _, children) => forall i :: 0 <= i < |children| ==> SmallValues(children[i])
  }

  ghost predicate AllSmall(values: seq<Value>) {
    forall i :: 0 <= i < |values| ==> |values[i]| <= 10
  }

  ghost predicate SmallResult(r: Inserted) {
    match r
    case Kept(t, _) => SmallValues(t)
    case Split(l, _, r, _) => SmallValues(l) && SmallValues(r)
  }

  lemma SmallLeaf(t: Tree, k: Key, v: Value)
    requires t.Leaf? && Sized(t) && SmallValues(t) && |v| <= 10
    ensures AllSmall(InsertLeaf(t, k, v).values)
  {
    var pos := Position(t.keys, k);
    if !Holds(t.keys, k) {
      forall j | 0 <= j <= |t.values| ensures |InsertAt(t.values, pos, v)[j]| <= 10 {
        InsertedAt(t.values, pos, v, j);
      }
    }
  }

  /** Inserting a value of at most 10 bytes keeps all values so. */
  lemma {:induction false} SmallStays(t: Tree, k: Key, v: Value, np: PageId)
    requires Sized(t) && SmallValues(t) && |v| <= 10
    ensures SmallResult(InsertBelow(t, k, v, np))
  {
    if t.Leaf? {
      SmallLeaf(t, k, v);
    } else {
      var i := Position(t.keys, k);
      var below := InsertBelow(t.children[i], k, v, np);
      SmallStays(t.children[i], k, v, np);
      if below.Split? {
        SmallSplit(t, i, below.left, below.sep, below.right, below.np);
      }
    }
  }

  lemma SmallSplit(t: Tree, i: nat, l: Tree, s: Key, r: Tree, np: PageId)
    requires t.Inner? && Sized(t) && SmallValues(t) && i < |t.children| && SmallValues(l) && SmallValues(r)
    ensures SmallResult(Settle(WithSplitChild(t, i, l, s, r), np))
  {
    var t' := WithSplitChild(t, i, l, s, r);
    forall j | 0 <= j < |t'.children| ensures SmallValues(t'.children[j]) {
      InsertedAt(t.children[i := l], i + 1, r, j);
    }
  }

  lemma SmallNode(t: Tree)
    requires t.Leaf? && Sized(t) && AllInt64(t.keys) && AllSmall(t.values) && |t.keys| < MAX_KEYS
    ensures Whole(NodeOf(t)) && Saves(NodeOf(t))
  {
    SmallValuesFit(NodeOf(t));
  }

  /** With values of at most 10 bytes, every insertion is written whole. */
  lemma {:induction false} SmallValuesAlwaysFit(t: Tree, root: bool, k: Key, v: Value)
    requires Sized(t) && Coded(t) && Occupied(t, root) && SmallValues(t) && |v| <= 10 && IsInt64(k)
    ensures LeafFits(t, k, v) && LeafSaves(t, k, v)
  {
    if t.Leaf? {
      SmallLeaf(t, k, v);
      InsertedInt64(t.keys, Position(t.keys, k), k);
      assert AllInt64(InsertLeaf(t, k, v).keys);
      match InsertBelow(t, k, v, 0)
      case Kept(t', _) => SmallNode(t');
      case Split(l, _, r, _) =>
        SmallNode(l);
        SmallNode(r);
    } else {
      SmallValuesAlwaysFit(t.children[Position(t.keys, k)], false, k, v);
    }
  }

  // ----- the page store -----

  /** What the pages hold of the nodes: a node that is not written whole does not come back. */
  ghost predicate PagesOk(nodes: NodeStore, pages: map<PageId, seq<Byte>>) {
    forall p :: p in nodes ==>
      p in pages && Codable(nodes[p]) && (Decode(pages[p]) == Some(nodes[p]) <==> Fits(nodes[p]))
  }

  /** Every node of the tree is read back from its page. */
  ghost predicate Faithful(t: Tree, nodes: NodeStore, pages: map<PageId, seq<Byte>>) {
    forall p :: p in PagesOf(t) ==> p in nodes && p in pages && Decode(pages[p]) == Some(nodes[p])
  }

  /** The pages give the whole tree back exactly if every node fits its page. */
  lemma {:induction false} FaithfulIffFits(t: Tree, nodes: NodeStore, pages: map<PageId, seq<Byte>>)
    requires StoredIn(t, nodes) && PagesOk(nodes, pages)
    ensures Faithful(t, nodes, pages) <==> AllFit(t)
  {
    hide Codable, Fits, Decode;
    if t.Inner? {
      forall i | 0 <= i < |t.children| ensures Faithful(t.children[i], nodes, pages) <==> AllFit(t.children[i]) {
        FaithfulIffFits(t.children[i], nodes, pages);
      }
      if forall i :: 0 <= i < |t.children| ==> Faithful(t.children[i], nodes, pages) {
        forall p | p in PagesOf(t) && p != t.page
          ensures p in nodes && p in pages && Decode(pages[p]) == Some(nodes[p])
        {
          var i :| 0 <= i < |t.children| && p in PagesOf(t.children[i]);
          assert Faithful(t.children[i], nodes, pages);
        }
      }
      forall i | 0 <= i < |t.children| ensures PagesOf(t.children[i]) <= PagesOf(t) {
        ChildPages(t, i);
      }
    }
    assert t.page in PagesOf(t) && t.page in nodes;
  }

  // ----- runs -----

  ghost predicate Int64Keys(ops: seq<Op>) {
    forall i :: 0 <= i < |ops| ==> IsInt64(ops[i].0)
  }

  lemma {:induction false} Pow100Grows(m: nat, n: nat)
    requires m <= n
    ensures Pow100(m) <= Pow100(n)
  {
    if m < n {
      Pow100Grows(m, n - 1);
    }
  }

  lemma Pow100Of10()
    ensures Pow100(10) > TWO64
  {
    assert Pow100(2) == 10000 && Pow100(4) == 100000000;
    assert Pow100(6) == 1000000000000 && Pow100(8) == 10000000000000000;
  }

  /** With fewer than 2^64 entries there are at most 9 levels of inner nodes below the root. */
  lemma HeightBound(t: Tree, h: nat, np: PageId)
    requires Sound(t, h, np) && |Entries(t, None)| < TWO64
    ensures h <= 9
  {
    if h >= 10 {
      HeightIsLogarithmic(t, h);
      Pow100Grows(10, h);
      Pow100Of10();
    }
  }

  lemma UpsertLength(es: seq<Entry>, slot: int, v: Value)
    requires Sorted(es)
    ensures |Upsert(es, slot, v)| <= |es| + 1
  {
  }

  /** A run of n insertions takes at most 11 pages each. */
  lemma {:induction false} RunBounds(ops: seq<Op>, first: PageId)
    requires first != 0 && |ops| < TWO64
    ensures var (t, np) := Run(ops, first);
            |Entries(t, None)| <= |ops| && HeightOf(t) <= 9 && np <= first + 1 + 11 * |ops|
  {
    hide Sound;
    if ops == [] {
      assert Entries(Leaf(first, [], [], 0), None) == [];
    } else {
      var front := ops[..|ops| - 1];
      var (k, v) := ops[|ops| - 1];
      var (t, np) := Run(front, first);
      RunBounds(front, first);
      RunStepBounds(t, k, v, np);
      HeightBound(Run(ops, first).0, HeightOf(Run(ops, first).0), Run(ops, first).1);
    }
  }

  lemma RunStepBounds(t: Tree, k: Key, v: Value, np: PageId)
    requires Sound(t, HeightOf(t), np)
    ensures Sized(t) && Sized(InsertRoot(t, k, v, np).0)
    ensures |Entries(InsertRoot(t, k, v, np).0, None)| <= |Entries(t, None)| + 1
    ensures InsertRoot(t, k, v, np).1 <= np + HeightOf(t) + 2
  {
    var h' := InsertRootSound(t, HeightOf(t), k, v, np);
    EntriesSorted(t, HeightOf(t), None, None);
    UpsertLength(Entries(t, None), Target(t, k, None), v);
    InsertTakes(t, HeightOf(t), None, None, k, v, np);
  }

  /** There are page numbers for the run. */
  ghost predicate Room(ops: seq<Op>, first: PageId) {
    first != 0 && first + 12 * (|ops| + 1) <= TWO64
  }

  lemma RootedCoded(r: Inserted)
    requires CodedResult(r) && r.np < TWO64
    requires r.Split? ==> r.left.page < TWO64 && r.right.page < TWO64
    ensures Coded(Rooted(r).0)
  {
    if r.Split? {
      var t := Rooted(r).0;
      assert ChildPage(t.children) == [r.left.page, r.right.page];
    }
  }

  lemma InsertRootCoded(t: Tree, k: Key, v: Value, np: PageId)
    requires Sound(t, HeightOf(t), np) && Coded(t) && IsInt64(k) && np + HeightOf(t) + 2 <= TWO64
    ensures Sized(t) && CodedResult(InsertBelow(t, k, v, np)) && Coded(InsertRoot(t, k, v, np).0)
  {
    var h := HeightOf(t);
    assert t.Inner? ==> AllOccupied(t.children);
    InsertCoded(t, h, None, None, k, v, np);
    InsertTakes(t, h, None, None, k, v, np);
    assert t.page in PagesOf(t);
    RootedCoded(InsertBelow(t, k, v, np));
  }

  lemma RootedFits(r: Inserted)
    requires Coded(Rooted(r).0)
    ensures AllFit(Rooted(r).0) <==> AllFitResult(r)
  {
    if r.Split? {
      var t := Rooted(r).0;
      InnerFitsAll(t);
      assert t.children[0] == r.left && t.children[1] == r.right;
    }
  }

  lemma InsertRootFits(t: Tree, k: Key, v: Value, np: PageId)
    requires Sound(t, HeightOf(t), np) && AllFit(t) && IsInt64(k) && np + HeightOf(t) + 2 <= TWO64
    ensures Sized(t) && (AllFit(InsertRoot(t, k, v, np).0) <==> LeafFits(t, k, v))
  {
    FitsIsCoded(t);
    InsertRootCoded(t, k, v, np);
    assert t.Inner? ==> AllOccupied(t.children);
    InsertFitsIff(t, HeightOf(t), None, None, k, v, np);
    RootedFits(InsertBelow(t, k, v, np));
  }

  lemma RootedSmall(r: Inserted)
    requires SmallResult(r)
    ensures SmallValues(Rooted(r).0)
  {
  }

  /** No insertion of the run panics. */
  ghost predicate RunSaves(ops: seq<Op>, first: PageId)
    requires first != 0
  {
    ops != [] ==>
      && RunSaves(ops[..|ops| - 1], first)
      && LeafSaves(Run(ops[..|ops| - 1], first).0, ops[|ops| - 1].0, ops[|ops| - 1].1)
  }

  lemma {:induction false} RunCoded(ops: seq<Op>, first: PageId)
    requires Int64Keys(ops) && Room(ops, first)
    ensures Coded(Run(ops, first).0) && Run(ops, first).1 + HeightOf(Run(ops, first).0) + 2 <= TWO64
  {
    hide Sound;
    RunBounds(ops, first);
    if ops != [] {
      var front := ops[..|ops| - 1];
      var (k, v) := ops[|ops| - 1];
      var (t, np) := Run(front, first);
      RunCoded(front, first);
      assert IsInt64(ops[|ops| - 1].0);
      InsertRootCoded(t, k, v, np);
    }
  }

  ghost predicate SmallOps(ops: seq<Op>) {
    forall i :: 0 <= i < |ops| ==> |ops[i].1| <= 10
  }

  /** A run with values of at most 10 bytes never panics, and leaves every node written whole. */
  lemma {:induction false} SmallRunFits(ops: seq<Op>, first: PageId)
    requires Int64Keys(ops) && Room(ops, first) && SmallOps(ops)
    ensures RunSaves(ops, first) && AllFit(Run(ops, first).0) && SmallValues(Run(ops, first).0)
  {
    if ops == [] {
      SmallNode(Leaf(first, [], [], 0));
    } else {
      var front := ops[..|ops| - 1];
      var (k, v) := ops[|ops| - 1];
      var (t, np) := Run(front, first);
      SmallRunFits(front, first);
      RunCoded(front, first);
      assert IsInt64(ops[|ops| - 1].0) && |ops[|ops| - 1].1| <= 10;
      SmallValuesAlwaysFit(t, true, k, v);
      SmallStays(t, k, v, np);
      RootedSmall(InsertBelow(t, k, v, np));
      InsertRootFits(t, k, v, np);
    }
  }
}
