// A tree in a store of nodes: which page holds which node, and what saving the changed ones completes.
module TreeStorage {
  import opened Sequences
  import opened Bytes
  import opened NodeCodec
  import opened TreeModel
  import opened TreeBalance
  import opened TreePages
  import opened TreeScan

  /** The nodes by their pages, as the program holds them. */
  type NodeStore = map<PageId, NodeVal>

  function ChildPage(cs: seq<Tree>): (ps: seq<PageId>)
    ensures |ps| == |cs|
    ensures forall i :: 0 <= i < |ps| ==> ps[i] == cs[i].page
  {
    seq(|cs|, i requires 0 <= i < |cs| => cs[i].page)
  }

  /** What the page of t's root node holds. */
  function NodeOf(t: Tree): NodeVal {
    match t
    case Leaf(_, keys, values, next) => NodeVal(LEAF, keys, [], values, next)
    case Inner(_, keys, children) => NodeVal(INTERNAL, keys, ChildPage(children), [], 0)
  }

  ghost predicate OnPage(t: Tree, nodes: NodeStore) {
    t.page in nodes && nodes[t.page] == NodeOf(t)
  }

  /** Every node of t is held under its page. */
  ghost predicate StoredIn(t: Tree, nodes: NodeStore) {
    OnPage(t, nodes) && (t.Inner? ==> forall i :: 0 <= i < |t.children| ==> StoredIn(t.children[i], nodes))
  }

  ghost predicate Agree(ps: set<PageId>, was: NodeStore, now: NodeStore) {
    forall p :: p in ps && p in was ==> p in now && now[p] == was[p]
  }

  /** Pages that a tree does not use may change. */
  lemma {:induction false} StoredFrame(t: Tree, was: NodeStore, now: NodeStore)
    requires StoredIn(t, was) && Agree(PagesOf(t), was, now)
    ensures StoredIn(t, now)
  {
    if t.Inner? {
      forall i | 0 <= i < |t.children| ensures StoredIn(t.children[i], now) {
        ChildPages(t, i);
        StoredFrame(t.children[i], was, now);
      }
    }
  }

  // ----- the fields of all nodes stay in range -----

  /** Every node of t has fields that its byte form has a place for. */
  ghost predicate Coded(t: Tree) {
    Codable(NodeOf(t)) && (t.Inner? ==> forall i :: 0 <= i < |t.children| ==> Coded(t.children[i]))
  }

  ghost predicate CodedResult(r: Inserted) {
    match r
    case Kept(t, _) => Coded(t)
    case Split(l, s, r, _) => Coded(l) && Coded(r) && IsInt64(s)
  }

  ghost predicate AllCoded(cs: seq<Tree>) {
    forall i :: 0 <= i < |cs| ==> Coded(cs[i]) && cs[i].page < TWO64
  }

  predicate AllInt64(keys: seq<Key>) {
    forall i :: 0 <= i < |keys| ==> IsInt64(keys[i])
  }

  lemma InsertedInt64(keys: seq<Key>, pos: nat, k: Key)
    requires AllInt64(keys) && IsInt64(k) && pos <= |keys|
    ensures AllInt64(InsertAt(keys, pos, k))
  {
    forall j | 0 <= j <= |keys| ensures IsInt64(InsertAt(keys, pos, k)[j]) {
      InsertedAt(keys, pos, k, j);
    }
  }

  lemma LeafCoded(t: Tree, k: Key, v: Value, np: PageId)
    requires t.Leaf? && Sized(t) && Coded(t) && |t.keys| < MAX_KEYS && IsInt64(k) && np < TWO64
    ensures CodedResult(InsertBelow(t, k, v, np))
  {
    InsertedInt64(t.keys, Position(t.keys, k), k);
    assert AllInt64(InsertLeaf(t, k, v).keys);
  }

  lemma InnerCoded(t: Tree)
    requires t.Inner? && |t.keys| < MAX_KEYS && |t.children| == |t.keys| + 1 && AllInt64(t.keys) && AllCoded(t.children)
    ensures Coded(t)
  {
  }

  lemma SettleCoded(t: Tree, np: PageId)
    requires t.Inner? && |t.keys| <= MAX_KEYS && |t.children| == |t.keys| + 1 && AllInt64(t.keys) &&
             AllCoded(t.children)
    ensures CodedResult(Settle(t, np))
  {
    if |t.keys| < MAX_KEYS {
      InnerCoded(t);
    } else {
      var s := SplitInner(t, np);
      InnerCoded(s.left);
      InnerCoded(s.right);
    }
  }

  lemma ChildrenCoded(t: Tree)
    requires t.Inner? && Coded(t)
    ensures AllInt64(t.keys) && AllCoded(t.children)
  {
    forall i | 0 <= i < |t.children| ensures t.children[i].page < TWO64 {
      assert ChildPage(t.children)[i] < TWO64;
    }
  }

  lemma AfterChildCoded(t: Tree, i: nat, below: Inserted)
    requires t.Inner? && Sized(t) && Coded(t) && |t.keys| < MAX_KEYS && i < |t.children| && CodedResult(below)
    requires below.Kept? ==> below.t.page == t.children[i].page
    requires below.Split? ==> below.left.page == t.children[i].page && below.right.page < TWO64
    ensures CodedResult(AfterChild(t, i, below))
  {
    ChildrenCoded(t);
    match below
    case Kept(c, _) => InnerCoded(t.(children := t.children[i := c]));
    case Split(l, s, r, np) => SplitChildCoded(t, i, l, s, r, np);
  }

  lemma SplitChildCoded(t: Tree, i: nat, l: Tree, s: Key, r: Tree, np: PageId)
    requires t.Inner? && Sized(t) && Coded(t) && |t.keys| < MAX_KEYS && i < |t.children|
    requires Coded(l) && Coded(r) && IsInt64(s) && l.page == t.children[i].page && r.page < TWO64
    ensures CodedResult(Settle(WithSplitChild(t, i, l, s, r), np))
  {
    hide InsertAt, Settle, Codable;
    ChildrenCoded(t);
    var t' := WithSplitChild(t, i, l, s, r);
    forall j | 0 <= j < |t'.children| ensures t'.children[j].page < TWO64 && Coded(t'.children[j]) {
      InsertedAt(t.children[i := l], i + 1, r, j);
    }
    InsertedInt64(t.keys, i, s);
    SettleCoded(t', np);
  }

  /** New pages: at most one a level. */
  lemma {:induction false} InsertTakes(t: Tree, h: nat, lo: Bound, hi: Bound, k: Key, v: Value, np: PageId)
    requires Shaped(t, h, lo, hi) && Sized(t)
    ensures InsertBelow(t, k, v, np).np <= np + h + 1
    ensures InsertBelow(t, k, v, np).Split? ==> np <= InsertBelow(t, k, v, np).right.page < InsertBelow(t, k, v, np).np
    decreases h
  {
    if t.Inner? {
      var i := Position(t.keys, k);
      ChildIsShaped(t, h, lo, hi, i);
      InsertTakes(t.children[i], h - 1, LowOf(t.keys, i, lo), HighOf(t.keys, i, hi), k, v, np);
    }
  }

  /** Every insertion keeps the fields of all nodes in range. */
  lemma {:induction false} InsertCoded(t: Tree, h: nat, lo: Bound, hi: Bound, k: Key, v: Value, np: PageId)
    requires Shaped(t, h, lo, hi) && Sized(t) && Coded(t) && |t.keys| < MAX_KEYS
    requires t.Inner? ==> AllOccupied(t.children)
    requires IsInt64(k) && np + h + 1 <= TWO64
    ensures CodedResult(InsertBelow(t, k, v, np))
    decreases h
  {
    if t.Leaf? {
      LeafCoded(t, k, v, np);
    } else {
      var i := Position(t.keys, k);
      ChildIsShaped(t, h, lo, hi, i);
      InsertTakes(t.children[i], h - 1, LowOf(t.keys, i, lo), HighOf(t.keys, i, hi), k, v, np);
      InsertCoded(t.children[i], h - 1, LowOf(t.keys, i, lo), HighOf(t.keys, i, hi), k, v, np);
      AfterChildCoded(t, i, InsertBelow(t.children[i], k, v, np));
    }
  }

  // ----- what saving the top nodes completes -----

  /** The store after the top nodes of r were saved. */
  ghost function WithTop(nodes: NodeStore, r: Inserted): NodeStore {
    match r
    case Kept(t, _) => nodes[t.page := NodeOf(t)]
    case Split(l, _, r, _) => nodes[l.page := NodeOf(l)][r.page := NodeOf(r)]
  }

  ghost predicate ResultStored(r: Inserted, nodes: NodeStore) {
    match r
    case Kept(t, _) => StoredIn(t, nodes)
    case Split(l, _, r, _) => StoredIn(l, nodes) && StoredIn(r, nodes)
  }

  ghost predicate ChildrenStored(t: Tree, nodes: NodeStore) {
    t.Inner? ==> forall i :: 0 <= i < |t.children| ==> StoredIn(t.children[i], nodes)
  }

  ghost predicate ResultChildrenStored(r: Inserted, nodes: NodeStore) {
    match r
    case Kept(t, _) => ChildrenStored(t, nodes)
    case Split(l, _, r, _) => ChildrenStored(l, nodes) && ChildrenStored(r, nodes)
  }

  lemma SaveTop(t: Tree, nodes: NodeStore)
    requires ChildrenStored(t, nodes) && Distinct(t)
    ensures StoredIn(t, nodes[t.page := NodeOf(t)])
  {
    if t.Inner? {
      forall i | 0 <= i < |t.children| ensures StoredIn(t.children[i], nodes[t.page := NodeOf(t)]) {
        StoredFrame(t.children[i], nodes, nodes[t.page := NodeOf(t)]);
      }
    }
  }

  lemma ChildrenFrame(t: Tree, nodes: NodeStore, p: PageId, v: NodeVal)
    requires ChildrenStored(t, nodes) && p !in PagesOf(t)
    ensures ChildrenStored(t, nodes[p := v])
  {
    if t.Inner? {
      forall i | 0 <= i < |t.children| ensures StoredIn(t.children[i], nodes[p := v]) {
        ChildPages(t, i);
        StoredFrame(t.children[i], nodes, nodes[p := v]);
      }
    }
  }

  /** With the children stored, saving the top nodes stores the whole result. */
  lemma TopCompletes(r: Inserted, nodes: NodeStore)
    requires ResultChildrenStored(r, nodes) && ResultDistinct(r)
    ensures ResultStored(r, WithTop(nodes, r))
  {
    match r
    case Kept(t, _) => SaveTop(t, nodes);
    case Split(x, _, y, _) =>
      var nodes1 := nodes[x.page := NodeOf(x)];
      SaveTop(x, nodes);
      ChildrenFrame(y, nodes, x.page, NodeOf(x));
      SaveTop(y, nodes1);
      StoredFrame(x, nodes1, nodes1[y.page := NodeOf(y)]);
  }

  /** After the insertion below child i, all children of the result are stored. */
  lemma BelowStored(t: Tree, i: nat, below: Inserted, nodes: NodeStore)
    requires t.Inner? && |t.children| == |t.keys| + 1 && i < |t.children|
    requires ResultStored(below, nodes)
    requires forall j :: 0 <= j < |t.children| && j != i ==> StoredIn(t.children[j], nodes)
    ensures ResultChildrenStored(AfterChild(t, i, below), nodes)
  {
    match below
    case Kept(_, _) =>
    case Split(l, s, r, np) =>
      var t' := WithSplitChild(t, i, l, s, r);
      forall j | 0 <= j < |t'.children| ensures StoredIn(t'.children[j], nodes) {
        InsertedAt(t.children[i := l], i + 1, r, j);
      }
  }

  lemma SiblingsStored(t: Tree, i: nat, was: NodeStore, now: NodeStore)
    requires t.Inner? && i < |t.children| && StoredIn(t, was) && Distinct(t)
    requires forall p :: p in was && p !in PagesOf(t.children[i]) ==> p in now && now[p] == was[p]
    ensures forall j :: 0 <= j < |t.children| && j != i ==> StoredIn(t.children[j], now)
    ensures OnPage(t, now)
  {
    forall j | 0 <= j < |t.children| && j != i ensures StoredIn(t.children[j], now) {
      StoredFrame(t.children[j], was, now);
    }
  }

  // ----- reading -----

  lemma {:induction false} LeavesStored(t: Tree, nodes: NodeStore)
    requires Sized(t) && StoredIn(t, nodes)
    ensures forall l :: l in Leaves(t) ==> OnPage(l, nodes)
  {
    if t.Inner? {
      forall l | l in Leaves(t) ensures OnPage(l, nodes) {
        InJoin(LeafParts(t), l);
        var i :| 0 <= i < |t.children| && l in LeafParts(t)[i];
        LeavesStored(t.children[i], nodes);
      }
    }
  }
}
