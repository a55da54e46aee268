// How full the nodes stay, and what that says about the height of a tree.
module TreeBalance {
  import opened Sequences
  import opened TreeModel
  import opened TreeContents

  const MIN_LEAF: nat := MAX_KEYS / 2
  const MIN_INNER: nat := MAX_KEYS / 2 - 1

  /** Every node holds fewer than MAX_KEYS keys, and every node but the root at least half as many. */
  ghost predicate Occupied(t: Tree, root: bool) {
    && |t.keys| < MAX_KEYS
    && (t.Leaf? && !root ==> |t.keys| >= MIN_LEAF)
    && (t.Inner? ==> |t.keys| >= if root then 1 else MIN_INNER)
    && (t.Inner? ==> forall i :: 0 <= i < |t.children| ==> Occupied(t.children[i], false))
  }

  ghost predicate OccupiedResult(r: Inserted, root: bool) {
    match r
    case Kept(t, _) => Occupied(t, root)
    case Split(l, _, r, _) => Occupied(l, false) && Occupied(r, false)
  }

  ghost predicate AllOccupied(cs: seq<Tree>) {
    forall i :: 0 <= i < |cs| ==> Occupied(cs[i], false)
  }

  /** A full node is cut in the middle: nothing is lost, and a key left over goes right in a leaf, left in a node. */
  lemma CutInHalves(t: Tree, np: PageId)
    requires t.Leaf? ==> |t.keys| == |t.values|
    requires t.Inner? ==> |t.children| == |t.keys| + 1
    requires |t.keys| >= MAX_KEYS
    ensures Settle(t, np).Split?
    ensures var l, s, r := Settle(t, np).left, Settle(t, np).sep, Settle(t, np).right;
            && (t.Leaf? ==> l.Leaf? && r.Leaf? && l.keys + r.keys == t.keys && l.values + r.values == t.values &&
                            0 <= |r.keys| - |l.keys| <= 1 && r.keys[0] == s && l.next == r.page && r.next == t.next)
            && (t.Inner? ==> l.Inner? && r.Inner? && l.keys + [s] + r.keys == t.keys &&
                             l.children + r.children == t.children && 0 <= |l.keys| - |r.keys| <= 1)
  {
    var mid := |t.keys| / 2;
    assert t.keys[..mid] + t.keys[mid..] == t.keys;
    assert t.keys[..mid] + [t.keys[mid]] + t.keys[mid + 1..] == t.keys;
  }

  lemma SettleOccupied(t: Tree, root: bool, np: PageId)
    requires t.Leaf? ==> |t.keys| == |t.values|
    requires t.Inner? ==> |t.children| == |t.keys| + 1 && AllOccupied(t.children)
    requires |t.keys| <= MAX_KEYS
    requires t.Leaf? && !root ==> |t.keys| >= MIN_LEAF
    requires t.Inner? ==> |t.keys| >= if root then 1 else MIN_INNER
    ensures OccupiedResult(Settle(t, np), root)
  {
  }

  lemma AfterChildOccupied(t: Tree, root: bool, i: nat, below: Inserted)
    requires t.Inner? && |t.children| == |t.keys| + 1 && i < |t.children| && Occupied(t, root)
    requires OccupiedResult(below, false)
    ensures OccupiedResult(AfterChild(t, i, below), root)
  {
    if below.Split? {
      var t' := WithSplitChild(t, i, below.left, below.sep, below.right);
      forall j | 0 <= j < |t'.children| ensures Occupied(t'.children[j], false) {
        if j > i + 1 { assert t'.children[j] == t.children[j - 1]; }
      }
      SettleOccupied(t', root, below.np);
    }
  }

  /** Every insertion keeps all nodes within their bounds. */
  lemma {:induction false} InsertOccupied(t: Tree, root: bool, k: Key, v: Value, np: PageId)
    requires Sized(t) && Occupied(t, root)
    ensures OccupiedResult(InsertBelow(t, k, v, np), root)
  {
    if t.Leaf? {
      SettleOccupied(InsertLeaf(t, k, v), root, np);
    } else {
      var i := Position(t.keys, k);
      InsertOccupied(t.children[i], false, k, v, np);
      AfterChildOccupied(t, root, i, InsertBelow(t.children[i], k, v, np));
    }
  }

  function Pow100(n: nat): (p: nat)
    ensures p > 0
  {
    if n == 0 then 1 else 100 * Pow100(n - 1)
  }

  lemma {:induction false} JoinAtLeast<T>(parts: seq<seq<T>>, least: nat)
    requires forall i :: 0 <= i < |parts| ==> |parts[i]| >= least
    ensures |Join(parts)| >= |parts| * least
  {
    if parts != [] {
      JoinAtLeast(parts[1..], least);
      assert |parts| * least == |parts[1..]| * least + least;
    }
  }

  lemma Times(n: nat, least: nat, m: nat)
    requires n >= least
    ensures n * m >= least * m
  {
  }

  /** A tree of height h below the root holds at least 100 to the h + 1 entries. */
  lemma {:induction false} EntriesAtLeast(t: Tree, h: nat, lo: Bound, hi: Bound)
    requires Shaped(t, h, lo, hi) && Sized(t) && Occupied(t, false)
    ensures |Entries(t, hi)| >= Pow100(h + 1)
    decreases h
  {
    if t.Leaf? {
      assert Pow100(1) == 100 * Pow100(0);
    } else {
      ChildrenAtLeast(t, h, lo, hi);
      Times(|t.children|, 100, Pow100(h));
    }
  }

  lemma {:induction false} ChildrenAtLeast(t: Tree, h: nat, lo: Bound, hi: Bound)
    requires t.Inner? && Shaped(t, h, lo, hi) && Sized(t)
    requires AllOccupied(t.children)
    ensures |Entries(t, hi)| >= |t.children| * Pow100(h)
    decreases h, 0
  {
    var ps: seq<seq<Entry>> := Parts(t, hi);
    forall i | 0 <= i < |ps| ensures |ps[i]| >= Pow100(h) {
      ChildIsShaped(t, h, lo, hi, i);
      EntriesAtLeast(t.children[i], h - 1, LowOf(t.keys, i, lo), HighOf(t.keys, i, hi));
    }
    JoinAtLeast(ps, Pow100(h));
  }

  /** A root over h levels of inner nodes holds at least 2 * 100 to the h entries: descents are short. */
  lemma HeightIsLogarithmic(t: Tree, h: nat)
    requires Shaped(t, h, None, None) && Sized(t) && Occupied(t, true) && h >= 1
    ensures |Entries(t, None)| >= 2 * Pow100(h)
  {
    ChildrenAtLeast(t, h, None, None);
    Times(|t.children|, 2, Pow100(h));
  }
}
