// The B+Tree as a value: what one insertion does to it, and the shape every insertion keeps.
module TreeModel {
  import opened Sequences
  import NodeCodec

  const MAX_KEYS: nat := 200

  type Key = int
  type PageId = nat
  type Value = NodeCodec.Value
  type Bound = Option<int>

  datatype Tree =
    | Leaf(page: PageId, keys: seq<Key>, values: seq<Value>, next: PageId)
    | Inner(page: PageId, keys: seq<Key>, children: seq<Tree>)

  // ----- positions inside one node -----

  ghost predicate Ascending(keys: seq<int>) {
    forall i, j :: 0 <= i < j < |keys| ==> keys[i] < keys[j]
  }

  function PositionFrom(keys: seq<int>, k: int, i: nat): (pos: nat)
    requires i <= |keys|
    ensures i <= pos <= |keys|
    ensures forall j :: i <= j < pos ==> keys[j] < k
    ensures pos < |keys| ==> keys[pos] >= k
    decreases |keys| - i
  {
    if i == |keys| || keys[i] >= k then i else PositionFrom(keys, k, i + 1)
  }

  /** The number of leading keys below k: where k is, or where it would go. */
  function Position(keys: seq<int>, k: int): (pos: nat)
    ensures pos <= |keys|
    ensures forall i :: 0 <= i < pos ==> keys[i] < k
    ensures pos < |keys| ==> keys[pos] >= k
  {
    PositionFrom(keys, k, 0)
  }

  predicate Holds(keys: seq<int>, k: int) {
    var pos := Position(keys, k);
    pos < |keys| && keys[pos] == k
  }

  lemma PositionIs(keys: seq<int>, k: int, pos: nat)
    requires Ascending(keys) && pos <= |keys|
    requires forall i :: 0 <= i < pos ==> keys[i] < k
    requires pos < |keys| ==> keys[pos] >= k
    ensures Position(keys, k) == pos
  {
  }

  // ----- shape -----

  predicate Over(lo: Bound, k: int) { lo.None? || lo.value < k }
  predicate UpTo(k: int, hi: Bound) { hi.None? || k <= hi.value }
  predicate Under(k: int, hi: Bound) { hi.None? || k < hi.value }
  predicate From(lo: Bound, k: int) { lo.None? || lo.value <= k }

  /** The separators around child i. */
  function LowOf(keys: seq<int>, i: nat, lo: Bound): Bound
    requires i <= |keys|
  {
    if i == 0 then lo else Some(keys[i - 1])
  }

  function HighOf(keys: seq<int>, i: nat, hi: Bound): Bound
    requires i <= |keys|
  {
    if i == |keys| then hi else Some(keys[i])
  }

  /**
   A tree of height h between the separators lo and hi. A leaf right of a separator starts with
   it; a leaf left of a separator may end with a second copy of it, and with nothing greater.
   */
  ghost predicate Shaped(t: Tree, h: nat, lo: Bound, hi: Bound)
    decreases h
  {
    && Ascending(t.keys)
    && (lo.Some? && hi.Some? ==> lo.value < hi.value)
    && match t
       case Leaf(_, keys, values, _) =>
         && h == 0
         && |values| == |keys|
         && (lo.Some? ==> keys != [] && keys[0] == lo.value)
         && (hi.Some? ==> keys != [] && keys[|keys| - 1] <= hi.value)
       case Inner(_, keys, children) =>
         && h > 0
         && keys != []
         && |children| == |keys| + 1
         && Over(lo, keys[0]) && Under(keys[|keys| - 1], hi)
         && forall i :: 0 <= i < |children| ==>
              Shaped(children[i], h - 1, LowOf(keys, i, lo), HighOf(keys, i, hi))
  }

  // ----- insertion -----

  datatype Inserted =
    | Kept(t: Tree, np: PageId)
    | Split(left: Tree, sep: Key, right: Tree, np: PageId)

  /** Halve an overfull leaf; the right half gets page np and the separator stays in it. */
  function SplitLeaf(t: Tree, np: PageId): Inserted
    requires t.Leaf? && |t.keys| == |t.values| && t.keys != []
  {
    var mid := |t.keys| / 2;
    Split(Leaf(t.page, t.keys[..mid], t.values[..mid], np), t.keys[mid],
          Leaf(np, t.keys[mid..], t.values[mid..], t.next), np + 1)
  }

  /** Halve an overfull inner node; the separator leaves both halves. */
  function SplitInner(t: Tree, np: PageId): Inserted
    requires t.Inner? && |t.children| == |t.keys| + 1 && t.keys != []
  {
    var mid := |t.keys| / 2;
    Split(Inner(t.page, t.keys[..mid], t.children[..mid + 1]), t.keys[mid],
          Inner(np, t.keys[mid + 1..], t.children[mid + 1..]), np + 1)
  }

  function Settle(t: Tree, np: PageId): Inserted
    requires t.Leaf? ==> |t.keys| == |t.values|
    requires t.Inner? ==> |t.children| == |t.keys| + 1
  {
    if |t.keys| < MAX_KEYS then Kept(t, np)
    else if t.Leaf? then SplitLeaf(t, np)
    else SplitInner(t, np)
  }

  function InsertLeaf(t: Tree, k: Key, v: Value): (r: Tree)
    requires t.Leaf? && |t.keys| == |t.values|
    ensures r.Leaf? && |r.keys| == |r.values| && r.page == t.page
  {
    var pos := Position(t.keys, k);
    if Holds(t.keys, k) then t.(values := t.values[pos := v])
    else t.(keys := InsertAt(t.keys, pos, k), values := InsertAt(t.values, pos, v))
  }

  /** Every node has one child more than keys, and every leaf one value a key. */
  predicate Sized(t: Tree) {
    match t
    case Leaf(_, keys, values, _) => |keys| == |values|
    case Inner(_, keys, children) =>
      |children| == |keys| + 1 && forall i :: 0 <= i < |children| ==> Sized(children[i])
  }

  /** The node a split child leaves behind: separator s in front of key i, r behind l. */
  function WithSplitChild(t: Tree, i: nat, l: Tree, s: Key, r: Tree): (t': Tree)
    requires t.Inner? && |t.children| == |t.keys| + 1 && i < |t.children|
    ensures t'.Inner? && |t'.children| == |t'.keys| + 1 && t'.page == t.page
  {
    t.(keys := InsertAt(t.keys, i, s), children := InsertAt(t.children[i := l], i + 1, r))
  }

  /** What becomes of an inner node once an insertion below its child i is over. */
  function AfterChild(t: Tree, i: nat, below: Inserted): (r: Inserted)
    requires t.Inner? && |t.children| == |t.keys| + 1 && i < |t.children|
    ensures below.np <= r.np
    ensures r.Kept? ==> r.t.page == t.page
    ensures r.Split? ==> r.left.page == t.page
  {
    match below
    case Kept(c, np) => Kept(t.(children := t.children[i := c]), np)
    case Split(l, s, r, np) => Settle(WithSplitChild(t, i, l, s, r), np)
  }

  /** Insert below node t, taking new pages from np on. */
  function InsertBelow(t: Tree, k: Key, v: Value, np: PageId): (r: Inserted)
    requires Sized(t)
    ensures np <= r.np
    ensures r.Kept? ==> r.t.page == t.page
    ensures r.Split? ==> r.left.page == t.page
  {
    match t
    case Leaf(_, keys, _, _) =>
      if Holds(keys, k) then Kept(InsertLeaf(t, k, v), np) else Settle(InsertLeaf(t, k, v), np)
    case Inner(_, keys, children) =>
      var i := Position(keys, k);
      AfterChild(t, i, InsertBelow(children[i], k, v, np))
  }

  /** A root that split gets a new root above it. */
  function Rooted(r: Inserted): (Tree, PageId) {
    match r
    case Kept(t, np) => (t, np)
    case Split(l, s, r, np) => (Inner(np, [s], [l, r]), np + 1)
  }

  function InsertRoot(t: Tree, k: Key, v: Value, np: PageId): (Tree, PageId)
    requires Sized(t)
  {
    Rooted(InsertBelow(t, k, v, np))
  }

  lemma {:induction false} ShapedIsSized(t: Tree, h: nat, lo: Bound, hi: Bound)
    requires Shaped(t, h, lo, hi)
    ensures Sized(t)
    decreases h
  {
    if t.Inner? {
      forall i | 0 <= i < |t.children| ensures Sized(t.children[i]) {
        ShapedIsSized(t.children[i], h - 1, LowOf(t.keys, i, lo), HighOf(t.keys, i, hi));
      }
    }
  }

  ghost predicate ShapedResult(r: Inserted, h: nat, lo: Bound, hi: Bound) {
    match r
    case Kept(t, _) => Shaped(t, h, lo, hi)
    case Split(l, s, r, _) =>
      Over(lo, s) && Under(s, hi) && Shaped(l, h, lo, Some(s)) && Shaped(r, h, Some(s), hi)
  }

  lemma HalvesAscending(keys: seq<int>, mid: nat)
    requires Ascending(keys) && mid < |keys|
    ensures Ascending(keys[..mid]) && Ascending(keys[mid..]) && Ascending(keys[mid + 1..])
  {
  }

  lemma SplitLeafShaped(t: Tree, h: nat, lo: Bound, hi: Bound, np: PageId)
    requires t.Leaf? && Shaped(t, h, lo, hi) && |t.keys| >= 3
    ensures ShapedResult(SplitLeaf(t, np), h, lo, hi)
  {
    var mid, last := |t.keys| / 2, |t.keys| - 1;
    HalvesAscending(t.keys, mid);
    assert t.keys[0] <= t.keys[mid - 1] < t.keys[mid] <= t.keys[last];
    assert t.keys[mid] < t.keys[last];
  }

  /** The children of an inner node are shaped by the separators around them. */
  ghost predicate ChildShaped(t: Tree, h: nat, lo: Bound, hi: Bound, i: nat)
    requires t.Inner? && h > 0 && i <= |t.keys| && i < |t.children|
  {
    Shaped(t.children[i], h - 1, LowOf(t.keys, i, lo), HighOf(t.keys, i, hi))
  }

  lemma InnerShaped(t: Tree, h: nat, lo: Bound, hi: Bound)
    requires t.Inner? && h > 0 && t.keys != [] && |t.children| == |t.keys| + 1
    requires Ascending(t.keys) && Over(lo, t.keys[0]) && Under(t.keys[|t.keys| - 1], hi)
    requires forall i :: 0 <= i < |t.children| ==> ChildShaped(t, h, lo, hi, i)
    ensures Shaped(t, h, lo, hi)
  {
    assert lo.Some? && hi.Some? ==> lo.value < t.keys[0] <= t.keys[|t.keys| - 1] < hi.value;
    forall i | 0 <= i < |t.children|
      ensures Shaped(t.children[i], h - 1, LowOf(t.keys, i, lo), HighOf(t.keys, i, hi))
    {
      assert ChildShaped(t, h, lo, hi, i);
    }
  }

  lemma ChildIsShaped(t: Tree, h: nat, lo: Bound, hi: Bound, i: nat)
    requires t.Inner? && Shaped(t, h, lo, hi) && i < |t.children|
    ensures ChildShaped(t, h, lo, hi, i)
  {
  }

  /** The separators around a child do not change when its parent is halved at mid. */
  lemma SplitBounds(keys: seq<Key>, mid: nat, lo: Bound, hi: Bound, i: nat)
    requires mid < |keys| && i <= |keys|
    ensures i <= mid ==> LowOf(keys[..mid], i, lo) == LowOf(keys, i, lo)
                         && HighOf(keys[..mid], i, Some(keys[mid])) == HighOf(keys, i, hi)
    ensures i > mid ==> LowOf(keys[mid + 1..], i - mid - 1, Some(keys[mid])) == LowOf(keys, i, lo)
                        && HighOf(keys[mid + 1..], i - mid - 1, hi) == HighOf(keys, i, hi)
  {
  }

  /** right holds the keys of t after key mid, and their children. */
  ghost predicate RightHalf(t: Tree, mid: nat, right: Tree) {
    && t.Inner? && right.Inner? && |t.children| == |t.keys| + 1 && mid + 1 < |t.keys|
    && right.keys == t.keys[mid + 1..] && right.children == t.children[mid + 1..]
  }

  /** left holds the keys of t before key mid, and their children. */
  ghost predicate LeftHalf(t: Tree, mid: nat, left: Tree) {
    && t.Inner? && left.Inner? && |t.children| == |t.keys| + 1 && 0 < mid < |t.keys|
    && left.keys == t.keys[..mid] && left.children == t.children[..mid + 1]
  }

  lemma RightChildShaped(t: Tree, h: nat, lo: Bound, hi: Bound, mid: nat, right: Tree, i: nat)
    requires RightHalf(t, mid, right) && h > 0 && mid + 1 + i < |t.children|
    requires ChildShaped(t, h, lo, hi, mid + 1 + i)
    ensures ChildShaped(right, h, Some(t.keys[mid]), hi, i)
  {
    SplitBounds(t.keys, mid, lo, hi, mid + 1 + i);
  }

  lemma LeftChildShaped(t: Tree, h: nat, lo: Bound, hi: Bound, mid: nat, left: Tree, i: nat)
    requires LeftHalf(t, mid, left) && h > 0 && i <= mid
    requires ChildShaped(t, h, lo, hi, i)
    ensures ChildShaped(left, h, lo, Some(t.keys[mid]), i)
  {
    SplitBounds(t.keys, mid, lo, hi, i);
  }

  lemma LeftHalfShaped(t: Tree, h: nat, lo: Bound, hi: Bound, mid: nat, left: Tree)
    requires LeftHalf(t, mid, left) && Shaped(t, h, lo, hi)
    ensures Shaped(left, h, lo, Some(t.keys[mid]))
  {
    forall i | 0 <= i <= mid ensures ChildShaped(left, h, lo, Some(t.keys[mid]), i) {
      ChildIsShaped(t, h, lo, hi, i);
      LeftChildShaped(t, h, lo, hi, mid, left, i);
    }
    HalvesAscending(t.keys, mid);
    InnerShaped(left, h, lo, Some(t.keys[mid]));
  }

  lemma RightHalfShaped(t: Tree, h: nat, lo: Bound, hi: Bound, mid: nat, right: Tree)
    requires RightHalf(t, mid, right) && Shaped(t, h, lo, hi)
    ensures Shaped(right, h, Some(t.keys[mid]), hi)
  {
    forall i | 0 <= i < |right.children| ensures ChildShaped(right, h, Some(t.keys[mid]), hi, i) {
      ChildIsShaped(t, h, lo, hi, mid + 1 + i);
      RightChildShaped(t, h, lo, hi, mid, right, i);
    }
    HalvesAscending(t.keys, mid);
    assert right.keys[|right.keys| - 1] == t.keys[|t.keys| - 1];
    InnerShaped(right, h, Some(t.keys[mid]), hi);
  }

  lemma SplitInnerShaped(t: Tree, h: nat, lo: Bound, hi: Bound, np: PageId)
    requires t.Inner? && Shaped(t, h, lo, hi) && |t.keys| >= 3
    ensures ShapedResult(SplitInner(t, np), h, lo, hi)
  {
    var s, mid := SplitInner(t, np), |t.keys| / 2;
    LeftHalfShaped(t, h, lo, hi, mid, s.left);
    RightHalfShaped(t, h, lo, hi, mid, s.right);
    SeparatorInside(t, h, lo, hi, mid);
  }

  lemma SeparatorInside(t: Tree, h: nat, lo: Bound, hi: Bound, mid: nat)
    requires t.Inner? && Shaped(t, h, lo, hi) && 0 < mid < |t.keys| - 1
    ensures Over(lo, t.keys[mid]) && Under(t.keys[mid], hi)
  {
    assert t.keys[0] < t.keys[mid] < t.keys[|t.keys| - 1];
  }

  lemma SettleShaped(t: Tree, h: nat, lo: Bound, hi: Bound, np: PageId)
    requires Shaped(t, h, lo, hi)
    ensures (t.Leaf? ==> |t.keys| == |t.values|) && (t.Inner? ==> |t.children| == |t.keys| + 1)
    ensures ShapedResult(Settle(t, np), h, lo, hi)
  {
    if |t.keys| >= MAX_KEYS {
      if t.Leaf? { SplitLeafShaped(t, h, lo, hi, np); } else { SplitInnerShaped(t, h, lo, hi, np); }
    }
  }

  lemma InsertLeafShaped(t: Tree, k: Key, v: Value, lo: Bound, hi: Bound)
    requires t.Leaf? && Shaped(t, 0, lo, hi) && Over(lo, k) && UpTo(k, hi)
    ensures Shaped(InsertLeaf(t, k, v), 0, lo, hi)
  {
  }

  /** The child an insertion descends to lies between separators that admit the key. */
  lemma ChildAdmits(keys: seq<int>, k: int, lo: Bound, hi: Bound)
    requires Over(lo, k) && UpTo(k, hi)
    ensures Over(LowOf(keys, Position(keys, k), lo), k)
    ensures UpTo(k, HighOf(keys, Position(keys, k), hi))
  {
  }

  lemma ReplaceChildShaped(t: Tree, h: nat, lo: Bound, hi: Bound, i: nat, c: Tree)
    requires t.Inner? && Shaped(t, h, lo, hi) && i < |t.children|
    requires Shaped(c, h - 1, LowOf(t.keys, i, lo), HighOf(t.keys, i, hi))
    ensures Shaped(t.(children := t.children[i := c]), h, lo, hi)
  {
  }

  lemma InsertAscending(keys: seq<int>, i: nat, s: int)
    requires Ascending(keys) && i <= |keys|
    requires i > 0 ==> keys[i - 1] < s
    requires i < |keys| ==> s < keys[i]
    ensures Ascending(InsertAt(keys, i, s)) && Position(keys, s) == i
  {
    var keys' := InsertAt(keys, i, s);
    forall j | 0 <= j < i ensures keys[j] < s {
      assert j < i - 1 ==> keys[j] < keys[i - 1];
    }
    forall j | i <= j < |keys| ensures s < keys[j] {
      assert i < j ==> keys[i] < keys[j];
    }
    PositionIs(keys, s, i);
    forall j, m | 0 <= j < m < |keys'| ensures keys'[j] < keys'[m] {
      assert keys'[j] == if j < i then keys[j] else if j == i then s else keys[j - 1];
      assert keys'[m] == if m < i then keys[m] else if m == i then s else keys[m - 1];
    }
  }

  lemma SeparatorKeys(keys: seq<Key>, i: nat, s: Key, lo: Bound, hi: Bound)
    requires Ascending(keys) && keys != [] && i <= |keys|
    requires Over(lo, keys[0]) && Under(keys[|keys| - 1], hi)
    requires Over(LowOf(keys, i, lo), s) && Under(s, HighOf(keys, i, hi))
    ensures Position(keys, s) == i
    ensures var keys' := InsertAt(keys, i, s);
            Ascending(keys') && Over(lo, keys'[0]) && Under(keys'[|keys'| - 1], hi)
  {
    InsertAscending(keys, i, s);
    var keys' := InsertAt(keys, i, s);
    assert keys'[0] == if i == 0 then s else keys[0];
    assert keys'[|keys|] == if i == |keys| then s else keys[|keys| - 1];
  }

  lemma SeparatorBounds(keys: seq<Key>, i: nat, s: Key, lo: Bound, hi: Bound, j: nat)
    requires i <= |keys| && j <= |keys| + 1
    ensures var keys' := InsertAt(keys, i, s);
            && (j <= i ==> LowOf(keys', j, lo) == LowOf(keys, j, lo))
            && (j == i + 1 ==> LowOf(keys', j, lo) == Some(s) && HighOf(keys', j, hi) == HighOf(keys, i, hi))
            && (j == i ==> HighOf(keys', j, hi) == Some(s))
            && (j < i ==> HighOf(keys', j, hi) == HighOf(keys, j, hi))
            && (j > i + 1 ==> LowOf(keys', j, lo) == LowOf(keys, j - 1, lo) &&
                              HighOf(keys', j, hi) == HighOf(keys, j - 1, hi))
  {
  }

  lemma AddedChildShaped(t: Tree, h: nat, lo: Bound, hi: Bound, i: nat, l: Tree, s: Key, r: Tree, j: nat)
    requires t.Inner? && h > 0 && |t.children| == |t.keys| + 1 && i < |t.children| && j <= |t.children|
    requires forall m :: 0 <= m < |t.children| ==> ChildShaped(t, h, lo, hi, m)
    requires ShapedResult(Split(l, s, r, 0), h - 1, LowOf(t.keys, i, lo), HighOf(t.keys, i, hi))
    ensures ChildShaped(WithSplitChild(t, i, l, s, r), h, lo, hi, j)
  {
    SeparatorBounds(t.keys, i, s, lo, hi, j);
    if j < i {
      assert ChildShaped(t, h, lo, hi, j);
    } else if j > i + 1 {
      assert ChildShaped(t, h, lo, hi, j - 1);
    }
  }

  lemma AddSeparatorShaped(t: Tree, h: nat, lo: Bound, hi: Bound, i: nat, l: Tree, s: Key, r: Tree)
    requires t.Inner? && Shaped(t, h, lo, hi) && i < |t.children|
    requires ShapedResult(Split(l, s, r, 0), h - 1, LowOf(t.keys, i, lo), HighOf(t.keys, i, hi))
    ensures Shaped(WithSplitChild(t, i, l, s, r), h, lo, hi)
    ensures Position(t.keys, s) == i
  {
    var t' := WithSplitChild(t, i, l, s, r);
    SeparatorKeys(t.keys, i, s, lo, hi);
    forall m | 0 <= m < |t.children| ensures ChildShaped(t, h, lo, hi, m) {
      ChildIsShaped(t, h, lo, hi, m);
    }
    forall j | 0 <= j < |t'.children| ensures ChildShaped(t', h, lo, hi, j) {
      AddedChildShaped(t, h, lo, hi, i, l, s, r, j);
    }
    InnerShaped(t', h, lo, hi);
  }

  lemma AfterChildShaped(t: Tree, h: nat, lo: Bound, hi: Bound, i: nat, below: Inserted)
    requires t.Inner? && Shaped(t, h, lo, hi) && i < |t.children|
    requires ShapedResult(below, h - 1, LowOf(t.keys, i, lo), HighOf(t.keys, i, hi))
    ensures ShapedResult(AfterChild(t, i, below), h, lo, hi)
  {
    match below
    case Kept(c, _) => ReplaceChildShaped(t, h, lo, hi, i, c);
    case Split(l, s, r, np) =>
      AddSeparatorShaped(t, h, lo, hi, i, l, s, r);
      SettleShaped(WithSplitChild(t, i, l, s, r), h, lo, hi, np);
  }

  /** Order, bounds, and one depth for all leaves survive every insertion. */
  lemma {:induction false} InsertShaped(t: Tree, h: nat, lo: Bound, hi: Bound, k: Key, v: Value, np: PageId)
    requires Shaped(t, h, lo, hi) && Sized(t)
    requires Over(lo, k) && UpTo(k, hi)
    ensures ShapedResult(InsertBelow(t, k, v, np), h, lo, hi)
    decreases h
  {
    if t.Leaf? {
      InsertLeafShaped(t, k, v, lo, hi);
      if !Holds(t.keys, k) { SettleShaped(InsertLeaf(t, k, v), h, lo, hi, np); }
    } else {
      var i := Position(t.keys, k);
      ChildAdmits(t.keys, k, lo, hi);
      ChildIsShaped(t, h, lo, hi, i);
      InsertShaped(t.children[i], h - 1, LowOf(t.keys, i, lo), HighOf(t.keys, i, hi), k, v, np);
      AfterChildShaped(t, h, lo, hi, i, InsertBelow(t.children[i], k, v, np));
    }
  }

}
