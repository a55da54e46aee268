// What a B+Tree holds: its entries in leaf order, and what one insertion does to them.
module TreeContents {
  import opened Sequences
  import opened TreeModel

  /**
   Every key has two places in the tree. Its primary place is the one a search reaches. A key
   that also separates two children has a second, shadow place just in front, at the end of
   the left child: the one an insertion of that key reaches.
   */
  function Primary(k: int): int { 2 * k + 1 }
  function Shadow(k: int): int { 2 * k }

  datatype Entry = Entry(slot: int, value: Value)

  function Slots(es: seq<Entry>): (s: seq<int>)
    ensures |s| == |es|
  {
    seq(|es|, i requires 0 <= i < |es| => es[i].slot)
  }

  ghost predicate Sorted(es: seq<Entry>) {
    forall i, j :: 0 <= i < j < |es| ==> es[i].slot < es[j].slot
  }

  ghost predicate AllBelow(es: seq<Entry>, slot: int) { forall i :: 0 <= i < |es| ==> es[i].slot < slot }
  ghost predicate AllAbove(es: seq<Entry>, slot: int) { forall i :: 0 <= i < |es| ==> slot < es[i].slot }

  /** Set the value of a slot, keeping the entries in slot order. */
  function Upsert(es: seq<Entry>, slot: int, v: Value): seq<Entry> {
    var p := Position(Slots(es), slot);
    if p < |es| && es[p].slot == slot then es[p := Entry(slot, v)] else InsertAt(es, p, Entry(slot, v))
  }

  function SlotOf(k: int, hi: Bound): int {
    if hi == Some(k) then Shadow(k) else Primary(k)
  }

  function LeafEntries(keys: seq<Key>, values: seq<Value>, hi: Bound): (es: seq<Entry>)
    requires |keys| == |values|
    ensures |es| == |keys|
  {
    seq(|keys|, i requires 0 <= i < |keys| => Entry(SlotOf(keys[i], hi), values[i]))
  }

  function Parts(t: Tree, hi: Bound): (ps: seq<seq<Entry>>)
    requires t.Inner? && Sized(t)
    ensures |ps| == |t.children|
    ensures forall i :: 0 <= i < |ps| ==> ps[i] == Entries(t.children[i], HighOf(t.keys, i, hi))
    decreases t, 0
  {
    seq(|t.children|, i requires 0 <= i < |t.children| => Entries(t.children[i], HighOf(t.keys, i, hi)))
  }

  /** The entries of t from left to right, when hi is the separator right of t. */
  function Entries(t: Tree, hi: Bound): seq<Entry>
    requires Sized(t)
    decreases t, 1
  {
    match t
    case Leaf(_, keys, values, _) => LeafEntries(keys, values, hi)
    case Inner(_, _, _) => Join(Parts(t, hi))
  }

  /** Whether an insertion of k meets k as a separator on its way down. */
  predicate Separates(t: Tree, k: int)
    requires Sized(t)
  {
    t.Inner? && (Holds(t.keys, k) || Separates(t.children[Position(t.keys, k)], k))
  }

  /** The slot an insertion of k writes. */
  function Target(t: Tree, k: int, hi: Bound): int
    requires Sized(t)
  {
    if hi == Some(k) || Separates(t, k) then Shadow(k) else Primary(k)
  }

  // ----- sortedness -----

  lemma {:induction false} JoinSorted(ps: seq<seq<Entry>>)
    requires forall i :: 0 <= i < |ps| ==> Sorted(ps[i])
    requires forall i, j, x, y :: 0 <= i < j < |ps| && x in ps[i] && y in ps[j] ==> x.slot < y.slot
    ensures Sorted(Join(ps))
  {
    if ps != [] {
      var rest := ps[1..];
      forall i, j, x: Entry, y: Entry | 0 <= i < j < |rest| && x in rest[i] && y in rest[j] ensures x.slot < y.slot {
        assert x in ps[i + 1] && y in ps[j + 1];
      }
      JoinSorted(rest);
      forall x, y | x in ps[0] && y in Join(rest) ensures x.slot < y.slot {
        InJoin(rest, y);
        var j :| 0 <= j < |rest| && y in rest[j];
        assert y in ps[j + 1];
      }
    }
  }

  /** A slot between lo and hi: the primary slot of lo is in, and so is the shadow slot of hi. */
  ghost predicate Within(slot: int, lo: Bound, hi: Bound) {
    (lo.Some? ==> Primary(lo.value) <= slot) && (hi.Some? ==> slot <= Shadow(hi.value))
  }

  lemma LeafWithin(t: Tree, lo: Bound, hi: Bound)
    requires t.Leaf? && Shaped(t, 0, lo, hi) && Sized(t)
    ensures forall e :: e in Entries(t, hi) ==> Within(e.slot, lo, hi)
    ensures Sorted(Entries(t, hi))
    ensures lo.Some? ==> Entries(t, hi) != [] && Entries(t, hi)[0].slot == Primary(lo.value)
  {
  }

  /** The separators on either side of child i bound its entries. */
  lemma PartBounds(t: Tree, h: nat, lo: Bound, hi: Bound, i: nat)
    requires t.Inner? && Shaped(t, h, lo, hi) && i < |t.children|
    ensures forall slot :: Within(slot, LowOf(t.keys, i, lo), HighOf(t.keys, i, hi)) ==> Within(slot, lo, hi)
  {
    if i > 0 && lo.Some? { assert lo.value < t.keys[0] <= t.keys[i - 1]; }
    if i < |t.keys| && hi.Some? { assert t.keys[i] <= t.keys[|t.keys| - 1] < hi.value; }
  }

  lemma PartsApart(keys: seq<Key>, lo: Bound, hi: Bound, i: nat, j: nat, x: int, y: int)
    requires Ascending(keys) && i < j <= |keys|
    requires Within(x, LowOf(keys, i, lo), HighOf(keys, i, hi))
    requires Within(y, LowOf(keys, j, lo), HighOf(keys, j, hi))
    ensures x < y
  {
    assert keys[i] <= keys[j - 1];
  }

  /** Entries come in strictly increasing slot order, and the separator left of t is its first key. */
  lemma {:induction false} EntriesSorted(t: Tree, h: nat, lo: Bound, hi: Bound)
    requires Shaped(t, h, lo, hi) && Sized(t)
    ensures forall e :: e in Entries(t, hi) ==> Within(e.slot, lo, hi)
    ensures Sorted(Entries(t, hi))
    ensures lo.Some? ==> Entries(t, hi) != [] && Entries(t, hi)[0].slot == Primary(lo.value)
    decreases h
  {
    if t.Leaf? {
      LeafWithin(t, lo, hi);
    } else {
      var ps: seq<seq<Entry>> := Parts(t, hi);
      forall i | 0 <= i < |ps|
        ensures Sorted(ps[i])
        ensures forall e: Entry :: e in ps[i] ==> Within(e.slot, LowOf(t.keys, i, lo), HighOf(t.keys, i, hi))
        ensures LowOf(t.keys, i, lo).Some? ==> ps[i] != [] && ps[i][0].slot == Primary(LowOf(t.keys, i, lo).value)
      {
        ChildIsShaped(t, h, lo, hi, i);
        EntriesSorted(t.children[i], h - 1, LowOf(t.keys, i, lo), HighOf(t.keys, i, hi));
      }
      InnerEntriesSorted(t, h, lo, hi);
    }
  }

  lemma PartsSorted(keys: seq<Key>, ps: seq<seq<Entry>>, lo: Bound, hi: Bound)
    requires Ascending(keys) && |ps| == |keys| + 1
    requires forall i :: 0 <= i < |ps| ==> Sorted(ps[i])
    requires forall i, e :: 0 <= i < |ps| && e in ps[i] ==> Within(e.slot, LowOf(keys, i, lo), HighOf(keys, i, hi))
    ensures Sorted(Join(ps))
  {
    forall i, j, x: Entry, y: Entry | 0 <= i < j < |ps| && x in ps[i] && y in ps[j] ensures x.slot < y.slot {
      PartsApart(keys, lo, hi, i, j, x.slot, y.slot);
    }
    JoinSorted(ps);
  }

  lemma InnerEntriesSorted(t: Tree, h: nat, lo: Bound, hi: Bound)
    requires t.Inner? && Shaped(t, h, lo, hi) && Sized(t)
    requires forall i :: 0 <= i < |t.children| ==> Sorted(Parts(t, hi)[i])
    requires forall i, e :: 0 <= i < |t.children| && e in Parts(t, hi)[i] ==>
               Within(e.slot, LowOf(t.keys, i, lo), HighOf(t.keys, i, hi))
    requires LowOf(t.keys, 0, lo).Some? ==> Parts(t, hi)[0] != [] && Parts(t, hi)[0][0].slot == Primary(lo.value)
    ensures forall e :: e in Entries(t, hi) ==> Within(e.slot, lo, hi)
    ensures Sorted(Entries(t, hi))
    ensures lo.Some? ==> Entries(t, hi) != [] && Entries(t, hi)[0].slot == Primary(lo.value)
  {
    var ps: seq<seq<Entry>> := Parts(t, hi);
    PartsSorted(t.keys, ps, lo, hi);
    forall e: Entry | e in Join(ps) ensures Within(e.slot, lo, hi) {
      InJoin(ps, e);
      var i :| 0 <= i < |ps| && e in ps[i];
      PartBounds(t, h, lo, hi, i);
    }
    assert Join(ps) == ps[0] + Join(ps[1..]);
  }

  // ----- insertion is an upsert -----

  lemma PositionInside(a: seq<int>, b: seq<int>, c: seq<int>, slot: int)
    requires Ascending(a + b + c)
    requires forall i :: 0 <= i < |a| ==> a[i] < slot
    requires forall i :: 0 <= i < |c| ==> slot < c[i]
    ensures Position(a + b + c, slot) == |a| + Position(b, slot)
  {
    var all := a + b + c;
    var p := Position(b, slot);
    forall i | 0 <= i < |a| + p ensures all[i] < slot {
      assert all[i] == if i < |a| then a[i] else b[i - |a|];
    }
    assert |a| + p < |all| ==> all[|a| + p] == if p < |b| then b[p] else c[0];
    PositionIs(all, slot, |a| + p);
  }

  lemma UpsertInside(a: seq<Entry>, b: seq<Entry>, c: seq<Entry>, slot: int, v: Value)
    requires Sorted(a + b + c) && AllBelow(a, slot) && AllAbove(c, slot)
    ensures Upsert(a + b + c, slot, v) == a + Upsert(b, slot, v) + c
  {
    var es := a + b + c;
    assert Slots(es) == Slots(a) + Slots(b) + Slots(c);
    assert Ascending(Slots(es));
    PositionInside(Slots(a), Slots(b), Slots(c), slot);
    UpsertSplices(a, b, c, slot, v, Position(Slots(b), slot));
  }

  lemma UpsertSplices(a: seq<Entry>, b: seq<Entry>, c: seq<Entry>, slot: int, v: Value, p: nat)
    requires p == Position(Slots(b), slot) && |a| + p == Position(Slots(a + b + c), slot)
    requires AllAbove(c, slot)
    ensures Upsert(a + b + c, slot, v) == a + Upsert(b, slot, v) + c
  {
    if p < |b| {
      assert (a + b + c)[|a| + p] == b[p];
      ReplaceInside(a, b, c, p, Entry(slot, v));
    } else if c != [] {
      assert (a + b + c)[|a| + p] == c[0];
    }
    InsertInside(a, b, c, p, Entry(slot, v));
  }

  lemma SlotOrder(x: int, y: int, hi: Bound)
    requires UpTo(x, hi) && UpTo(y, hi)
    ensures x < y <==> SlotOf(x, hi) < SlotOf(y, hi)
  {
  }

  lemma LeafTarget(keys: seq<Key>, values: seq<Value>, k: Key, hi: Bound)
    requires Ascending(keys) && |keys| == |values| && UpTo(k, hi)
    requires forall i :: 0 <= i < |keys| ==> UpTo(keys[i], hi)
    ensures Position(Slots(LeafEntries(keys, values, hi)), SlotOf(k, hi)) == Position(keys, k)
  {
    var slots, pos := Slots(LeafEntries(keys, values, hi)), Position(keys, k);
    forall i, j | 0 <= i < j < |keys| ensures slots[i] < slots[j] {
      SlotOrder(keys[i], keys[j], hi);
    }
    forall i | 0 <= i < pos ensures slots[i] < SlotOf(k, hi) {
      SlotOrder(keys[i], k, hi);
    }
    if pos < |keys| {
      SlotOrder(keys[pos], k, hi);
    }
    PositionIs(slots, SlotOf(k, hi), pos);
  }

  lemma LeafReplace(keys: seq<Key>, values: seq<Value>, hi: Bound, pos: nat, v: Value)
    requires |keys| == |values| && pos < |keys|
    ensures LeafEntries(keys, values[pos := v], hi) ==
            LeafEntries(keys, values, hi)[pos := Entry(SlotOf(keys[pos], hi), v)]
  {
  }

  lemma LeafAdd(keys: seq<Key>, values: seq<Value>, hi: Bound, pos: nat, k: Key, v: Value)
    requires |keys| == |values| && pos <= |keys|
    ensures LeafEntries(InsertAt(keys, pos, k), InsertAt(values, pos, v), hi) ==
            InsertAt(LeafEntries(keys, values, hi), pos, Entry(SlotOf(k, hi), v))
  {
  }

  lemma LeafAddUpserts(keys: seq<Key>, values: seq<Value>, hi: Bound, k: Key, v: Value)
    requires Ascending(keys) && |keys| == |values| && UpTo(k, hi)
    requires forall i :: 0 <= i < |keys| ==> UpTo(keys[i], hi)
    requires !Holds(keys, k)
    ensures var pos := Position(keys, k);
            LeafEntries(InsertAt(keys, pos, k), InsertAt(values, pos, v), hi) ==
            Upsert(LeafEntries(keys, values, hi), SlotOf(k, hi), v)
  {
    var pos := Position(keys, k);
    LeafTarget(keys, values, k, hi);
    if pos < |keys| {
      SlotOrder(k, keys[pos], hi);
    }
    LeafAdd(keys, values, hi, pos, k, v);
  }

  lemma LeafReplaceUpserts(keys: seq<Key>, values: seq<Value>, hi: Bound, k: Key, v: Value)
    requires Ascending(keys) && |keys| == |values| && UpTo(k, hi)
    requires forall i :: 0 <= i < |keys| ==> UpTo(keys[i], hi)
    requires Holds(keys, k)
    ensures LeafEntries(keys, values[Position(keys, k) := v], hi) ==
            Upsert(LeafEntries(keys, values, hi), SlotOf(k, hi), v)
  {
    LeafTarget(keys, values, k, hi);
    LeafReplace(keys, values, hi, Position(keys, k), v);
  }

  lemma LeafInsertEntries(t: Tree, k: Key, v: Value, lo: Bound, hi: Bound)
    requires t.Leaf? && Shaped(t, 0, lo, hi) && UpTo(k, hi) && Sized(t)
    ensures Entries(InsertLeaf(t, k, v), hi) == Upsert(Entries(t, hi), Target(t, k, hi), v)
  {
    assert forall i :: 0 <= i < |t.keys| ==> UpTo(t.keys[i], hi);
    if Holds(t.keys, k) {
      LeafReplaceUpserts(t.keys, t.values, hi, k, v);
    } else {
      LeafAddUpserts(t.keys, t.values, hi, k, v);
    }
  }

  lemma SplitLeafEntries(t: Tree, lo: Bound, hi: Bound, np: PageId)
    requires t.Leaf? && Shaped(t, 0, lo, hi) && |t.keys| >= 2
    ensures ResultEntries(SplitLeaf(t, np), hi) == Entries(t, hi)
  {
    var mid := |t.keys| / 2;
    forall i | 0 <= i < mid
      ensures SlotOf(t.keys[i], hi) == SlotOf(t.keys[i], Some(t.keys[mid])) == Primary(t.keys[i])
    {
      assert t.keys[i] < t.keys[mid] <= t.keys[|t.keys| - 1];
    }
  }

  lemma SplitInnerSized(t: Tree, np: PageId)
    requires t.Inner? && Sized(t) && |t.keys| >= 3
    ensures ResultSized(SplitInner(t, np))
  {
    var s := SplitInner(t, np);
    assert forall i :: 0 <= i < |s.left.children| ==> s.left.children[i] == t.children[i];
    assert forall i :: 0 <= i < |s.right.children| ==> s.right.children[i] == t.children[|t.keys| / 2 + 1 + i];
  }

  lemma LeftParts(t: Tree, hi: Bound, left: Tree, mid: nat)
    requires Sized(t) && LeftHalf(t, mid, left) && Sized(left)
    ensures Parts(left, Some(t.keys[mid])) == Parts(t, hi)[..mid + 1]
  {
    var ls, ps := Parts(left, Some(t.keys[mid])), Parts(t, hi);
    forall i | 0 <= i <= mid ensures ls[i] == ps[i] {
      SplitBounds(t.keys, mid, None, hi, i);
    }
  }

  lemma RightParts(t: Tree, hi: Bound, right: Tree, mid: nat)
    requires Sized(t) && RightHalf(t, mid, right) && Sized(right)
    ensures Parts(right, hi) == Parts(t, hi)[mid + 1..]
  {
    var rs, ps := Parts(right, hi), Parts(t, hi);
    forall i | 0 <= i < |rs| ensures rs[i] == ps[mid + 1 + i] {
      SplitBounds(t.keys, mid, None, hi, mid + 1 + i);
    }
  }

  lemma HalvesEntries(t: Tree, hi: Bound, mid: nat, left: Tree, right: Tree)
    requires Sized(t) && LeftHalf(t, mid, left) && RightHalf(t, mid, right) && Sized(left) && Sized(right)
    ensures Entries(left, Some(t.keys[mid])) + Entries(right, hi) == Entries(t, hi)
  {
    LeftParts(t, hi, left, mid);
    RightParts(t, hi, right, mid);
    JoinCut(Parts(t, hi), mid + 1);
  }

  lemma SplitInnerEntries(t: Tree, hi: Bound, np: PageId)
    requires t.Inner? && Sized(t) && |t.keys| >= 3
    ensures ResultSized(SplitInner(t, np))
    ensures ResultEntries(SplitInner(t, np), hi) == Entries(t, hi)
  {
    var s := SplitInner(t, np);
    SplitInnerSized(t, np);
    HalvesEntries(t, hi, |t.keys| / 2, s.left, s.right);
  }

  ghost predicate ResultSized(r: Inserted) {
    match r
    case Kept(t, _) => Sized(t)
    case Split(l, _, r, _) => Sized(l) && Sized(r)
  }

  ghost function ResultEntries(r: Inserted, hi: Bound): seq<Entry>
    requires ResultSized(r)
  {
    match r
    case Kept(t, _) => Entries(t, hi)
    case Split(l, s, r, _) => Entries(l, Some(s)) + Entries(r, hi)
  }

  lemma SettleEntries(t: Tree, h: nat, lo: Bound, hi: Bound, np: PageId)
    requires Shaped(t, h, lo, hi) && Sized(t)
    ensures ResultSized(Settle(t, np))
    ensures ResultEntries(Settle(t, np), hi) == Entries(t, hi)
  {
    if |t.keys| >= MAX_KEYS {
      if t.Leaf? { SplitLeafEntries(t, lo, hi, np); } else { SplitInnerEntries(t, hi, np); }
    }
  }

  lemma ResultIsSized(r: Inserted, h: nat, lo: Bound, hi: Bound)
    requires ShapedResult(r, h, lo, hi)
    ensures ResultSized(r)
  {
    match r
    case Kept(t, _) => ShapedIsSized(t, h, lo, hi);
    case Split(l, s, r, _) => ShapedIsSized(l, h, lo, Some(s)); ShapedIsSized(r, h, Some(s), hi);
  }

  lemma PartWithin(t: Tree, h: nat, lo: Bound, hi: Bound, j: nat, e: Entry)
    requires t.Inner? && Shaped(t, h, lo, hi) && Sized(t) && j < |t.children|
    requires e in Parts(t, hi)[j]
    ensures Within(e.slot, LowOf(t.keys, j, lo), HighOf(t.keys, j, hi))
  {
    ChildIsShaped(t, h, lo, hi, j);
    EntriesSorted(t.children[j], h - 1, LowOf(t.keys, j, lo), HighOf(t.keys, j, hi));
  }

  /** The entries left and right of the child that an insertion of k descends to. */
  lemma LeftOfChild(t: Tree, h: nat, lo: Bound, hi: Bound, i: nat, slot: int)
    requires t.Inner? && Shaped(t, h, lo, hi) && Sized(t) && i <= |t.keys|
    requires forall j :: 0 <= j < i ==> Shadow(t.keys[j]) < slot
    ensures AllBelow(Join(Parts(t, hi)[..i]), slot)
  {
    var ps: seq<seq<Entry>> := Parts(t, hi);
    assert ps[..i] == ps[0..i];
    forall m | 0 <= m < |Join(ps[..i])| ensures Join(ps[..i])[m].slot < slot {
      var e := Join(ps[..i])[m];
      var j := PartOf(ps, 0, i, e);
      PartWithin(t, h, lo, hi, j, e);
    }
  }

  lemma RightOfChild(t: Tree, h: nat, lo: Bound, hi: Bound, i: nat, slot: int)
    requires t.Inner? && Shaped(t, h, lo, hi) && Sized(t) && i <= |t.keys|
    requires forall j :: i <= j < |t.keys| ==> slot < Primary(t.keys[j])
    ensures AllAbove(Join(Parts(t, hi)[i + 1..]), slot)
  {
    var ps: seq<seq<Entry>> := Parts(t, hi);
    var es: seq<Entry> := Join(ps[i + 1..]);
    assert ps[i + 1..] == ps[i + 1..|ps|];
    forall m | 0 <= m < |es| ensures slot < es[m].slot {
      var e := es[m];
      var j := PartOf(ps, i + 1, |ps|, e);
      PartWithin(t, h, lo, hi, j, e);
    }
  }

  /** The slot written does not depend on the level it is asked at. */
  lemma ChildTarget(t: Tree, k: Key, hi: Bound)
    requires t.Inner? && Sized(t) && t.keys != [] && Ascending(t.keys)
    requires Under(t.keys[|t.keys| - 1], hi) && UpTo(k, hi)
    ensures var i := Position(t.keys, k);
            && Target(t.children[i], k, HighOf(t.keys, i, hi)) == Target(t, k, hi)
            && (forall j :: 0 <= j < i ==> Shadow(t.keys[j]) < Target(t, k, hi))
            && (forall j :: i <= j < |t.keys| ==> Target(t, k, hi) < Primary(t.keys[j]))
  {
    var i := Position(t.keys, k);
    if hi == Some(k) {
      assert t.keys[|t.keys| - 1] < k;
    }
    if i < |t.keys| {
      assert forall j :: i < j < |t.keys| ==> t.keys[i] < t.keys[j];
    }
  }

  lemma KeptChildEntries(t: Tree, hi: Bound, i: nat, c: Tree)
    requires t.Inner? && Sized(t) && i < |t.children| && Sized(c)
    ensures Sized(t.(children := t.children[i := c]))
    ensures Entries(t.(children := t.children[i := c]), hi) ==
            Join(Parts(t, hi)[..i]) + Entries(c, HighOf(t.keys, i, hi)) + Join(Parts(t, hi)[i + 1..])
  {
    var t' := t.(children := t.children[i := c]);
    assert Parts(t', hi) == Parts(t, hi)[i := Entries(c, HighOf(t.keys, i, hi))];
    JoinReplaceOne(Parts(t, hi), i, Entries(c, HighOf(t.keys, i, hi)));
  }

  lemma SplitChildSized(t: Tree, i: nat, l: Tree, s: Key, r: Tree)
    requires t.Inner? && Sized(t) && i < |t.children| && Sized(l) && Sized(r)
    ensures Sized(WithSplitChild(t, i, l, s, r))
  {
    var t' := WithSplitChild(t, i, l, s, r);
    forall j | 0 <= j < |t'.children| ensures Sized(t'.children[j]) {
      if j > i + 1 { assert t'.children[j] == t.children[j - 1]; }
      else if j < i { assert t'.children[j] == t.children[j]; }
    }
  }

  /** t' is t with child i replaced by l and r around a new separator s. */
  ghost predicate ChildSplit(t: Tree, i: nat, l: Tree, s: Key, r: Tree, t': Tree) {
    && t.Inner? && Sized(t) && i < |t.children| && Sized(l) && Sized(r)
    && t'.Inner? && Sized(t')
    && t'.keys == InsertAt(t.keys, i, s) && t'.children == InsertAt(t.children[i := l], i + 1, r)
  }

  lemma UnsplitPart(t: Tree, hi: Bound, i: nat, l: Tree, s: Key, r: Tree, t': Tree, j: nat)
    requires ChildSplit(t, i, l, s, r, t') && j < |t.children|
    ensures j < i ==> Parts(t', hi)[j] == Parts(t, hi)[j]
    ensures j > i ==> Parts(t', hi)[j + 1] == Parts(t, hi)[j]
  {
    if j < i {
      SeparatorBounds(t.keys, i, s, hi, hi, j);
    } else if j > i {
      SeparatorBounds(t.keys, i, s, hi, hi, j + 1);
    }
  }

  lemma SplitParts(t: Tree, hi: Bound, i: nat, l: Tree, s: Key, r: Tree, t': Tree)
    requires ChildSplit(t, i, l, s, r, t')
    ensures Parts(t', hi)[i] == Entries(l, Some(s))
    ensures Parts(t', hi)[i + 1] == Entries(r, HighOf(t.keys, i, hi))
  {
    SeparatorBounds(t.keys, i, s, hi, hi, i);
    SeparatorBounds(t.keys, i, s, hi, hi, i + 1);
  }

  lemma SplitChildEntries(t: Tree, hi: Bound, i: nat, l: Tree, s: Key, r: Tree, t': Tree)
    requires ChildSplit(t, i, l, s, r, t')
    ensures Entries(t', hi) ==
            Join(Parts(t, hi)[..i]) + (Entries(l, Some(s)) + Entries(r, HighOf(t.keys, i, hi))) +
              Join(Parts(t, hi)[i + 1..])
  {
    forall j | 0 <= j < |t.children|
      ensures j < i ==> Parts(t', hi)[j] == Parts(t, hi)[j]
      ensures j > i ==> Parts(t', hi)[j + 1] == Parts(t, hi)[j]
    {
      UnsplitPart(t, hi, i, l, s, r, t', j);
    }
    SplitParts(t, hi, i, l, s, r, t');
    JoinWithTwo(Parts(t, hi), i, Entries(l, Some(s)), Entries(r, HighOf(t.keys, i, hi)), Parts(t', hi));
  }

  lemma UpsertInChild(t: Tree, h: nat, lo: Bound, hi: Bound, k: Key, v: Value)
    requires t.Inner? && Shaped(t, h, lo, hi) && Sized(t) && UpTo(k, hi)
    ensures var i, ps := Position(t.keys, k), Parts(t, hi);
            Upsert(Entries(t, hi), Target(t, k, hi), v) ==
            Join(ps[..i]) + Upsert(ps[i], Target(t, k, hi), v) + Join(ps[i + 1..])
  {
    var i, ps := Position(t.keys, k), Parts(t, hi);
    ChildTarget(t, k, hi);
    LeftOfChild(t, h, lo, hi, i, Target(t, k, hi));
    RightOfChild(t, h, lo, hi, i, Target(t, k, hi));
    EntriesSorted(t, h, lo, hi);
    JoinAround(ps, i);
    UpsertInside(Join(ps[..i]), ps[i], Join(ps[i + 1..]), Target(t, k, hi), v);
  }

  lemma AfterChildEntries(t: Tree, h: nat, lo: Bound, hi: Bound, i: nat, below: Inserted)
    requires t.Inner? && Shaped(t, h, lo, hi) && Sized(t) && i < |t.children|
    requires ShapedResult(below, h - 1, LowOf(t.keys, i, lo), HighOf(t.keys, i, hi))
    requires ResultSized(below)
    ensures ResultSized(AfterChild(t, i, below))
    ensures ResultEntries(AfterChild(t, i, below), hi) ==
            Join(Parts(t, hi)[..i]) + ResultEntries(below, HighOf(t.keys, i, hi)) + Join(Parts(t, hi)[i + 1..])
  {
    match below
    case Kept(c, _) => KeptChildEntries(t, hi, i, c);
    case Split(l, s, r, np) =>
      SplitChildSized(t, i, l, s, r);
      SplitChildEntries(t, hi, i, l, s, r, WithSplitChild(t, i, l, s, r));
      AddSeparatorShaped(t, h, lo, hi, i, l, s, r);
      SettleEntries(WithSplitChild(t, i, l, s, r), h, lo, hi, np);
  }

  /** What one more level adds to an upsert below child i. */
  lemma InnerStep(t: Tree, h: nat, lo: Bound, hi: Bound, k: Key, v: Value, below: Inserted)
    requires t.Inner? && Shaped(t, h, lo, hi) && Sized(t) && UpTo(k, hi)
    requires ShapedResult(below, h - 1, LowOf(t.keys, Position(t.keys, k), lo), HighOf(t.keys, Position(t.keys, k), hi))
    requires ResultSized(below)
    requires ResultEntries(below, HighOf(t.keys, Position(t.keys, k), hi)) ==
             Upsert(Parts(t, hi)[Position(t.keys, k)], Target(t, k, hi), v)
    ensures ResultSized(AfterChild(t, Position(t.keys, k), below))
    ensures ResultEntries(AfterChild(t, Position(t.keys, k), below), hi) == Upsert(Entries(t, hi), Target(t, k, hi), v)
  {
    UpsertInChild(t, h, lo, hi, k, v);
    AfterChildEntries(t, h, lo, hi, Position(t.keys, k), below);
  }

  lemma LeafStep(t: Tree, h: nat, lo: Bound, hi: Bound, k: Key, v: Value, np: PageId)
    requires t.Leaf? && Shaped(t, h, lo, hi) && Sized(t)
    requires Over(lo, k) && UpTo(k, hi)
    ensures ResultSized(InsertBelow(t, k, v, np))
    ensures ResultEntries(InsertBelow(t, k, v, np), hi) == Upsert(Entries(t, hi), Target(t, k, hi), v)
  {
    LeafInsertEntries(t, k, v, lo, hi);
    InsertLeafShaped(t, k, v, lo, hi);
    SettleEntries(InsertLeaf(t, k, v), h, lo, hi, np);
  }

  lemma BelowShaped(t: Tree, h: nat, lo: Bound, hi: Bound, k: Key, v: Value, np: PageId)
    requires t.Inner? && Shaped(t, h, lo, hi) && Sized(t) && Over(lo, k) && UpTo(k, hi)
    ensures var i := Position(t.keys, k);
            ShapedResult(InsertBelow(t.children[i], k, v, np), h - 1, LowOf(t.keys, i, lo), HighOf(t.keys, i, hi))
  {
    hide ShapedResult, InsertBelow, LowOf, HighOf;
    var i := Position(t.keys, k);
    ChildIsShaped(t, h, lo, hi, i);
    ChildAdmits(t.keys, k, lo, hi);
    InsertShaped(t.children[i], h - 1, LowOf(t.keys, i, lo), HighOf(t.keys, i, hi), k, v, np);
  }

  /** Below any node, insertion sets exactly one slot, across every split. */
  lemma {:induction false} InsertEntries(t: Tree, h: nat, lo: Bound, hi: Bound, k: Key, v: Value, np: PageId)
    requires Shaped(t, h, lo, hi) && Sized(t)
    requires Over(lo, k) && UpTo(k, hi)
    ensures ResultSized(InsertBelow(t, k, v, np))
    ensures ResultEntries(InsertBelow(t, k, v, np), hi) == Upsert(Entries(t, hi), Target(t, k, hi), v)
    decreases h
  {
    if t.Leaf? {
      LeafStep(t, h, lo, hi, k, v, np);
    } else {
      var i := Position(t.keys, k);
      ChildIsShaped(t, h, lo, hi, i);
      ChildAdmits(t.keys, k, lo, hi);
      BelowShaped(t, h, lo, hi, k, v, np);
      ChildTarget(t, k, hi);
      InsertEntries(t.children[i], h - 1, LowOf(t.keys, i, lo), HighOf(t.keys, i, hi), k, v, np);
      InnerStep(t, h, lo, hi, k, v, InsertBelow(t.children[i], k, v, np));
    }
  }

}
