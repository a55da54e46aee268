// Looking up one key, and the finite map that a tree is.
module TreeSearch {
  import opened Sequences
  import opened TreeModel
  import opened TreeContents

  /** The value of a slot. */
  function Lookup(es: seq<Entry>, slot: int): Option<Value> {
    var p := Position(Slots(es), slot);
    if p < |es| && es[p].slot == slot then Some(es[p].value) else None
  }

  /** Where a search goes below an inner node: right of a separator equal to the key. */
  function SearchChild(keys: seq<int>, k: int): (i: nat)
    ensures i <= |keys|
  {
    var pos := Position(keys, k);
    if pos < |keys| && keys[pos] <= k then pos + 1 else pos
  }

  function Find(t: Tree, k: int): Option<Value>
    requires Sized(t)
  {
    match t
    case Leaf(_, keys, values, _) => if Holds(keys, k) then Some(values[Position(keys, k)]) else None
    case Inner(_, keys, children) => Find(children[SearchChild(keys, k)], k)
  }

  // ----- a search reaches the primary slot -----

  lemma LookupInside(a: seq<Entry>, b: seq<Entry>, c: seq<Entry>, slot: int)
    requires Sorted(a + b + c) && AllBelow(a, slot) && AllAbove(c, slot)
    ensures Lookup(a + b + c, slot) == Lookup(b, slot)
  {
    var es, p := a + b + c, Position(Slots(b), slot);
    assert Slots(es) == Slots(a) + Slots(b) + Slots(c);
    assert Ascending(Slots(es));
    PositionInside(Slots(a), Slots(b), Slots(c), slot);
    if p < |b| {
      assert es[|a| + p] == b[p];
    } else if c != [] {
      assert es[|a| + p] == c[0];
    }
  }

  lemma SearchChildAdmits(keys: seq<int>, k: int, lo: Bound, hi: Bound)
    requires Ascending(keys) && From(lo, k) && Under(k, hi)
    ensures var i := SearchChild(keys, k);
            && From(LowOf(keys, i, lo), k) && Under(k, HighOf(keys, i, hi))
            && (forall j :: 0 <= j < i ==> Shadow(keys[j]) < Primary(k))
            && (forall j :: i <= j < |keys| ==> Primary(k) < Primary(keys[j]))
  {
    var i := SearchChild(keys, k);
    assert forall j :: i < j < |keys| ==> keys[i] < keys[j];
    assert i > 0 ==> forall j :: 0 <= j < i - 1 ==> keys[j] < keys[i - 1];
  }

  lemma LeafFind(t: Tree, lo: Bound, hi: Bound, k: Key)
    requires t.Leaf? && Shaped(t, 0, lo, hi) && Sized(t) && Under(k, hi)
    ensures Find(t, k) == Lookup(Entries(t, hi), Primary(k))
  {
    var pos := Position(t.keys, k);
    LeafTarget(t.keys, t.values, k, hi);
    if pos < |t.keys| && t.keys[pos] != k {
      SlotOrder(k, t.keys[pos], hi);
    }
  }

  lemma LookupInChild(t: Tree, h: nat, lo: Bound, hi: Bound, k: Key)
    requires t.Inner? && Shaped(t, h, lo, hi) && Sized(t) && From(lo, k) && Under(k, hi)
    ensures Lookup(Entries(t, hi), Primary(k)) == Lookup(Parts(t, hi)[SearchChild(t.keys, k)], Primary(k))
  {
    var i, ps := SearchChild(t.keys, k), Parts(t, hi);
    SearchChildAdmits(t.keys, k, lo, hi);
    LeftOfChild(t, h, lo, hi, i, Primary(k));
    RightOfChild(t, h, lo, hi, i, Primary(k));
    EntriesSorted(t, h, lo, hi);
    JoinAround(ps, i);
    LookupInside(Join(ps[..i]), ps[i], Join(ps[i + 1..]), Primary(k));
  }

  /** A descent finds a key exactly when its primary slot is filled, and returns that value. */
  lemma {:induction false} FindIsLookup(t: Tree, h: nat, lo: Bound, hi: Bound, k: Key)
    requires Shaped(t, h, lo, hi) && Sized(t) && From(lo, k) && Under(k, hi)
    ensures Find(t, k) == Lookup(Entries(t, hi), Primary(k))
    decreases h
  {
    if t.Leaf? {
      LeafFind(t, lo, hi, k);
    } else {
      var i := SearchChild(t.keys, k);
      LookupInChild(t, h, lo, hi, k);
      SearchChildAdmits(t.keys, k, lo, hi);
      ChildIsShaped(t, h, lo, hi, i);
      FindIsLookup(t.children[i], h - 1, LowOf(t.keys, i, lo), HighOf(t.keys, i, hi), k);
    }
  }

  // ----- the map -----

  lemma LookupIsMembership(es: seq<Entry>, slot: int)
    requires Sorted(es)
    ensures forall v :: Lookup(es, slot) == Some(v) <==> Entry(slot, v) in es
  {
    assert Ascending(Slots(es));
    forall v | Entry(slot, v) in es ensures Lookup(es, slot) == Some(v) {
      var i :| 0 <= i < |es| && es[i] == Entry(slot, v);
      PositionIs(Slots(es), slot, i);
    }
  }

  lemma UpsertSorted(es: seq<Entry>, slot: int, v: Value)
    requires Sorted(es)
    ensures Sorted(Upsert(es, slot, v))
  {
    var p := Position(Slots(es), slot);
    assert forall i :: 0 <= i < p ==> es[i].slot == Slots(es)[i] < slot;
    if !(p < |es| && es[p].slot == slot) {
      assert forall i :: p <= i < |es| ==> es[p].slot <= es[i].slot;
      assert p < |es| ==> slot < Slots(es)[p];
    }
  }

  lemma UpsertMembers(es: seq<Entry>, slot: int, v: Value, e: Entry)
    requires Sorted(es)
    ensures e in Upsert(es, slot, v) <==> e == Entry(slot, v) || (e in es && e.slot != slot)
  {
    var p := Position(Slots(es), slot);
    assert forall i :: 0 <= i < p ==> es[i].slot == Slots(es)[i] < slot;
    assert p < |es| ==> slot <= Slots(es)[p] == es[p].slot;
    assert forall i :: p < i < |es| ==> slot < es[i].slot;
    if p < |es| && es[p].slot == slot {
      ReplacedMembers(es, p, Entry(slot, v), e);
    } else {
      InsertedMembers(es, p, Entry(slot, v), e);
    }
  }

  lemma ReplacedMembers(es: seq<Entry>, p: nat, x: Entry, e: Entry)
    requires p < |es| && es[p].slot == x.slot
    requires forall i :: 0 <= i < |es| && i != p ==> es[i].slot != x.slot
    ensures e in es[p := x] <==> e == x || (e in es && e.slot != x.slot)
  {
    assert es[p := x][p] == x;
    if e in es && e.slot != x.slot {
      var i :| 0 <= i < |es| && es[i] == e;
      assert es[p := x][i] == e;
    }
  }

  lemma InsertedMembers(es: seq<Entry>, p: nat, x: Entry, e: Entry)
    requires p <= |es|
    requires forall i :: 0 <= i < |es| ==> es[i].slot != x.slot
    ensures e in InsertAt(es, p, x) <==> e == x || (e in es && e.slot != x.slot)
  {
    assert es == es[..p] + es[p..];
  }

  /** Upsert changes the value of its slot and of no other. */
  lemma UpsertLookup(es: seq<Entry>, slot: int, v: Value, other: int)
    requires Sorted(es)
    ensures Sorted(Upsert(es, slot, v))
    ensures Lookup(Upsert(es, slot, v), other) == if other == slot then Some(v) else Lookup(es, other)
  {
    UpsertSorted(es, slot, v);
    LookupIsMembership(es, other);
    LookupIsMembership(Upsert(es, slot, v), other);
    forall w ensures Entry(other, w) in Upsert(es, slot, v) <==>
                     (if other == slot then w == v else Entry(other, w) in es)
    {
      UpsertMembers(es, slot, v, Entry(other, w));
    }
    if other == slot {
      assert Entry(other, v) in Upsert(es, slot, v);
    }
  }

  ghost function KeysOf(es: seq<Entry>): set<int> {
    set e | e in es :: e.slot / 2
  }

  /** The keys a search finds, with their values. */
  ghost function Visible(es: seq<Entry>): map<int, Value> {
    map k | k in KeysOf(es) && Lookup(es, Primary(k)).Some? :: Lookup(es, Primary(k)).value
  }

  /** The second copies of separators, which no search reaches. */
  ghost function Shadowed(es: seq<Entry>): map<int, Value> {
    map k | k in KeysOf(es) && Lookup(es, Shadow(k)).Some? :: Lookup(es, Shadow(k)).value
  }

  function At(m: map<int, Value>, k: int): Option<Value> {
    if k in m then Some(m[k]) else None
  }

  lemma SameMap(m: map<int, Value>, m': map<int, Value>)
    requires forall k :: At(m, k) == At(m', k)
    ensures m == m'
  {
    forall k ensures k in m <==> k in m' {
      assert At(m, k) == At(m', k);
    }
    forall k | k in m ensures m[k] == m'[k] {
      assert At(m, k) == At(m', k);
    }
  }

  lemma VisibleAt(es: seq<Entry>, k: int)
    requires Sorted(es)
    ensures At(Visible(es), k) == Lookup(es, Primary(k))
  {
    LookupIsMembership(es, Primary(k));
    if Lookup(es, Primary(k)).Some? {
      assert Entry(Primary(k), Lookup(es, Primary(k)).value).slot / 2 == k;
    }
  }

  lemma ShadowedAt(es: seq<Entry>, k: int)
    requires Sorted(es)
    ensures At(Shadowed(es), k) == Lookup(es, Shadow(k))
  {
    LookupIsMembership(es, Shadow(k));
    if Lookup(es, Shadow(k)).Some? {
      assert Entry(Shadow(k), Lookup(es, Shadow(k)).value).slot / 2 == k;
    }
  }

  /** What an upsert does to both maps, key by key. */
  lemma UpsertAt(es: seq<Entry>, slot: int, v: Value, k: int)
    requires Sorted(es)
    ensures At(Visible(Upsert(es, slot, v)), k) == if slot == Primary(k) then Some(v) else At(Visible(es), k)
    ensures At(Shadowed(Upsert(es, slot, v)), k) == if slot == Shadow(k) then Some(v) else At(Shadowed(es), k)
  {
    UpsertSorted(es, slot, v);
    VisibleAt(es, k);
    VisibleAt(Upsert(es, slot, v), k);
    UpsertLookup(es, slot, v, Primary(k));
    ShadowedAt(es, k);
    ShadowedAt(Upsert(es, slot, v), k);
    UpsertLookup(es, slot, v, Shadow(k));
  }

  lemma UpsertPrimary(es: seq<Entry>, k: int, v: Value)
    requires Sorted(es)
    ensures Visible(Upsert(es, Primary(k), v)) == Visible(es)[k := v]
    ensures Shadowed(Upsert(es, Primary(k), v)) == Shadowed(es)
  {
    hide Visible, Shadowed, Upsert, Lookup;
    var es' := Upsert(es, Primary(k), v);
    forall x
      ensures At(Visible(es'), x) == At(Visible(es)[k := v], x)
      ensures At(Shadowed(es'), x) == At(Shadowed(es), x)
    {
      UpsertAt(es, Primary(k), v, x);
    }
    SameMap(Visible(es'), Visible(es)[k := v]);
    SameMap(Shadowed(es'), Shadowed(es));
  }

  lemma UpsertShadow(es: seq<Entry>, k: int, v: Value)
    requires Sorted(es)
    ensures Visible(Upsert(es, Shadow(k), v)) == Visible(es)
    ensures Shadowed(Upsert(es, Shadow(k), v)) == Shadowed(es)[k := v]
  {
    hide Visible, Shadowed, Upsert, Lookup;
    var es' := Upsert(es, Shadow(k), v);
    forall x
      ensures At(Visible(es'), x) == At(Visible(es), x)
      ensures At(Shadowed(es'), x) == At(Shadowed(es)[k := v], x)
    {
      UpsertAt(es, Shadow(k), v, x);
    }
    SameMap(Visible(es'), Visible(es));
    SameMap(Shadowed(es'), Shadowed(es)[k := v]);
  }
}
