// The B+Tree as a finite map: one insertion at the root, and whole runs of insertions.
module TreeTheorems {
  import opened Sequences
  import opened TreeModel
  import opened TreeContents
  import opened TreeSearch
  import opened TreeBalance
  import opened TreePages
  import opened TreeScan

  /** Everything that holds of the whole tree between two insertions. */
  ghost predicate Sound(t: Tree, h: nat, np: PageId) {
    && Shaped(t, h, None, None)
    && Sized(t)
    && Occupied(t, true)
    && Distinct(t) && Below(PagesOf(t), np)
    && Chained(t, 0)
  }

  // ----- separators -----

  lemma SeparatorVisibleHere(t: Tree, h: nat, lo: Bound, hi: Bound, k: int)
    requires t.Inner? && Shaped(t, h, lo, hi) && Sized(t) && Holds(t.keys, k)
    ensures exists v :: Entry(Primary(k), v) in Entries(t, hi)
  {
    var i, ps := Position(t.keys, k) + 1, Parts(t, hi);
    ChildIsShaped(t, h, lo, hi, i);
    EntriesSorted(t.children[i], h - 1, LowOf(t.keys, i, lo), HighOf(t.keys, i, hi));
    var e: Entry := ps[i][0];
    assert e == Entry(Primary(k), e.value) && e in ps[i];
    InJoin(ps, e);
  }

  /** A key that separates children somewhere on its path is in the tree. */
  lemma {:induction false} SeparatorVisible(t: Tree, h: nat, lo: Bound, hi: Bound, k: int)
    requires Shaped(t, h, lo, hi) && Sized(t) && Separates(t, k)
    ensures exists v :: Entry(Primary(k), v) in Entries(t, hi)
    decreases h
  {
    if Holds(t.keys, k) {
      SeparatorVisibleHere(t, h, lo, hi, k);
    } else {
      var i, ps := Position(t.keys, k), Parts(t, hi);
      ChildIsShaped(t, h, lo, hi, i);
      SeparatorVisible(t.children[i], h - 1, LowOf(t.keys, i, lo), HighOf(t.keys, i, hi), k);
      var v :| Entry(Primary(k), v) in Entries(t.children[i], HighOf(t.keys, i, hi));
      assert Entry(Primary(k), v) in ps[i];
      InJoin(ps, Entry(Primary(k), v));
    }
  }

  // ----- the root -----

  lemma NewRootShaped(l: Tree, s: Key, r: Tree, np: PageId, h: nat)
    requires Shaped(l, h, None, Some(s)) && Shaped(r, h, Some(s), None)
    ensures Shaped(Inner(np, [s], [l, r]), h + 1, None, None)
  {
    var t := Inner(np, [s], [l, r]);
    assert ChildShaped(t, h + 1, None, None, 0);
    assert ChildShaped(t, h + 1, None, None, 1);
    InnerShaped(t, h + 1, None, None);
  }

  lemma NewRootEntries(l: Tree, s: Key, r: Tree, np: PageId)
    requires Sized(l) && Sized(r)
    ensures Sized(Inner(np, [s], [l, r]))
    ensures Entries(Inner(np, [s], [l, r]), None) == Entries(l, Some(s)) + Entries(r, None)
  {
    var t := Inner(np, [s], [l, r]);
    assert Parts(t, None) == [Entries(l, Some(s)), Entries(r, None)];
    assert Parts(t, None)[1..] == [Entries(r, None)];
    assert Join([Entries(r, None)]) == Entries(r, None) + Join([]);
  }

  lemma NewRootPages(l: Tree, s: Key, r: Tree, np: PageId, e: PageId)
    requires Sized(l) && Sized(r)
    requires Distinct(l) && Distinct(r) && PagesOf(l) !! PagesOf(r) && Below(PagesOf(l) + PagesOf(r), np)
    requires Chained(l, FirstPage(r)) && Chained(r, e)
    ensures Distinct(Inner(np, [s], [l, r])) && Below(PagesOf(Inner(np, [s], [l, r])), np + 1)
    ensures Sized(Inner(np, [s], [l, r])) && Chained(Inner(np, [s], [l, r]), e)
  {
    var t := Inner(np, [s], [l, r]);
    assert t.children[0] == l && t.children[1] == r;
    forall i | 0 <= i < |t.children| ensures Chained(t.children[i], Following(t.children, i, e)) {
    }
  }

  ghost predicate SoundResult(r: Inserted, h: nat, np: PageId) {
    && ShapedResult(r, h, None, None)
    && ResultSized(r)
    && OccupiedResult(r, true)
    && ResultDistinct(r) && Below(ResultPages(r), r.np)
    && exists first :: ResultChained(r, first, 0)
  }

  lemma RootedSound(r: Inserted, h: nat, np: PageId)
    requires SoundResult(r, h, np)
    ensures Sound(Rooted(r).0, if r.Kept? then h else h + 1, Rooted(r).1)
    ensures Entries(Rooted(r).0, None) == ResultEntries(r, None)
  {
    match r
    case Kept(_, _) =>
    case Split(l, s, r, np') =>
      NewRootShaped(l, s, r, np', h);
      NewRootEntries(l, s, r, np');
      NewRootPages(l, s, r, np', 0);
  }

  lemma InsertSound(t: Tree, h: nat, k: Key, v: Value, np: PageId)
    requires Sound(t, h, np)
    ensures SoundResult(InsertBelow(t, k, v, np), h, np)
  {
    InsertShaped(t, h, None, None, k, v, np);
    ResultIsSized(InsertBelow(t, k, v, np), h, None, None);
    InsertOccupied(t, true, k, v, np);
    InsertDistinct(t, k, v, np);
    InsertChained(t, k, v, np, 0);
  }

  /** A root insertion keeps the tree sound, one level higher at most, and upserts one slot. */
  lemma InsertRootSound(t: Tree, h: nat, k: Key, v: Value, np: PageId) returns (h': nat)
    requires Sound(t, h, np)
    ensures h' == h || h' == h + 1
    ensures Sound(InsertRoot(t, k, v, np).0, h', InsertRoot(t, k, v, np).1)
    ensures Entries(InsertRoot(t, k, v, np).0, None) == Upsert(Entries(t, None), Target(t, k, None), v)
  {
    var r := InsertBelow(t, k, v, np);
    h' := if r.Kept? then h else h + 1;
    InsertEntries(t, h, None, None, k, v, np);
    InsertSound(t, h, k, v, np);
    RootedSound(r, h, np);
  }

  ghost function MapOf(t: Tree): map<int, Value>
    requires Sized(t)
  {
    Visible(Entries(t, None))
  }

  ghost function ShadowsOf(t: Tree): map<int, Value>
    requires Sized(t)
  {
    Shadowed(Entries(t, None))
  }

  /** Search returns exactly the map's entry, or not-found. */
  lemma FindIsMap(t: Tree, h: nat, np: PageId, k: Key)
    requires Sound(t, h, np)
    ensures Find(t, k) == At(MapOf(t), k)
  {
    FindIsLookup(t, h, None, None, k);
    EntriesSorted(t, h, None, None);
    VisibleAt(Entries(t, None), k);
  }

  /** A fresh key is no separator. */
  lemma SeparatorInMap(t: Tree, h: nat, np: PageId, k: Key)
    requires Sound(t, h, np) && Separates(t, k)
    ensures k in MapOf(t)
  {
    SeparatorVisible(t, h, None, None, k);
    var v :| Entry(Primary(k), v) in Entries(t, None);
    EntriesSorted(t, h, None, None);
    LookupIsMembership(Entries(t, None), Primary(k));
    VisibleAt(Entries(t, None), k);
  }

  /** Insertion is a map update, except that a separator's new value goes where no search sees it. */
  lemma InsertUpdates(t: Tree, h: nat, k: Key, v: Value, np: PageId)
    requires Sound(t, h, np)
    ensures Sized(InsertRoot(t, k, v, np).0)
    ensures var t' := InsertRoot(t, k, v, np).0;
            if Separates(t, k)
            then MapOf(t') == MapOf(t) && ShadowsOf(t') == ShadowsOf(t)[k := v]
            else MapOf(t') == MapOf(t)[k := v] && ShadowsOf(t') == ShadowsOf(t)
  {
    var h' := InsertRootSound(t, h, k, v, np);
    EntriesSorted(t, h, None, None);
    if Separates(t, k) {
      UpsertShadow(Entries(t, None), k, v);
    } else {
      UpsertPrimary(Entries(t, None), k, v);
    }
  }

  /** Exactly when an insertion can be read back: the key is no separator, or had that value already. */
  lemma ReadBackExactly(t: Tree, h: nat, k: Key, v: Value, np: PageId)
    requires Sound(t, h, np)
    ensures Sized(InsertRoot(t, k, v, np).0)
    ensures Find(InsertRoot(t, k, v, np).0, k) == Some(v) <==> !Separates(t, k) || Find(t, k) == Some(v)
  {
    InsertUpdates(t, h, k, v, np);
    var h' := InsertRootSound(t, h, k, v, np);
    FindIsMap(t, h, np, k);
    FindIsMap(InsertRoot(t, k, v, np).0, h', InsertRoot(t, k, v, np).1, k);
  }

  /** A tree of 200 keys or more has a key whose new values no search ever sees. */
  lemma SomeUpdateUnseen(t: Tree, h: nat, np: PageId) returns (k: Key)
    requires Sound(t, h, np) && |MapOf(t)| >= MAX_KEYS
    ensures k in MapOf(t) && Separates(t, k)
    ensures forall v :: Sized(InsertRoot(t, k, v, np).0) && Find(InsertRoot(t, k, v, np).0, k) == Some(MapOf(t)[k])
  {
    if t.Leaf? {
      LeafHasFewKeys(t);
    }
    k := t.keys[0];
    SeparatorInMap(t, h, np, k);
    forall v ensures Sized(InsertRoot(t, k, v, np).0) && Find(InsertRoot(t, k, v, np).0, k) == Some(MapOf(t)[k]) {
      InsertUpdates(t, h, k, v, np);
      var h' := InsertRootSound(t, h, k, v, np);
      FindIsMap(InsertRoot(t, k, v, np).0, h', InsertRoot(t, k, v, np).1, k);
    }
  }

  lemma LeafHasFewKeys(t: Tree)
    requires t.Leaf? && Sized(t) && Occupied(t, true)
    ensures |MapOf(t)| < MAX_KEYS
  {
    var es := Entries(t, None);
    FewKeys(es);
    Subset(MapOf(t).Keys, KeysOf(es));
  }

  lemma {:induction false} FewKeys(es: seq<Entry>)
    ensures |KeysOf(es)| <= |es|
  {
    if es != [] {
      var front, last := es[..|es| - 1], es[|es| - 1];
      FewKeys(front);
      assert es == front + [last];
      assert KeysOf(es) == KeysOf(front) + {last.slot / 2};
    }
  }

  lemma {:induction false} Subset(a: set<int>, b: set<int>)
    requires a <= b
    ensures |a| <= |b|
  {
    assert b == a + (b - a);
  }

  // ----- runs -----

  type Op = (Key, Value)

  ghost function HeightOf(t: Tree): nat {
    if t.Leaf? || t.children == [] then 0 else 1 + HeightOf(t.children[0])
  }

  lemma {:induction false} HeightIs(t: Tree, h: nat, lo: Bound, hi: Bound)
    requires Shaped(t, h, lo, hi)
    ensures HeightOf(t) == h
    decreases h
  {
    if t.Inner? {
      ChildIsShaped(t, h, lo, hi, 0);
      HeightIs(t.children[0], h - 1, LowOf(t.keys, 0, lo), HighOf(t.keys, 0, hi));
    }
  }

  /** The tree after a run of insertions into a new tree whose root leaf has page first. */
  ghost function Run(ops: seq<Op>, first: PageId): (r: (Tree, PageId))
    requires first != 0
    ensures Sound(r.0, HeightOf(r.0), r.1)
  {
    if ops == [] then (Leaf(first, [], [], 0), first + 1)
    else
      var (t, np) := Run(ops[..|ops| - 1], first);
      var (k, v) := ops[|ops| - 1];
      RunStep(t, k, v, np);
      InsertRoot(t, k, v, np)
  }

  lemma RunStep(t: Tree, k: Key, v: Value, np: PageId)
    requires Sound(t, HeightOf(t), np)
    ensures Sound(InsertRoot(t, k, v, np).0, HeightOf(InsertRoot(t, k, v, np).0), InsertRoot(t, k, v, np).1)
  {
    var h' := InsertRootSound(t, HeightOf(t), k, v, np);
    HeightIs(InsertRoot(t, k, v, np).0, h', None, None);
  }

  /** The map a run of insertions ought to leave. */
  function Replay(ops: seq<Op>): map<int, Value> {
    if ops == [] then map[] else Replay(ops[..|ops| - 1])[ops[|ops| - 1].0 := ops[|ops| - 1].1]
  }

  /** No key of the run separates two children when its turn comes. */
  ghost predicate NeverSeparator(ops: seq<Op>, first: PageId)
    requires first != 0
  {
    ops != [] ==>
      && NeverSeparator(ops[..|ops| - 1], first)
      && !Separates(Run(ops[..|ops| - 1], first).0, ops[|ops| - 1].0)
  }

  lemma EmptyTree(first: PageId)
    ensures MapOf(Leaf(first, [], [], 0)) == map[] && ShadowsOf(Leaf(first, [], [], 0)) == map[]
  {
  }

  /** Over every such run the tree is the map, with no second copies. */
  lemma {:induction false} RunIsReplay(ops: seq<Op>, first: PageId)
    requires first != 0 && NeverSeparator(ops, first)
    ensures MapOf(Run(ops, first).0) == Replay(ops)
    ensures ShadowsOf(Run(ops, first).0) == map[]
  {
    if ops == [] {
      EmptyTree(first);
    } else {
      var before := Run(ops[..|ops| - 1], first);
      RunIsReplay(ops[..|ops| - 1], first);
      InsertUpdates(before.0, HeightOf(before.0), ops[|ops| - 1].0, ops[|ops| - 1].1, before.1);
    }
  }

  /** Over any run at all, the keys found are exactly the keys inserted. */
  lemma {:induction false} RunKeepsKeys(ops: seq<Op>, first: PageId)
    requires first != 0
    ensures MapOf(Run(ops, first).0).Keys == Replay(ops).Keys
  {
    if ops == [] {
      EmptyTree(first);
    } else {
      var before, k := Run(ops[..|ops| - 1], first), ops[|ops| - 1].0;
      RunKeepsKeys(ops[..|ops| - 1], first);
      InsertUpdates(before.0, HeightOf(before.0), k, ops[|ops| - 1].1, before.1);
      if Separates(before.0, k) {
        SeparatorInMap(before.0, HeightOf(before.0), before.1, k);
      }
    }
  }

  lemma {:induction false} ReplayKeys(ops: seq<Op>, k: int)
    ensures k in Replay(ops) <==> exists i :: 0 <= i < |ops| && ops[i].0 == k
  {
    if ops != [] {
      ReplayKeys(ops[..|ops| - 1], k);
      if i :| 0 <= i < |ops| && ops[i].0 == k {
        assert i < |ops| - 1 ==> ops[..|ops| - 1][i].0 == k;
      }
      if k in Replay(ops[..|ops| - 1]) {
        var i :| 0 <= i < |ops| - 1 && ops[..|ops| - 1][i].0 == k;
        assert ops[i].0 == k;
      }
    }
  }

  /** A run of pairwise different keys never meets a separator, so it is always the map. */
  lemma {:induction false} FreshKeysNeverSeparate(ops: seq<Op>, first: PageId)
    requires first != 0
    requires forall i, j :: 0 <= i < j < |ops| ==> ops[i].0 != ops[j].0
    ensures NeverSeparator(ops, first)
  {
    if ops != [] {
      var front, k := ops[..|ops| - 1], ops[|ops| - 1].0;
      var before := Run(front, first);
      FreshKeysNeverSeparate(front, first);
      if Separates(before.0, k) {
        SeparatorInMap(before.0, HeightOf(before.0), before.1, k);
        RunKeepsKeys(front, first);
        ReplayKeys(front, k);
      }
    }
  }

  lemma {:induction false} DistinctKeysCount(ops: seq<Op>)
    requires forall i, j :: 0 <= i < j < |ops| ==> ops[i].0 != ops[j].0
    ensures |Replay(ops)| == |ops|
  {
    if ops != [] {
      var front, k := ops[..|ops| - 1], ops[|ops| - 1].0;
      DistinctKeysCount(front);
      ReplayKeys(front, k);
      assert Replay(ops).Keys == Replay(front).Keys + {k};
    }
  }

  /**
   200 insertions of different keys are enough: one of those keys then keeps its value whatever is inserted for it.
   */
  lemma LongRunHasUnseenUpdate(ops: seq<Op>, first: PageId) returns (k: Key)
    requires first != 0 && |ops| >= MAX_KEYS
    requires forall i, j :: 0 <= i < j < |ops| ==> ops[i].0 != ops[j].0
    ensures k in Replay(ops)
    ensures forall v :: Find(Run(ops + [(k, v)], first).0, k) == Some(Replay(ops)[k])
  {
    hide Sound, Find, InsertRoot, Separates, NeverSeparator;
    var (t, np) := Run(ops, first);
    FreshKeysNeverSeparate(ops, first);
    RunIsReplay(ops, first);
    DistinctKeysCount(ops);
    k := SomeUpdateUnseen(t, HeightOf(t), np);
    forall v ensures Find(Run(ops + [(k, v)], first).0, k) == Some(Replay(ops)[k]) {
      var longer := ops + [(k, v)];
      assert longer[..|longer| - 1] == ops;
    }
  }

  // ----- scans -----

  ghost function RangeKeys(es: seq<Entry>, a: int, b: int): seq<int> {
    if es == [] then []
    else
      var last := es[|es| - 1];
      RangeKeys(es[..|es| - 1], a, b) + if a <= last.slot / 2 <= b then [last.slot / 2] else []
  }

  lemma {:induction false} RangeKeysAscend(es: seq<Entry>, a: int, b: int)
    requires Sorted(es) && forall e :: e in es ==> e.slot % 2 == 1
    ensures Ascending(RangeKeys(es, a, b))
    ensures forall k :: k in RangeKeys(es, a, b) ==> es != [] && Primary(k) <= es[|es| - 1].slot
  {
    if es != [] {
      var front, last := es[..|es| - 1], es[|es| - 1];
      assert forall e :: e in front ==> e in es;
      RangeKeysAscend(front, a, b);
      assert last in es && last.slot == Primary(last.slot / 2);
      var ks := RangeKeys(front, a, b);
      forall k | k in ks ensures k < last.slot / 2 {
        assert Primary(k) <= front[|front| - 1].slot < last.slot;
      }
      assert forall i :: 0 <= i < |ks| ==> ks[i] in ks;
      assert RangeKeys(es, a, b) == ks || RangeKeys(es, a, b) == ks + [last.slot / 2];
      assert forall k :: k in RangeKeys(es, a, b) ==> k in ks || k == last.slot / 2;
    }
  }

  lemma {:induction false} RangeKeysMembers(es: seq<Entry>, a: int, b: int)
    requires forall e :: e in es ==> e.slot % 2 == 1
    ensures forall k :: k in RangeKeys(es, a, b) <==> a <= k <= b && exists e :: e in es && e.slot == Primary(k)
  {
    if es != [] {
      var front, last := es[..|es| - 1], es[|es| - 1];
      assert es == front + [last];
      RangeKeysMembers(front, a, b);
      assert last.slot == Primary(last.slot / 2);
      forall k ensures k in RangeKeys(es, a, b) <==> a <= k <= b && exists e :: e in es && e.slot == Primary(k) {
        if k == last.slot / 2 {
          assert last in es;
        } else if e :| e in es && e.slot == Primary(k) {
          assert e in front;
        }
      }
    }
  }

  lemma {:induction false} RangeKeysValues(es: seq<Entry>, a: int, b: int)
    requires forall e :: e in es ==> e.slot % 2 == 1
    ensures |RangeKeys(es, a, b)| == |Range(es, a, b)|
    ensures forall i :: 0 <= i < |Range(es, a, b)| ==> Entry(Primary(RangeKeys(es, a, b)[i]), Range(es, a, b)[i]) in es
  {
    if es != [] {
      var front, last := es[..|es| - 1], es[|es| - 1];
      assert es == front + [last];
      RangeKeysValues(front, a, b);
      assert last == Entry(Primary(last.slot / 2), last.value);
    }
  }

  lemma EvenIsShadow(es: seq<Entry>, e: Entry)
    requires Sorted(es) && e in es && e.slot % 2 == 0
    ensures e.slot / 2 in Shadowed(es)
  {
    assert e == Entry(Shadow(e.slot / 2), e.value);
    LookupIsMembership(es, Shadow(e.slot / 2));
    ShadowedAt(es, e.slot / 2);
  }

  /** The entries that are no second copies. */
  ghost function Primaries(es: seq<Entry>): seq<Entry> {
    if es == [] then []
    else
      var last := es[|es| - 1];
      Primaries(es[..|es| - 1]) + if last.slot % 2 == 1 then [last] else []
  }

  lemma {:induction false} PrimariesAre(es: seq<Entry>)
    requires Sorted(es)
    ensures Sorted(Primaries(es)) && forall e :: e in Primaries(es) <==> e in es && e.slot % 2 == 1
  {
    if es != [] {
      var front, last := es[..|es| - 1], es[|es| - 1];
      assert es == front + [last];
      PrimariesAre(front);
      var ps := Primaries(front);
      forall i | 0 <= i < |ps| ensures ps[i].slot < last.slot {
        assert ps[i] in front;
      }
    }
  }

  /** Some entry from a to b is a second copy. */
  ghost predicate CopyWithin(es: seq<Entry>, a: int, b: int) {
    exists e :: e in es && e.slot % 2 == 0 && a <= e.slot / 2 <= b
  }

  lemma CopyAtLast(front: seq<Entry>, last: Entry, a: int, b: int)
    ensures CopyWithin(front + [last], a, b) <==>
            CopyWithin(front, a, b) || (last.slot % 2 == 0 && a <= last.slot / 2 <= b)
  {
    assert last in front + [last] && forall e :: e in front + [last] <==> e in front || e == last;
  }

  lemma {:induction false} PrimariesRange(es: seq<Entry>, a: int, b: int)
    ensures |Range(Primaries(es), a, b)| <= |Range(es, a, b)|
    ensures |Range(Primaries(es), a, b)| == |Range(es, a, b)| <==> !CopyWithin(es, a, b)
    ensures !CopyWithin(es, a, b) ==> Range(Primaries(es), a, b) == Range(es, a, b)
  {
    if es != [] {
      var front, last := es[..|es| - 1], es[|es| - 1];
      assert es == front + [last];
      PrimariesRange(front, a, b);
      CopyAtLast(front, last, a, b);
      PrimariesLast(front, last);
    }
  }

  lemma PrimariesLast(front: seq<Entry>, last: Entry)
    ensures Primaries(front + [last]) == if last.slot % 2 == 1 then Primaries(front) + [last] else Primaries(front)
    ensures forall a, b :: Range(Primaries(front) + [last], a, b) ==
                           Range(Primaries(front), a, b) + if a <= last.slot / 2 <= b then [last.value] else []
  {
    assert (front + [last])[..|front|] == front;
    var ps := Primaries(front);
    assert (ps + [last])[..|ps|] == ps;
  }

  lemma PrimariesVisible(es: seq<Entry>)
    requires Sorted(es)
    ensures Visible(Primaries(es)) == Visible(es)
  {
    hide Visible, Primaries, Sorted;
    PrimariesAre(es);
    forall k ensures k in Visible(es) <==> k in Visible(Primaries(es))
             ensures k in Visible(es) ==> Visible(es)[k] == Visible(Primaries(es))[k]
    {
      PrimaryIsVisible(es, k);
      PrimaryIsVisible(Primaries(es), k);
    }
  }

  lemma BothEmpty(x: seq<int>, y: seq<int>)
    requires forall k :: k in x <==> k in y
    ensures x == [] <==> y == []
  {
    if x != [] {
      var k := x[0];
      assert k in x;
    }
    if y != [] {
      var k := y[0];
      assert k in y;
    }
  }

  lemma {:induction false} SameAscending(x: seq<int>, y: seq<int>)
    requires Ascending(x) && Ascending(y)
    requires forall k :: k in x <==> k in y
    ensures x == y
  {
    BothEmpty(x, y);
    if x != [] {
      var a, b := x[|x| - 1], y[|y| - 1];
      var x', y' := x[..|x| - 1], y[..|y| - 1];
      assert a in y && b in x;
      LastIsGreatest(x, b);
      LastIsGreatest(y, a);
      DropLast(x);
      DropLast(y);
      forall k ensures k in x' <==> k in y' {
        assert (k in x' <==> k in x && k != a) && (k in y' <==> k in y && k != b);
      }
      SameAscending(x', y');
      assert x == x' + [a] && y == y' + [b];
    }
  }

  lemma LastIsGreatest(x: seq<int>, k: int)
    requires Ascending(x) && k in x
    ensures k <= x[|x| - 1]
  {
  }

  lemma DropLast(x: seq<int>)
    requires Ascending(x) && x != []
    ensures var x' := x[..|x| - 1];
            Ascending(x') && forall k :: k in x' <==> k in x && k != x[|x| - 1]
  {
    assert x == x[..|x| - 1] + [x[|x| - 1]];
  }

  /** values are those of m for the keys of m in [a, b], in ascending key order. */
  ghost predicate IsSortedRange(values: seq<Value>, m: map<int, Value>, a: int, b: int) {
    exists keys: seq<int> ::
      && Ascending(keys) && |keys| == |values|
      && (forall k :: k in keys <==> k in m && a <= k <= b)
      && (forall i :: 0 <= i < |keys| ==> keys[i] in m && m[keys[i]] == values[i])
  }

  /** There is only one such list, so the predicate determines a scan's result. */
  lemma SortedRangeIsUnique(x: seq<Value>, y: seq<Value>, m: map<int, Value>, a: int, b: int)
    requires IsSortedRange(x, m, a, b) && IsSortedRange(y, m, a, b)
    ensures x == y
  {
    var ks: seq<int> :|
      && Ascending(ks) && |ks| == |x|
      && (forall k :: k in ks <==> k in m && a <= k <= b)
      && (forall i :: 0 <= i < |ks| ==> ks[i] in m && m[ks[i]] == x[i]);
    var ls: seq<int> :|
      && Ascending(ls) && |ls| == |y|
      && (forall k :: k in ls <==> k in m && a <= k <= b)
      && (forall i :: 0 <= i < |ls| ==> ls[i] in m && m[ls[i]] == y[i]);
    SameAscending(ks, ls);
  }

  lemma PrimaryIsVisible(es: seq<Entry>, k: int)
    requires Sorted(es)
    ensures k in Visible(es) <==> exists e :: e in es && e.slot == Primary(k)
    ensures forall v :: Entry(Primary(k), v) in es ==> k in Visible(es) && Visible(es)[k] == v
  {
    VisibleAt(es, k);
    LookupIsMembership(es, Primary(k));
    if e :| e in es && e.slot == Primary(k) {
      assert e == Entry(Primary(k), e.value);
    }
    if k in Visible(es) {
      assert Entry(Primary(k), Visible(es)[k]) in es;
    }
  }

  lemma EntriesRange(es: seq<Entry>, a: int, b: int)
    requires Sorted(es) && forall e :: e in es ==> e.slot % 2 == 1
    ensures IsSortedRange(Range(es, a, b), Visible(es), a, b)
  {
    var keys, m, values := RangeKeys(es, a, b), Visible(es), Range(es, a, b);
    RangeKeysAscend(es, a, b);
    RangeKeysMembers(es, a, b);
    RangeKeysValues(es, a, b);
    forall k ensures k in keys <==> k in m && a <= k <= b {
      PrimaryIsVisible(es, k);
    }
    forall i | 0 <= i < |keys| ensures keys[i] in m && m[keys[i]] == values[i] {
      PrimaryIsVisible(es, keys[i]);
    }
  }

  /** What a scan reads is the map's values in key order exactly if no second copy lies in the range. */
  lemma EntriesRangeIff(es: seq<Entry>, a: int, b: int)
    requires Sorted(es)
    ensures IsSortedRange(Range(es, a, b), Visible(es), a, b) <==> !CopyWithin(es, a, b)
  {
    hide Sorted, Visible, Range, Primaries, CopyWithin, IsSortedRange;
    PrimariesAre(es);
    PrimariesVisible(es);
    PrimariesRange(es, a, b);
    EntriesRange(Primaries(es), a, b);
    if IsSortedRange(Range(es, a, b), Visible(es), a, b) {
      SortedRangeIsUnique(Range(es, a, b), Range(Primaries(es), a, b), Visible(es), a, b);
    }
  }

  ghost predicate NoKeyWithin(m: map<int, Value>, a: int, b: int) {
    forall k :: k in m ==> !(a <= k <= b)
  }

  lemma CopiesAreShadows(es: seq<Entry>, a: int, b: int)
    requires Sorted(es)
    ensures CopyWithin(es, a, b) <==> !NoKeyWithin(Shadowed(es), a, b)
  {
    hide Shadowed, Sorted;
    if CopyWithin(es, a, b) {
      var e :| e in es && e.slot % 2 == 0 && a <= e.slot / 2 <= b;
      EvenIsShadow(es, e);
    }
    if k :| k in Shadowed(es) && a <= k <= b {
      ShadowedAt(es, k);
      LookupIsMembership(es, Shadow(k));
      assert Entry(Shadow(k), Shadowed(es)[k]) in es;
    }
  }

  /** A scan returns the map's values in key order exactly if no key in its range has a second copy. */
  lemma ScanIsSortedRange(t: Tree, h: nat, np: PageId, a: int, b: int)
    requires Sound(t, h, np)
    ensures LeafList(Leaves(t))
    ensures IsSortedRange(LeavesRange(Leaves(t), a, b), MapOf(t), a, b) <==> NoKeyWithin(ShadowsOf(t), a, b)
  {
    hide IsSortedRange, NoKeyWithin, CopyWithin;
    LeavesRangeIsRange(t, None, a, b);
    EntriesSorted(t, h, None, None);
    EntriesRangeIff(Entries(t, None), a, b);
    CopiesAreShadows(Entries(t, None), a, b);
  }
}
