// Range scans: the leaf a scan starts at, the chain it walks, and what it collects.
module TreeScan {
  import opened Sequences
  import opened TreeModel
  import opened TreeContents
  import opened TreePages

  function LeafParts(t: Tree): (ps: seq<seq<Tree>>)
    requires t.Inner? && Sized(t)
    ensures |ps| == |t.children|
    ensures forall i :: 0 <= i < |ps| ==> ps[i] == Leaves(t.children[i])
    decreases t, 0
  {
    seq(|t.children|, i requires 0 <= i < |t.children| => Leaves(t.children[i]))
  }

  /** The leaves of t from left to right. */
  function Leaves(t: Tree): (ls: seq<Tree>)
    requires Sized(t)
    decreases t, 1
  {
    if t.Leaf? then [t] else Join(LeafParts(t))
  }

  ghost predicate LeafList(ls: seq<Tree>) {
    forall i :: 0 <= i < |ls| ==> ls[i].Leaf? && |ls[i].keys| == |ls[i].values|
  }

  lemma {:induction false} JoinLeafList(ps: seq<seq<Tree>>)
    requires forall i :: 0 <= i < |ps| ==> LeafList(ps[i]) && ps[i] != []
    ensures LeafList(Join(ps)) && |Join(ps)| >= |ps|
    ensures ps != [] ==> Join(ps)[0] == ps[0][0]
  {
    if ps != [] {
      JoinLeafList(ps[1..]);
    }
  }

  lemma {:induction false} LeavesAreLeaves(t: Tree)
    requires Sized(t)
    ensures LeafList(Leaves(t)) && Leaves(t) != [] && Leaves(t)[0].page == FirstPage(t)
  {
    if t.Inner? {
      var ps: seq<seq<Tree>> := LeafParts(t);
      forall i | 0 <= i < |ps| ensures LeafList(ps[i]) && ps[i] != [] && ps[i][0].page == FirstPage(t.children[i]) {
        LeavesAreLeaves(t.children[i]);
      }
      JoinLeafList(ps);
    }
  }

  // ----- the chain lists the leaves -----

  function PageAfter(ls: seq<Tree>, i: nat, e: PageId): PageId
    requires i < |ls|
  {
    if i + 1 < |ls| then ls[i + 1].page else e
  }

  /** Following next pointers from any leaf visits all later leaves in order, and then page e. */
  ghost predicate Linked(ls: seq<Tree>, e: PageId)
    requires LeafList(ls)
  {
    forall i :: 0 <= i < |ls| ==> ls[i].next == PageAfter(ls, i, e)
  }

  lemma LinkedAppend(a: seq<Tree>, b: seq<Tree>, e: PageId)
    requires LeafList(a) && LeafList(b) && b != []
    requires Linked(a, b[0].page) && Linked(b, e)
    ensures LeafList(a + b) && Linked(a + b, e)
  {
    var c := a + b;
    forall i | 0 <= i < |c| ensures c[i].Leaf? && |c[i].keys| == |c[i].values| {
      assert c[i] == if i < |a| then a[i] else b[i - |a|];
    }
    forall i | 0 <= i < |c| ensures c[i].next == PageAfter(c, i, e) {
      if i < |a| {
        assert c[i] == a[i] && a[i].next == PageAfter(a, i, b[0].page);
      } else {
        assert c[i] == b[i - |a|] && b[i - |a|].next == PageAfter(b, i - |a|, e);
      }
    }
  }

  function PartAfter(ps: seq<seq<Tree>>, i: nat, e: PageId): PageId
    requires i < |ps| && forall j :: 0 <= j < |ps| ==> ps[j] != []
  {
    if i + 1 < |ps| then ps[i + 1][0].page else e
  }

  ghost predicate PartsLinked(ps: seq<seq<Tree>>, e: PageId) {
    && (forall i :: 0 <= i < |ps| ==> LeafList(ps[i]) && ps[i] != [])
    && (forall i :: 0 <= i < |ps| ==> Linked(ps[i], PartAfter(ps, i, e)))
  }

  lemma {:induction false} JoinLinked(ps: seq<seq<Tree>>, e: PageId)
    requires PartsLinked(ps, e)
    ensures LeafList(Join(ps)) && Linked(Join(ps), e)
  {
    JoinLeafList(ps);
    if |ps| == 1 {
      assert Join(ps) == ps[0] + Join(ps[1..]) == ps[0];
      assert Linked(ps[0], PartAfter(ps, 0, e));
    } else if |ps| > 1 {
      assert PartsLinked(ps[1..], e) by {
        forall i | 0 <= i < |ps[1..]| ensures Linked(ps[1..][i], PartAfter(ps[1..], i, e)) {
          assert Linked(ps[i + 1], PartAfter(ps, i + 1, e));
        }
      }
      JoinLeafList(ps[1..]);
      JoinLinked(ps[1..], e);
      assert Linked(ps[0], PartAfter(ps, 0, e));
      LinkedAppend(ps[0], Join(ps[1..]), e);
    }
  }

  lemma {:induction false} ChainListsLeaves(t: Tree, e: PageId)
    requires Sized(t) && Chained(t, e)
    ensures LeafList(Leaves(t)) && Linked(Leaves(t), e)
  {
    LeavesAreLeaves(t);
    if t.Inner? {
      var ps: seq<seq<Tree>> := LeafParts(t);
      forall i | 0 <= i < |ps|
        ensures LeafList(ps[i]) && ps[i] != [] && ps[i][0].page == FirstPage(t.children[i])
      {
        LeavesAreLeaves(t.children[i]);
      }
      forall i | 0 <= i < |ps| ensures Linked(ps[i], PartAfter(ps, i, e)) {
        assert Chained(t.children[i], Following(t.children, i, e));
        ChainListsLeaves(t.children[i], Following(t.children, i, e));
      }
      JoinLinked(ps, e);
    }
  }

  // ----- where a scan starts -----

  /** The leaf that a descent going left at equal separators reaches. */
  function LeafFor(t: Tree, k: int): Tree
    requires Sized(t)
  {
    if t.Leaf? then t else LeafFor(t.children[Position(t.keys, k)], k)
  }

  ghost predicate KeysUpTo(ls: seq<Tree>, hi: Bound) {
    forall l, x :: l in ls && x in l.keys ==> UpTo(x, hi)
  }

  ghost predicate KeysFrom(ls: seq<Tree>, lo: Bound) {
    forall l, x :: l in ls && x in l.keys ==> From(lo, x)
  }

  ghost predicate KeysUnder(ls: seq<Tree>, k: int) {
    forall l, x :: l in ls && x in l.keys ==> x < k
  }

  ghost predicate KeysOver(ls: seq<Tree>, k: int) {
    forall l, x :: l in ls && x in l.keys ==> k < x
  }

  lemma AscendingEnds(keys: seq<int>, x: int)
    requires Ascending(keys) && x in keys
    ensures keys[0] <= x <= keys[|keys| - 1]
  {
    var i :| 0 <= i < |keys| && keys[i] == x;
  }

  lemma SeparatorsWithin(t: Tree, h: nat, lo: Bound, hi: Bound, i: nat, x: int)
    requires t.Inner? && Shaped(t, h, lo, hi) && i < |t.children|
    ensures From(LowOf(t.keys, i, lo), x) ==> From(lo, x)
    ensures UpTo(x, HighOf(t.keys, i, hi)) ==> UpTo(x, hi)
  {
    if i > 0 && lo.Some? { assert lo.value < t.keys[0] <= t.keys[i - 1]; }
    if i < |t.keys| && hi.Some? { assert t.keys[i] <= t.keys[|t.keys| - 1] < hi.value; }
  }

  lemma LeafWithinBounds(t: Tree, lo: Bound, hi: Bound, x: int)
    requires t.Leaf? && Shaped(t, 0, lo, hi) && x in t.keys
    ensures From(lo, x) && UpTo(x, hi)
  {
    AscendingEnds(t.keys, x);
  }

  lemma {:induction false} LeavesWithin(t: Tree, h: nat, lo: Bound, hi: Bound, l: Tree, x: int)
    requires Shaped(t, h, lo, hi) && Sized(t)
    requires l in Leaves(t) && x in l.keys
    ensures From(lo, x) && UpTo(x, hi)
    decreases h
  {
    hide From, UpTo, LowOf, HighOf, Join;
    if t.Leaf? {
      LeafWithinBounds(t, lo, hi, x);
    } else {
      InJoin(LeafParts(t), l);
      var i :| 0 <= i < |t.children| && l in LeafParts(t)[i];
      SeparatorsWithin(t, h, lo, hi, i, x);
      ChildIsShaped(t, h, lo, hi, i);
      LeavesWithin(t.children[i], h - 1, LowOf(t.keys, i, lo), HighOf(t.keys, i, hi), l, x);
    }
  }

  lemma PartLeavesWithin(t: Tree, h: nat, lo: Bound, hi: Bound, i: nat)
    requires t.Inner? && Shaped(t, h, lo, hi) && Sized(t) && i < |t.children|
    ensures KeysFrom(LeafParts(t)[i], LowOf(t.keys, i, lo)) && KeysUpTo(LeafParts(t)[i], HighOf(t.keys, i, hi))
  {
    ChildIsShaped(t, h, lo, hi, i);
    forall l: Tree, x | l in LeafParts(t)[i] && x in l.keys
      ensures From(LowOf(t.keys, i, lo), x) && UpTo(x, HighOf(t.keys, i, hi))
    {
      LeavesWithin(t.children[i], h - 1, LowOf(t.keys, i, lo), HighOf(t.keys, i, hi), l, x);
    }
  }

  lemma EarlierChildrenUnder(t: Tree, h: nat, lo: Bound, hi: Bound, i: nat, k: int)
    requires t.Inner? && Shaped(t, h, lo, hi) && Sized(t) && i <= |t.keys|
    requires forall j :: 0 <= j < i ==> t.keys[j] < k
    ensures KeysUnder(Join(LeafParts(t)[..i]), k)
  {
    var ps: seq<seq<Tree>> := LeafParts(t);
    assert ps[..i] == ps[0..i];
    forall l: Tree, x | l in Join(ps[..i]) && x in l.keys ensures x < k {
      var j := PartOf(ps, 0, i, l);
      PartLeavesWithin(t, h, lo, hi, j);
      assert UpTo(x, HighOf(t.keys, j, hi));
      assert t.keys[j] < k;
    }
  }

  lemma UnderBoth(ls: seq<Tree>, ms: seq<Tree>, k: int)
    requires KeysUnder(ls, k) && KeysUnder(ms, k)
    ensures KeysUnder(ls + ms, k)
  {
  }

  /** The leaf a scan from k starts at, and that nothing before it matters: all keys there are below k. */
  lemma {:induction false} LeafForIsAt(t: Tree, h: nat, lo: Bound, hi: Bound, k: int) returns (n: nat)
    requires Shaped(t, h, lo, hi) && Sized(t)
    ensures n < |Leaves(t)| && Leaves(t)[n] == LeafFor(t, k) && KeysUnder(Leaves(t)[..n], k)
    decreases h
  {
    if t.Leaf? {
      n := 0;
    } else {
      var i := Position(t.keys, k);
      var ps: seq<seq<Tree>> := LeafParts(t);
      EarlierChildrenUnder(t, h, lo, hi, i, k);
      JoinAround(ps, i);
      ChildIsShaped(t, h, lo, hi, i);
      var m := LeafForIsAt(t.children[i], h - 1, LowOf(t.keys, i, lo), HighOf(t.keys, i, hi), k);
      n := |Join(ps[..i])| + m;
      FrontOfJoin(ps, i, m);
      UnderBoth(Join(ps[..i]), ps[i][..m], k);
    }
  }

  // ----- ascending leaves -----

  ghost predicate LeavesAscend(ls: seq<Tree>) {
    forall i, j, x, y :: 0 <= i < j < |ls| && x in ls[i].keys && y in ls[j].keys ==> x <= y
  }

  lemma {:induction false} JoinAscends(ps: seq<seq<Tree>>)
    requires forall i :: 0 <= i < |ps| ==> LeavesAscend(ps[i])
    requires forall i, j, l, m, x, y :: 0 <= i < j < |ps| && l in ps[i] && m in ps[j] && x in l.keys && y in m.keys ==>
             x <= y
    ensures LeavesAscend(Join(ps))
  {
    if ps != [] {
      var rest := ps[1..];
      forall i, j, l: Tree, m: Tree, x, y | 0 <= i < j < |rest| && l in rest[i] && m in rest[j] && x in l.keys &&
        y in m.keys
        ensures x <= y
      {
        assert l in ps[i + 1] && m in ps[j + 1];
      }
      JoinAscends(rest);
      forall l: Tree, m: Tree, x, y | l in ps[0] && m in Join(rest) && x in l.keys && y in m.keys ensures x <= y {
        InJoin(rest, m);
        var j :| 0 <= j < |rest| && m in rest[j];
        assert m in ps[j + 1];
      }
      AppendAscends(ps[0], Join(rest));
    }
  }

  lemma AppendAscends(a: seq<Tree>, b: seq<Tree>)
    requires LeavesAscend(a) && LeavesAscend(b)
    requires forall l, m, x, y :: l in a && m in b && x in l.keys && y in m.keys ==> x <= y
    ensures LeavesAscend(a + b)
  {
    var c := a + b;
    forall i, j, x, y | 0 <= i < j < |c| && x in c[i].keys && y in c[j].keys ensures x <= y {
      if i < |a| <= j {
        assert c[i] == a[i] && c[j] == b[j - |a|];
        assert a[i] in a && b[j - |a|] in b;
      } else if |a| <= i {
        assert c[i] == b[i - |a|] && c[j] == b[j - |a|];
      } else {
        assert c[i] == a[i] && c[j] == a[j];
      }
    }
  }

  lemma SeparatedParts(t: Tree, h: nat, lo: Bound, hi: Bound, i: nat, j: nat, l: Tree, m: Tree, x: int, y: int)
    requires t.Inner? && Shaped(t, h, lo, hi) && Sized(t) && i < j < |t.children|
    requires l in LeafParts(t)[i] && m in LeafParts(t)[j] && x in l.keys && y in m.keys
    ensures x <= y
  {
    PartLeavesWithin(t, h, lo, hi, i);
    PartLeavesWithin(t, h, lo, hi, j);
    assert UpTo(x, Some(t.keys[i])) && From(Some(t.keys[j - 1]), y);
    assert t.keys[i] <= t.keys[j - 1];
  }

  lemma {:induction false} LeavesAreAscending(t: Tree, h: nat, lo: Bound, hi: Bound)
    requires Shaped(t, h, lo, hi) && Sized(t)
    ensures LeavesAscend(Leaves(t))
    decreases h
  {
    if t.Inner? {
      var ps: seq<seq<Tree>> := LeafParts(t);
      forall i, j, l: Tree, m: Tree, x, y | 0 <= i < j < |ps| && l in ps[i] && m in ps[j] && x in l.keys && y in m.keys
        ensures x <= y
      {
        SeparatedParts(t, h, lo, hi, i, j, l, m, x, y);
      }
      forall i | 0 <= i < |ps| ensures LeavesAscend(ps[i]) {
        ChildIsShaped(t, h, lo, hi, i);
        LeavesAreAscending(t.children[i], h - 1, LowOf(t.keys, i, lo), HighOf(t.keys, i, hi));
      }
      JoinAscends(ps);
    }
  }

  // ----- what a scan collects -----

  /** The values of the entries whose keys lie from a to b, in entry order. */
  function Range(es: seq<Entry>, a: int, b: int): seq<Value> {
    if es == [] then []
    else
      var last := es[|es| - 1];
      Range(es[..|es| - 1], a, b) + if a <= last.slot / 2 <= b then [last.value] else []
  }

  lemma {:induction false} RangeAppend(x: seq<Entry>, y: seq<Entry>, a: int, b: int)
    ensures Range(x + y, a, b) == Range(x, a, b) + Range(y, a, b)
  {
    if y == [] {
      assert x + y == x;
    } else {
      var front := y[..|y| - 1];
      assert (x + y)[..|x + y| - 1] == x + front;
      RangeAppend(x, front, a, b);
    }
  }

  /** The same over the first n keys of one leaf. */
  function LeafRange(keys: seq<Key>, values: seq<Value>, a: int, b: int, n: nat): seq<Value>
    requires |keys| == |values| && n <= |keys|
  {
    if n == 0 then []
    else LeafRange(keys, values, a, b, n - 1) + if a <= keys[n - 1] <= b then [values[n - 1]] else []
  }

  function LeavesRange(ls: seq<Tree>, a: int, b: int): seq<Value>
    requires LeafList(ls)
  {
    if ls == [] then []
    else
      var last := ls[|ls| - 1];
      LeavesRange(ls[..|ls| - 1], a, b) + LeafRange(last.keys, last.values, a, b, |last.keys|)
  }

  lemma {:induction false} LeavesRangeAppend(x: seq<Tree>, y: seq<Tree>, a: int, b: int)
    requires LeafList(x) && LeafList(y)
    ensures LeafList(x + y)
    ensures LeavesRange(x + y, a, b) == LeavesRange(x, a, b) + LeavesRange(y, a, b)
  {
    hide LeafRange;
    if y == [] {
      assert x + y == x;
    } else {
      var front := y[..|y| - 1];
      assert (x + y)[..|x + y| - 1] == x + front;
      assert (x + y)[|x + y| - 1] == y[|y| - 1];
      assert LeafList(x + y);
      LeavesRangeAppend(x, front, a, b);
    }
  }

  lemma {:induction false} LeafRangeIsRange(keys: seq<Key>, values: seq<Value>, hi: Bound, a: int, b: int, n: nat)
    requires |keys| == |values| && n <= |keys|
    ensures LeafRange(keys, values, a, b, n) == Range(LeafEntries(keys, values, hi)[..n], a, b)
  {
    if n > 0 {
      LeafRangeIsRange(keys, values, hi, a, b, n - 1);
      var es := LeafEntries(keys, values, hi);
      assert es[..n][..n - 1] == es[..n - 1];
      assert es[n - 1].slot / 2 == keys[n - 1];
    }
  }

  /** Collecting leaf by leaf is collecting over the entries. */
  lemma {:induction false} LeavesRangeIsRange(t: Tree, hi: Bound, a: int, b: int)
    requires Sized(t)
    ensures LeafList(Leaves(t)) && LeavesRange(Leaves(t), a, b) == Range(Entries(t, hi), a, b)
    decreases t, 1
  {
    LeavesAreLeaves(t);
    if t.Leaf? {
      LeafRangeIsRange(t.keys, t.values, hi, a, b, |t.keys|);
      assert Entries(t, hi)[..|t.keys|] == Entries(t, hi);
      assert Leaves(t)[..0] == [];
    } else {
      PartsRange(t, hi, a, b, |t.children|);
      assert LeafParts(t)[..|t.children|] == LeafParts(t);
      assert Parts(t, hi)[..|t.children|] == Parts(t, hi);
    }
  }

  lemma {:induction false} PartsRange(t: Tree, hi: Bound, a: int, b: int, n: nat)
    requires t.Inner? && Sized(t) && n <= |t.children|
    ensures LeafList(Join(LeafParts(t)[..n]))
    ensures LeavesRange(Join(LeafParts(t)[..n]), a, b) == Range(Join(Parts(t, hi)[..n]), a, b)
    decreases t, 0, n
  {
    if n > 0 {
      var ls: seq<seq<Tree>>, es: seq<seq<Entry>> := LeafParts(t), Parts(t, hi);
      JoinLast(ls, n);
      JoinLast(es, n);
      PartsRange(t, hi, a, b, n - 1);
      LeavesRangeIsRange(t.children[n - 1], HighOf(t.keys, n - 1, hi), a, b);
      LeavesRangeAppend(Join(ls[..n - 1]), ls[n - 1], a, b);
      RangeAppend(Join(es[..n - 1]), es[n - 1], a, b);
    }
  }

  lemma JoinLast<T>(ps: seq<seq<T>>, n: nat)
    requires 0 < n <= |ps|
    ensures Join(ps[..n]) == Join(ps[..n - 1]) + ps[n - 1]
  {
    assert ps[..n] == ps[..n - 1] + [ps[n - 1]];
    JoinAppend(ps[..n - 1], [ps[n - 1]]);
    assert Join([ps[n - 1]]) == ps[n - 1] + Join([]);
  }

  /** Leaves whose keys all lie outside [a, b] contribute nothing. */
  lemma {:induction false} NothingInRange(ls: seq<Tree>, a: int, b: int)
    requires LeafList(ls)
    requires KeysUnder(ls, a) || KeysOver(ls, b)
    ensures LeavesRange(ls, a, b) == []
  {
    if ls != [] {
      var last := ls[|ls| - 1];
      assert forall l :: l in ls[..|ls| - 1] ==> l in ls;
      NothingInRange(ls[..|ls| - 1], a, b);
      assert last in ls && forall i :: 0 <= i < |last.keys| ==> last.keys[i] in last.keys;
      NoKeysInRange(last.keys, last.values, a, b, 0, |last.keys|);
    }
  }

  lemma {:induction false} NoKeysInRange(keys: seq<Key>, values: seq<Value>, a: int, b: int, m: nat, n: nat)
    requires |keys| == |values| && m <= n <= |keys|
    requires forall i :: m <= i < n ==> !(a <= keys[i] <= b)
    ensures LeafRange(keys, values, a, b, n) == LeafRange(keys, values, a, b, m)
  {
    if n > m {
      NoKeysInRange(keys, values, a, b, m, n - 1);
    }
  }

  lemma {:induction false} LeavesKeysAscend(t: Tree, h: nat, lo: Bound, hi: Bound)
    requires Shaped(t, h, lo, hi) && Sized(t)
    ensures forall l :: l in Leaves(t) ==> Ascending(l.keys)
    decreases h
  {
    if t.Inner? {
      forall l | l in Leaves(t) ensures Ascending(l.keys) {
        InJoin(LeafParts(t), l);
        var i :| 0 <= i < |t.children| && l in LeafParts(t)[i];
        ChildIsShaped(t, h, lo, hi, i);
        LeavesKeysAscend(t.children[i], h - 1, LowOf(t.keys, i, lo), HighOf(t.keys, i, hi));
      }
    }
  }

  /** Once a key exceeds b, neither the rest of its leaf nor any later leaf contributes. */
  lemma NothingAfter(ls: seq<Tree>, n: nat, i: nat, a: int, b: int)
    requires LeafList(ls) && LeavesAscend(ls) && n < |ls| && Ascending(ls[n].keys)
    requires i < |ls[n].keys| && ls[n].keys[i] > b
    ensures LeavesRange(ls, a, b) == LeavesRange(ls[..n], a, b) + LeafRange(ls[n].keys, ls[n].values, a, b, i)
  {
    var front, rest := ls[..n + 1], ls[n + 1..];
    assert ls == front + rest && front[..n] == ls[..n];
    LeavesRangeAppend(front, rest, a, b);
    forall l, x | l in rest && x in l.keys ensures b < x {
      var j :| 0 <= j < |rest| && rest[j] == l;
      assert ls[n + 1 + j] == l;
      assert ls[n].keys[i] in ls[n].keys;
    }
    NothingInRange(rest, a, b);
    NoKeysInRange(ls[n].keys, ls[n].values, a, b, i, |ls[n].keys|);
  }
}
