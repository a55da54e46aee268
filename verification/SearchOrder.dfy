// In which order the breadth-first search finds its paths, and which of several shortest paths it takes.
module SearchOrder {
  import opened PathModel
  import opened SearchModel

  /** The path to each discovered node. */
  type Tree = map<int, Path>

  /** Shorter, or as long and before the other where the two part. */
  ghost predicate Less(l: Links, p: Path, q: Path) {
    |p.Edges| < |q.Edges| || (|p.Edges| == |q.Edges| && Precedes(l, p, q))
  }

  /** A walk to u that keeps clear of the target. */
  ghost predicate Clear(f: Finding, u: int, w: Path) {
    IsWalk(f.l, f.c, w) && Between(w, f.from, u) && f.to !in w.Nodes
  }

  // ----- the order of paths -----

  /** An edge that leads away from its node is listed there in one place. */
  lemma OnePlace(l: Links, u: int, i: nat, j: nat)
    requires LinksOk(l) && u in l.out && i < |l.out[u]| && j < |l.out[u]| && l.out[u][i] == l.out[u][j]
    requires NextOf(u, l.out[u][i]) != u
    ensures i == j
  {
  }

  /** A simple walk leaves each of its nodes. */
  lemma LeavesNode(l: Links, c: Config, p: Path, n: nat)
    requires IsWalk(l, c, p) && Simple(p) && n < |p.Edges|
    ensures p.Nodes[n] in l.out && p.Edges[n] in l.out[p.Nodes[n]] && NextOf(p.Nodes[n], p.Edges[n]) != p.Nodes[n]
  {
    assert Step(l, c, p.Nodes[n], p.Edges[n], p.Nodes[n + 1]);
  }

  lemma PrecedesOn(l: Links, c: Config, p: Path, q: Path, r: Path)
    requires LinksOk(l) && IsWalk(l, c, q) && Simple(q) && Precedes(l, p, q) && Precedes(l, q, r)
    ensures Precedes(l, p, r)
  {
    hide IsWalk, Simple, LinksOk;
    var n: nat :| PartsAt(l, p, q, n);
    var m: nat :| PartsAt(l, q, r, m);
    if n < m {
      assert r.Nodes[..n + 1] == r.Nodes[..m + 1][..n + 1] && q.Nodes[..n + 1] == q.Nodes[..m + 1][..n + 1];
      assert r.Edges[..n] == r.Edges[..m][..n] && q.Edges[..n] == q.Edges[..m][..n];
      assert r.Edges[n] == r.Edges[..m][n] == q.Edges[..m][n] == q.Edges[n];
      assert PartsAt(l, p, r, n);
    } else if m < n {
      assert p.Nodes[..m + 1] == p.Nodes[..n + 1][..m + 1] && q.Nodes[..m + 1] == q.Nodes[..n + 1][..m + 1];
      assert p.Edges[..m] == p.Edges[..n][..m] && q.Edges[..m] == q.Edges[..n][..m];
      assert p.Edges[m] == p.Edges[..n][m] == q.Edges[..n][m] == q.Edges[m];
      assert PartsAt(l, p, r, m);
    } else {
      PartSame(l, c, p, q, r, n);
    }
  }

  lemma PartSame(l: Links, c: Config, p: Path, q: Path, r: Path, n: nat)
    requires LinksOk(l) && IsWalk(l, c, q) && Simple(q) && PartsAt(l, p, q, n) && PartsAt(l, q, r, n)
    ensures PartsAt(l, p, r, n)
  {
    hide IsWalk, Simple, LinksOk;
    var u := q.Nodes[n];
    assert p.Nodes[n] == p.Nodes[..n + 1][n] == q.Nodes[..n + 1][n] == u;
    LeavesNode(l, c, q, n);
    var a, b :| 0 <= a < b < |l.out[u]| && l.out[u][a] == p.Edges[n] && l.out[u][b] == q.Edges[n];
    var a', b' :| 0 <= a' < b' < |l.out[u]| && l.out[u][a'] == q.Edges[n] && l.out[u][b'] == r.Edges[n];
    OnePlace(l, u, b, a');
  }

  /** Of two simple walks at most one precedes the other. */
  lemma NotBoth(l: Links, c: Config, p: Path, q: Path)
    requires LinksOk(l) && IsWalk(l, c, p) && Simple(p) && IsWalk(l, c, q) && Simple(q)
    ensures !(Precedes(l, p, q) && Precedes(l, q, p))
  {
    hide IsWalk, Simple, LinksOk;
    if Precedes(l, p, q) && Precedes(l, q, p) {
      PrecedesOn(l, c, p, q, p);
      var n: nat :| PartsAt(l, p, p, n);
      LeavesNode(l, c, p, n);
      var u := p.Nodes[n];
      var a, b :| 0 <= a < b < |l.out[u]| && l.out[u][a] == p.Edges[n] && l.out[u][b] == p.Edges[n];
      OnePlace(l, u, a, b);
    }
  }

  /** Paths that part do so however they go on. */
  lemma PrecedesFurther(l: Links, p: Path, q: Path, p': Path, q': Path)
    requires Precedes(l, p, q) && p.Nodes <= p'.Nodes && p.Edges <= p'.Edges && q.Nodes <= q'.Nodes &&
             q.Edges <= q'.Edges
    ensures Precedes(l, p', q')
  {
    var n: nat :| PartsAt(l, p, q, n);
    assert p'.Nodes[..n + 1] == p.Nodes[..n + 1] && q'.Nodes[..n + 1] == q.Nodes[..n + 1];
    assert p'.Edges[..n] == p.Edges[..n] && q'.Edges[..n] == q.Edges[..n];
    assert p'.Edges[n] == p.Edges[n] && q'.Edges[n] == q.Edges[n] && p'.Nodes[n] == p.Nodes[n];
    assert PartsAt(l, p', q', n);
  }

  /** Of two steps from one path that over the edge listed first precedes. */
  lemma EarlierStep(l: Links, p: Path, j: nat, k: nat, v: int, w: int)
    requires |p.Nodes| == |p.Edges| + 1
    requires var u := p.Nodes[|p.Edges|]; u in l.out && j < k < |l.out[u]|
    ensures var u := p.Nodes[|p.Edges|];
            Precedes(l, Extended(p, l.out[u][j], v), Extended(p, l.out[u][k], w))
  {
    var n := |p.Edges|;
    var u := p.Nodes[n];
    var a, b := Extended(p, l.out[u][j], v), Extended(p, l.out[u][k], w);
    assert a.Nodes[..n + 1] == p.Nodes == b.Nodes[..n + 1] && a.Edges[..n] == p.Edges == b.Edges[..n];
    assert PartsAt(l, a, b, n);
  }

  lemma LessFurther(l: Links, p: Path, q: Path, e: Edge, e': Edge, v: int, v': int)
    requires Less(l, p, q)
    ensures Less(l, Extended(p, e, v), Extended(q, e', v'))
  {
    if |p.Edges| == |q.Edges| {
      PrecedesFurther(l, p, q, Extended(p, e, v), Extended(q, e', v'));
    }
  }

  // ----- what holds of the order between and within the rounds -----

  /** p goes on from the path to y over the j-th edge listed at y, and y is done, or it is u and j is below k. */
  ghost predicate MadeBy(f: Finding, s: Progress, tree: Tree, u: int, k: nat, v: int, p: Path, y: int, j: nat) {
    && y in tree && y in f.l.out && j < |f.l.out[y]| && p == Extended(tree[y], f.l.out[y][j], v)
    && (y in s.done || (y == u && j < k))
  }

  ghost predicate Made(f: Finding, s: Progress, tree: Tree, u: int, k: nat, v: int, p: Path) {
    exists y, j: nat :: MadeBy(f, s, tree, u, k, v, p, y, j)
  }

  ghost predicate TreeOk(f: Finding, s: Progress, tree: Tree) {
    && tree.Keys == s.depth.Keys && f.from in tree && tree[f.from] == Path([f.from], [])
    && (forall u :: u in tree ==> Clear(f, u, tree[u]) && Simple(tree[u]) && |tree[u].Edges| == s.depth[u])
    && (forall i :: 0 <= i < |s.queue| ==> s.queue[i].nodeID in tree && s.queue[i].path == tree[s.queue[i].nodeID])
  }

  ghost predicate AllMade(f: Finding, s: Progress, tree: Tree, u: int, k: nat) {
    && (forall v :: v in tree && v != f.from ==> Made(f, s, tree, u, k, v, tree[v]))
    && (forall i :: 0 <= i < |s.paths| ==> Made(f, s, tree, u, k, f.to, s.paths[i]))
  }

  /** The path to a node comes before every other walk to it of the same length that keeps clear of the target. */
  ghost predicate First(f: Finding, tree: Tree) {
    forall u, w :: u in tree && Clear(f, u, w) && |w.Edges| == |tree[u].Edges| ==>
      w == tree[u] || Precedes(f.l, tree[u], w)
  }

  ghost predicate QueueInLine(f: Finding, s: Progress, tree: Tree) {
    && (forall i, j :: 0 <= i < j < |s.queue| ==> Less(f.l, s.queue[i].path, s.queue[j].path))
    && (forall u, i :: u in s.done && 0 <= i < |s.queue| ==> u in tree && Less(f.l, tree[u], s.queue[i].path))
  }

  ghost predicate PathsInLine(l: Links, paths: seq<Path>) {
    forall i, j :: 0 <= i < j < |paths| ==> Less(l, paths[i], paths[j])
  }

  /** Between two rounds. */
  ghost predicate RoundOrder(f: Finding, s: Progress, tree: Tree) {
    && TreeOk(f, s, tree) && AllMade(f, s, tree, 0, 0) && First(f, tree) && QueueInLine(f, s, tree)
    && PathsInLine(f.l, s.paths)
  }

  ghost predicate ItemInLine(f: Finding, s: Progress, tree: Tree, it: Item) {
    && it.nodeID in tree && it.path == tree[it.nodeID]
    && (forall y :: y in s.done ==> y in tree && Less(f.l, tree[y], it.path))
    && (forall i :: 0 <= i < |s.queue| ==> Less(f.l, it.path, s.queue[i].path))
  }

  /** Inside a round, after the first k edges of the item's node. */
  ghost predicate InnerOrder(f: Finding, s: Progress, tree: Tree, it: Item, k: nat) {
    && TreeOk(f, s, tree) && AllMade(f, s, tree, it.nodeID, k) && First(f, tree) && QueueInLine(f, s, tree)
    && PathsInLine(f.l, s.paths) && ItemInLine(f, s, tree, it)
  }

  // ----- rounds -----

  lemma FirstOrder(l: Links, c: Config, from: int, to: int)
    requires from in l.alive && from != to
    ensures RoundOrder(Finding(l, c, from, to), Progress(map[from := 0], [Item(from, Path([from], []))], [], {}, 0),
                       map[from := Path([from], [])])
  {
    var f, tree := Finding(l, c, from, to), map[from := Path([from], [])];
    forall u, w | u in tree && Clear(f, u, w) && |w.Edges| == |tree[u].Edges| ensures w == tree[u] {
      assert w.Nodes == [from] && w.Edges == [];
    }
  }

  lemma MadeMore(f: Finding, s: Progress, tree: Tree, u: int, k: nat, s': Progress, u': int, k': nat)
    requires AllMade(f, s, tree, u, k) && s'.paths == s.paths && s.done <= s'.done
    requires k == 0 || (u == u' && k <= k') || u in s'.done
    ensures AllMade(f, s', tree, u', k')
  {
    hide MadeBy;
    forall v, p | Made(f, s, tree, u, k, v, p) ensures Made(f, s', tree, u', k', v, p) {
      var y, j: nat :| MadeBy(f, s, tree, u, k, v, p, y, j);
      MadeByMore(f, s, tree, u, k, v, p, y, j, s', u', k');
    }
  }

  lemma MadeByMore(f: Finding, s: Progress, tree: Tree, u: int, k: nat, v: int, p: Path, y: int, j: nat, s': Progress,
                   u': int, k': nat)
    requires MadeBy(f, s, tree, u, k, v, p, y, j) && s.done <= s'.done
    requires k == 0 || (u == u' && k <= k') || u in s'.done
    ensures MadeBy(f, s', tree, u', k', v, p, y, j)
  {
  }

  lemma TakeOrder(f: Finding, s: Progress, tree: Tree, d: nat)
    requires RoundOrder(f, s, tree) && s.queue != []
    ensures var it, s' := s.queue[0], s.(queue := s.queue[1..], d := d);
            InnerOrder(f, s', tree, it, 0)
  {
    hide Less, Clear, First, Made, PathsInLine;
    var it, s' := s.queue[0], s.(queue := s.queue[1..], d := d);
    MadeMore(f, s, tree, 0, 0, s', it.nodeID, 0);
    forall i | 0 <= i < |s'.queue| ensures s'.queue[i] == s.queue[i + 1] {
    }
  }

  lemma EndOrder(f: Finding, s: Progress, tree: Tree, it: Item, k: nat)
    requires InnerOrder(f, s, tree, it, k)
    ensures RoundOrder(f, s.(done := s.done + {it.nodeID}), tree)
  {
    hide Less, Clear, First, Made, PathsInLine;
    MadeMore(f, s, tree, it.nodeID, k, s.(done := s.done + {it.nodeID}), 0, 0);
  }

  lemma SkipOrder(f: Finding, s: Progress, tree: Tree)
    requires RoundOrder(f, s, tree) && s.queue != []
    ensures RoundOrder(f, s.(queue := s.queue[1..], done := s.done + {s.queue[0].nodeID}, d := |s.queue[0].path.Edges|),
                       tree)
  {
    hide RoundOrder, InnerOrder;
    var it := s.queue[0];
    TakeOrder(f, s, tree, |it.path.Edges|);
    EndOrder(f, s.(queue := s.queue[1..], d := |it.path.Edges|), tree, it, 0);
  }

  lemma PassOrder(f: Finding, s: Progress, tree: Tree, it: Item, k: nat)
    requires InnerOrder(f, s, tree, it, k)
    ensures InnerOrder(f, s, tree, it, k + 1)
  {
    hide Less, Clear, First, Made, PathsInLine, TreeOk, QueueInLine, ItemInLine, AllMade;
    MadeMore(f, s, tree, it.nodeID, k, s, it.nodeID, k + 1);
  }

  /** Whatever was made so far comes before the next step of the item. */
  lemma MadeBefore(f: Finding, s: Progress, tree: Tree, it: Item, k: nat, v: int, p: Path, w: int)
    requires TreeOk(f, s, tree) && ItemInLine(f, s, tree, it) && Made(f, s, tree, it.nodeID, k, v, p)
    requires it.nodeID in f.l.out && k < |f.l.out[it.nodeID]|
    ensures Less(f.l, p, Extended(it.path, f.l.out[it.nodeID][k], w))
  {
    hide Less, Simple, IsWalk, Precedes;
    var u, e := it.nodeID, f.l.out[it.nodeID][k];
    var y, j: nat :| MadeBy(f, s, tree, u, k, v, p, y, j);
    if y in s.done {
      LessFurther(f.l, tree[y], it.path, f.l.out[y][j], e, v, w);
    } else {
      WalkEnds(f, u, it.path);
      EarlierStep(f.l, it.path, j, k, v, w);
      AsLong(f.l, it.path, f.l.out[u][j], e, v, w);
    }
  }

  lemma AsLong(l: Links, p: Path, e: Edge, e': Edge, v: int, v': int)
    requires Precedes(l, Extended(p, e, v), Extended(p, e', v'))
    ensures Less(l, Extended(p, e, v), Extended(p, e', v'))
  {
  }

  lemma WalkEnds(f: Finding, u: int, p: Path)
    requires Clear(f, u, p)
    ensures |p.Nodes| == |p.Edges| + 1 && p.Nodes[|p.Edges|] == u
  {
  }

  /** A path to the target comes behind those found before. */
  lemma ReachOrder(f: Finding, s: Progress, tree: Tree, it: Item, k: nat)
    requires InnerOrder(f, s, tree, it, k) && it.nodeID in f.l.out && k < |f.l.out[it.nodeID]|
    ensures InnerOrder(f, s.(paths := s.paths + [Extended(it.path, f.l.out[it.nodeID][k], f.to)]), tree, it, k + 1)
  {
    hide Less, Clear, First, Made, MadeBy;
    var u, q := it.nodeID, Extended(it.path, f.l.out[it.nodeID][k], f.to);
    var s' := s.(paths := s.paths + [q]);
    MadeMore(f, s, tree, u, k, s, u, k + 1);
    forall i | 0 <= i < |s.paths| ensures Less(f.l, s.paths[i], q) {
      MadeBefore(f, s, tree, it, k, f.to, s.paths[i], f.to);
    }
    MadeNow(f, s, tree, it, k, f.to);
    SamelyMade(f, s, tree, u, k + 1, s');
  }

  lemma MadeNow(f: Finding, s: Progress, tree: Tree, it: Item, k: nat, v: int)
    requires it.nodeID in tree && it.path == tree[it.nodeID] && it.nodeID in f.l.out && k < |f.l.out[it.nodeID]|
    ensures Made(f, s, tree, it.nodeID, k + 1, v, Extended(it.path, f.l.out[it.nodeID][k], v))
  {
    assert MadeBy(f, s, tree, it.nodeID, k + 1, v, Extended(it.path, f.l.out[it.nodeID][k], v), it.nodeID, k);
  }

  /** How a path was made depends on the nodes done alone. */
  lemma SamelyMade(f: Finding, s: Progress, tree: Tree, u: int, k: nat, s': Progress)
    requires s'.done == s.done
    ensures forall v, p :: Made(f, s, tree, u, k, v, p) ==> Made(f, s', tree, u, k, v, p)
  {
    forall v, p | Made(f, s, tree, u, k, v, p) ensures Made(f, s', tree, u, k, v, p) {
      var y, j: nat :| MadeBy(f, s, tree, u, k, v, p, y, j);
      assert MadeBy(f, s', tree, u, k, v, p, y, j);
    }
  }

  // ----- a node found -----

  /** A node at most as deep as the round has been discovered, and is done unless it is as deep as the round. */
  lemma NodeDone(f: Finding, s: Progress, it: Item, k: nat, u: int)
    requires Inner(f, s, it, k) && u in s.depth && s.depth[u] <= s.d
    ensures u in s.done || u == it.nodeID || InQueue(s.queue, u)
    ensures s.depth[u] < s.d ==> u in s.done
    ensures u in s.done ==> Expanded(f.l, f.c, f.to, s.depth, s.paths, u)
  {
    hide Expanded, PathsOk, Once, FreshQueue, IsWalk, Between, Simple;
    ItemDepth(f.l, f.c, f.from, s.depth, it);
    assert u in s.done + {it.nodeID} || InQueue(s.queue, u);
    if u !in s.done && u != it.nodeID {
      var i :| 0 <= i < |s.queue| && s.queue[i].nodeID == u;
      assert ItemOk(f.l, f.c, f.from, s.depth, s.queue[i]);
    }
  }

  /** What is reached by a step from a done node, other than the target, has been discovered. */
  lemma StepDiscovers(f: Finding, s: Progress, u: int, e: Edge, v: int)
    requires u in s.depth && Expanded(f.l, f.c, f.to, s.depth, s.paths, u) && Step(f.l, f.c, u, e, v) && v != f.to
    ensures v in s.depth && s.depth[v] <= s.depth[u] + 1
  {
    assert Seen(f.to, s.depth, s.paths, u, e, v);
  }

  lemma {:induction false} WalkDiscovered(f: Finding, s: Progress, it: Item, k: nat, u: int, w: Path, i: nat)
    requires Inner(f, s, it, k) && Clear(f, u, w) && i <= s.d && i < |w.Nodes|
    ensures w.Nodes[i] in s.depth && s.depth[w.Nodes[i]] <= i
  {
    hide Step, Expanded, QueueOk, PathsOk, DoneOk, Once, FreshQueue, ItemOk;
    if i > 0 {
      WalkDiscovered(f, s, it, k, u, w, i - 1);
      NodeDone(f, s, it, k, w.Nodes[i - 1]);
      assert Step(f.l, f.c, w.Nodes[i - 1], w.Edges[i - 1], w.Nodes[i - 1 + 1]);
      assert w.Nodes[i] in w.Nodes;
      StepDiscovers(f, s, w.Nodes[i - 1], w.Edges[i - 1], w.Nodes[i]);
    }
  }

  /** The walk without its last step. */
  function Before(w: Path): Path
    requires |w.Nodes| == |w.Edges| + 1 >= 2
  {
    Path(w.Nodes[..|w.Edges|], w.Edges[..|w.Edges| - 1])
  }

  lemma BeforeIs(f: Finding, v: int, w: Path)
    requires Clear(f, v, w) && |w.Edges| > 0
    ensures |w.Nodes| == |w.Edges| + 1
    ensures var x, e := w.Nodes[|w.Edges| - 1], w.Edges[|w.Edges| - 1];
            Clear(f, x, Before(w)) && Step(f.l, f.c, x, e, v) && w == Extended(Before(w), e, v)
  {
    hide Step;
    var n := |w.Edges|;
    var b := Before(w);
    forall j | 0 <= j < n - 1 ensures Step(f.l, f.c, b.Nodes[j], b.Edges[j], b.Nodes[j + 1]) {
      assert Step(f.l, f.c, w.Nodes[j], w.Edges[j], w.Nodes[j + 1]);
    }
    assert Step(f.l, f.c, w.Nodes[n - 1], w.Edges[n - 1], w.Nodes[n - 1 + 1]);
    assert forall y :: y in b.Nodes ==> y in w.Nodes;
    assert w.Nodes == b.Nodes + [v] && w.Edges == b.Edges + [w.Edges[n - 1]];
  }

  /** A walk as long as that to a node just found ends by a step from the item, or from one still in the queue. */
  lemma LastNode(f: Finding, s: Progress, it: Item, k: nat, v: int, w: Path)
    requires Inner(f, s, it, k) && Clear(f, v, w) && |w.Edges| == s.d + 1 && v !in s.depth && v != f.to
    ensures |w.Nodes| == |w.Edges| + 1
    ensures var x := w.Nodes[s.d];
            x in s.depth && s.depth[x] == s.d && x !in s.done && (x == it.nodeID || InQueue(s.queue, x))
  {
    hide Step, Expanded, QueueOk, PathsOk, DoneOk, DepthOk, Once, FreshQueue, ItemOk, InQueue, Inner, Clear;
    BeforeIs(f, v, w);
    var x, e := w.Nodes[s.d], w.Edges[s.d];
    WalkDiscovered(f, s, it, k, v, w, s.d);
    NodeDone(f, s, it, k, x);
    if x in s.done {
      StepDiscovers(f, s, x, e, v);
    }
  }

  /** The path to a node just found comes before every other walk to it of that length. */
  lemma FoundFirst(f: Finding, s: Progress, tree: Tree, it: Item, k: nat, v: int, w: Path)
    requires Inner(f, s, it, k) && InnerOrder(f, s, tree, it, k) && LinksOk(f.l)
    requires k < |f.l.out[it.nodeID]| && Step(f.l, f.c, it.nodeID, f.l.out[it.nodeID][k], v)
    requires v !in s.depth && v != f.to && Clear(f, v, w) && |w.Edges| == s.d + 1
    ensures var q := Extended(it.path, f.l.out[it.nodeID][k], v); w == q || Precedes(f.l, q, w)
  {
    hide Step, Expanded, QueueOk, PathsOk, DoneOk, DepthOk, Once, FreshQueue, ItemOk, InQueue, Clear, Less, Precedes;
    hide Made, LinksOk, IsWalk, Between, Simple, NextOf, Allowed, PathsInLine, First, AllMade, QueueInLine;
    var u, q := it.nodeID, Extended(it.path, f.l.out[it.nodeID][k], v);
    LastNode(f, s, it, k, v, w);
    BeforeIs(f, v, w);
    var x, e, b := w.Nodes[s.d], w.Edges[s.d], Before(w);
    FirstOf(f, tree, x, b);
    if x == u {
      if b == it.path {
        StepBehind(f, s, it, k, v, e);
        WalkEnds(f, u, it.path);
        var j: nat :| k <= j < |f.l.out[u]| && f.l.out[u][j] == e;
        if j > k {
          EarlierStep(f.l, it.path, k, j, v, v);
        }
      } else {
        PrecedesFurther(f.l, it.path, b, q, w);
      }
    } else {
      QueuedBehind(f, s, tree, it, k, x);
      if b != tree[x] {
        PrecedesOn(f.l, f.c, it.path, tree[x], b);
      }
      PrecedesFurther(f.l, it.path, b, q, w);
    }
  }

  lemma FirstOf(f: Finding, tree: Tree, x: int, b: Path)
    requires First(f, tree) && x in tree && Clear(f, x, b) && |b.Edges| == |tree[x].Edges|
    ensures b == tree[x] || Precedes(f.l, tree[x], b)
  {
  }

  /** An edge from the item to a node not found yet is not listed before the k-th. */
  lemma StepBehind(f: Finding, s: Progress, it: Item, k: nat, v: int, e: Edge)
    requires Inner(f, s, it, k) && Step(f.l, f.c, it.nodeID, e, v) && v !in s.depth && v != f.to
    ensures exists j: nat :: k <= j < |f.l.out[it.nodeID]| && f.l.out[it.nodeID][j] == e
  {
    hide Expanded, QueueOk, PathsOk, DoneOk, DepthOk, Once, FreshQueue, Simple, IsWalk, Between;
    ItemDepth(f.l, f.c, f.from, s.depth, it);
    var j: nat :| j < |f.l.out[it.nodeID]| && f.l.out[it.nodeID][j] == e;
    SeenEarlier(f, s, it, k, v, j);
  }

  lemma SeenEarlier(f: Finding, s: Progress, it: Item, k: nat, v: int, j: nat)
    requires Inner(f, s, it, k) && j < |f.l.out[it.nodeID]| && Step(f.l, f.c, it.nodeID, f.l.out[it.nodeID][j], v)
    ensures j < k ==> v == f.to || v in s.depth
  {
    hide Expanded, QueueOk, PathsOk, DoneOk, DepthOk, Once, FreshQueue, Simple, IsWalk, Between, Step;
    ItemDepth(f.l, f.c, f.from, s.depth, it);
    if j < k {
      assert Seen(f.to, s.depth, s.paths, it.nodeID, f.l.out[it.nodeID][j], v);
    }
  }

  /** A node in the queue as deep as the item comes behind it. */
  lemma QueuedBehind(f: Finding, s: Progress, tree: Tree, it: Item, k: nat, x: int)
    requires Inner(f, s, it, k) && InnerOrder(f, s, tree, it, k)
    requires InQueue(s.queue, x) && x in s.depth && s.depth[x] == s.d
    ensures x in tree && Precedes(f.l, it.path, tree[x]) && IsWalk(f.l, f.c, tree[x]) && Simple(tree[x])
  {
    hide Expanded, QueueOk, PathsOk, DoneOk, DepthOk, Once, FreshQueue, Simple, IsWalk, Between, Precedes, Made;
    ItemDepth(f.l, f.c, f.from, s.depth, it);
    var i :| 0 <= i < |s.queue| && s.queue[i].nodeID == x;
    assert Less(f.l, it.path, s.queue[i].path);
  }

  /** A node found goes behind all others. */
  lemma FindOrder(f: Finding, s: Progress, tree: Tree, it: Item, k: nat, v: int)
    requires Inner(f, s, it, k) && InnerOrder(f, s, tree, it, k) && LinksOk(f.l)
    requires k < |f.l.out[it.nodeID]| && Step(f.l, f.c, it.nodeID, f.l.out[it.nodeID][k], v)
    requires v !in s.depth && v != f.to
    ensures var q := Extended(it.path, f.l.out[it.nodeID][k], v);
            InnerOrder(f, s.(depth := s.depth[v := s.d + 1], queue := s.queue + [Item(v, q)]), tree[v := q], it, k + 1)
  {
    hide Step, Inner, LinksOk, Less, First, AllMade, Made, TreeOk, QueueInLine, ItemInLine;
    OrderParts(f, s, tree, it, k);
    var q := Extended(it.path, f.l.out[it.nodeID][k], v);
    var s' := s.(depth := s.depth[v := s.d + 1], queue := s.queue + [Item(v, q)]);
    FoundTree(f, s, tree, it, k, v);
    FoundMade(f, s, tree, it, k, v);
    FoundLine(f, s, tree, it, k, v);
    FoundFirsts(f, s, tree, it, k, v);
  }

  lemma FoundTree(f: Finding, s: Progress, tree: Tree, it: Item, k: nat, v: int)
    requires Inner(f, s, it, k) && TreeOk(f, s, tree) && ItemInLine(f, s, tree, it)
    requires k < |f.l.out[it.nodeID]| && Step(f.l, f.c, it.nodeID, f.l.out[it.nodeID][k], v)
    requires v !in s.depth && v != f.to
    ensures var q := Extended(it.path, f.l.out[it.nodeID][k], v);
            TreeOk(f, s.(depth := s.depth[v := s.d + 1], queue := s.queue + [Item(v, q)]), tree[v := q])
  {
    hide Step, QueueOk, PathsOk, DoneOk, DepthOk, Once, FreshQueue, Expanded, Less, Simple, IsWalk, Between, InQueue;
    var q := Extended(it.path, f.l.out[it.nodeID][k], v);
    assert ItemOk(f.l, f.c, f.from, s.depth, it);
    forall i | 0 <= i < |it.path.Nodes| ensures it.path.Nodes[i] != v {
    }
    ExtendedWalk(f.l, f.c, f.from, it.path, it.nodeID, f.l.out[it.nodeID][k], v);
    assert f.to !in q.Nodes;
    assert Clear(f, v, q);
  }

  lemma FoundMade(f: Finding, s: Progress, tree: Tree, it: Item, k: nat, v: int)
    requires AllMade(f, s, tree, it.nodeID, k) && it.nodeID in tree && it.path == tree[it.nodeID] && v !in tree
    requires it.nodeID in f.l.out && k < |f.l.out[it.nodeID]|
    ensures var q := Extended(it.path, f.l.out[it.nodeID][k], v);
            AllMade(f, s.(depth := s.depth[v := s.d + 1], queue := s.queue + [Item(v, q)]), tree[v := q], it.nodeID,
              k + 1)
  {
    hide Made, MadeBy;
    var u, q := it.nodeID, Extended(it.path, f.l.out[it.nodeID][k], v);
    var s', tree' := s.(depth := s.depth[v := s.d + 1], queue := s.queue + [Item(v, q)]), tree[v := q];
    forall x, p | Made(f, s, tree, u, k, x, p) ensures Made(f, s', tree', u, k + 1, x, p) {
      StillMade(f, s, tree, u, k, x, p, s', tree');
    }
    MadeNow(f, s', tree', it, k, v);
  }

  lemma StillMade(f: Finding, s: Progress, tree: Tree, u: int, k: nat, x: int, p: Path, s': Progress, tree': Tree)
    requires Made(f, s, tree, u, k, x, p) && s'.done == s.done
    requires forall y :: y in tree ==> y in tree' && tree'[y] == tree[y]
    ensures Made(f, s', tree', u, k + 1, x, p)
  {
    var y, j: nat :| MadeBy(f, s, tree, u, k, x, p, y, j);
    assert MadeBy(f, s', tree', u, k + 1, x, p, y, j);
  }

  lemma FoundLine(f: Finding, s: Progress, tree: Tree, it: Item, k: nat, v: int)
    requires TreeOk(f, s, tree) && AllMade(f, s, tree, it.nodeID, k) && QueueInLine(f, s, tree)
    requires ItemInLine(f, s, tree, it) && it.nodeID in f.l.out && k < |f.l.out[it.nodeID]| && v !in tree
    ensures var q := Extended(it.path, f.l.out[it.nodeID][k], v);
            var s', tree' := s.(depth := s.depth[v := s.d + 1], queue := s.queue + [Item(v, q)]), tree[v := q];
            QueueInLine(f, s', tree') && ItemInLine(f, s', tree', it)
  {
    hide Made, Clear, Simple, Precedes;
    var u, q := it.nodeID, Extended(it.path, f.l.out[it.nodeID][k], v);
    forall x | x in tree ensures Less(f.l, tree[x], q) {
      if x != f.from {
        MadeBefore(f, s, tree, it, k, x, tree[x], v);
      }
    }
  }

  lemma FoundFirsts(f: Finding, s: Progress, tree: Tree, it: Item, k: nat, v: int)
    requires Inner(f, s, it, k) && InnerOrder(f, s, tree, it, k) && LinksOk(f.l)
    requires k < |f.l.out[it.nodeID]| && Step(f.l, f.c, it.nodeID, f.l.out[it.nodeID][k], v)
    requires v !in s.depth && v != f.to
    ensures First(f, tree[v := Extended(it.path, f.l.out[it.nodeID][k], v)])
  {
    hide Step, Inner, InnerOrder, LinksOk, Less, Clear, Precedes;
    OrderParts(f, s, tree, it, k);
    var q := Extended(it.path, f.l.out[it.nodeID][k], v);
    forall w | Clear(f, v, w) && |w.Edges| == |q.Edges| ensures w == q || Precedes(f.l, q, w) {
      FoundFirst(f, s, tree, it, k, v, w);
    }
  }

  lemma OrderParts(f: Finding, s: Progress, tree: Tree, it: Item, k: nat)
    requires Inner(f, s, it, k) && InnerOrder(f, s, tree, it, k)
    ensures First(f, tree) && |it.path.Edges| == s.d && tree.Keys == s.depth.Keys
    ensures it.nodeID in tree && it.path == tree[it.nodeID] && it.nodeID in f.l.out && k <= |f.l.out[it.nodeID]|
  {
    hide Step, QueueOk, PathsOk, DoneOk, DepthOk, Once, FreshQueue, Expanded, Less, Clear;
  }

  // ----- the answer -----

  /**
   The answer in order: shorter paths first, of two as long the one that parts over the edge listed first; and each
   path comes to its last step by the first of all walks that are as long and keep clear of the target.
   */
  ghost predicate InLine(l: Links, c: Config, from: int, to: int, paths: seq<Path>) {
    && PathsInLine(l, paths)
    && forall i, w :: 0 <= i < |paths| && |paths[i].Nodes| == |paths[i].Edges| + 1 >= 2 &&
                      Approach(l, c, from, to, paths[i].Nodes[|paths[i].Edges| - 1], w) &&
                      |w.Edges| == |paths[i].Edges| - 1 ==>
         w == Before(paths[i]) || Precedes(l, Before(paths[i]), w)
  }

  lemma LastOrder(f: Finding, s: Progress, tree: Tree)
    requires RoundOrder(f, s, tree)
    ensures InLine(f.l, f.c, f.from, f.to, s.paths)
  {
    hide Less, Precedes, IsWalk, Between, Simple, Step, PathsInLine;
    forall i, w | 0 <= i < |s.paths| && |s.paths[i].Nodes| == |s.paths[i].Edges| + 1 >= 2 &&
                  Approach(f.l, f.c, f.from, f.to, s.paths[i].Nodes[|s.paths[i].Edges| - 1], w) &&
                  |w.Edges| == |s.paths[i].Edges| - 1
      ensures w == Before(s.paths[i]) || Precedes(f.l, Before(s.paths[i]), w)
    {
      var p := s.paths[i];
      assert Made(f, s, tree, 0, 0, f.to, p);
      var y, j: nat :| MadeBy(f, s, tree, 0, 0, f.to, p, y, j);
      WalkEnds(f, y, tree[y]);
      assert Before(p) == tree[y] && p.Nodes[|p.Edges| - 1] == y;
      FirstOf(f, tree, y, w);
    }
  }

  // ----- there is one answer only -----

  lemma BfsPathParts(l: Links, c: Config, from: int, to: int, p: Path)
    requires IsBfsPath(l, c, from, to, p)
    ensures |p.Nodes| == |p.Edges| + 1 >= 2 && IsWalk(l, c, p) && Simple(p)
    ensures var u, e := p.Nodes[|p.Edges| - 1], p.Edges[|p.Edges| - 1];
            && Approach(l, c, from, to, u, Before(p)) && Simple(Before(p)) && EndsBy(p, u, e)
            && p == Extended(Before(p), e, to)
  {
    hide Step;
    var n, b := |p.Edges|, Before(p);
    forall j | 0 <= j < n - 1 ensures Step(l, c, b.Nodes[j], b.Edges[j], b.Nodes[j + 1]) {
      assert Step(l, c, p.Nodes[j], p.Edges[j], p.Nodes[j + 1]);
    }
    forall j | 0 <= j < n ensures b.Nodes[j] != to {
      assert p.Nodes[j] != p.Nodes[n];
    }
    assert p.Nodes == b.Nodes + [to] && p.Edges == b.Edges + [p.Edges[n - 1]];
  }

  lemma EndsAlike(l: Links, c: Config, from: int, to: int, ps: seq<Path>, qs: seq<Path>, i: nat) returns (j: nat)
    requires Answers(l, c, from, to, ps) && Answers(l, c, from, to, qs) && i < |ps|
    ensures IsBfsPath(l, c, from, to, ps[i]) && |ps[i].Nodes| == |ps[i].Edges| + 1 >= 2
    ensures j < |qs| && EndsBy(qs[j], ps[i].Nodes[|ps[i].Edges| - 1], ps[i].Edges[|ps[i].Edges| - 1])
  {
    hide Step, IsWalk, Between, Simple, EndsDiffer, Approach, EndsBy;
    var p := ps[i];
    BfsPathParts(l, c, from, to, p);
    var u, e := p.Nodes[|p.Edges| - 1], p.Edges[|p.Edges| - 1];
    assert HasEnd(ps, u, e);
    assert HasEnd(qs, u, e);
    j :| 0 <= j < |qs| && EndsBy(qs[j], u, e);
  }

  lemma NoLonger(l: Links, c: Config, from: int, to: int, ps: seq<Path>, i: nat, u: int, e: Edge, w: Path)
    requires Answers(l, c, from, to, ps) && i < |ps| && EndsBy(ps[i], u, e) && Approach(l, c, from, to, u, w)
    ensures |ps[i].Edges| <= |w.Edges| + 1
  {
    hide Step, IsWalk, Between, Simple, EndsDiffer, Approach, EndsBy, HasEnd, IsBfsPath;
  }

  lemma FirstInLine(l: Links, c: Config, from: int, to: int, ps: seq<Path>, i: nat, u: int, e: Edge, w: Path)
    requires InLine(l, c, from, to, ps) && i < |ps| && EndsBy(ps[i], u, e) && Approach(l, c, from, to, u, w)
    requires |w.Edges| == |ps[i].Edges| - 1
    ensures w == Before(ps[i]) || Precedes(l, Before(ps[i]), w)
  {
    hide PathsInLine, Approach, Precedes;
  }

  lemma InOther(l: Links, c: Config, from: int, to: int, ps: seq<Path>, qs: seq<Path>, i: nat)
    requires LinksOk(l) && i < |ps|
    requires Answers(l, c, from, to, ps) && InLine(l, c, from, to, ps)
    requires Answers(l, c, from, to, qs) && InLine(l, c, from, to, qs)
    ensures ps[i] in qs
  {
    hide LinksOk, Answers, InLine, IsBfsPath, Approach, IsWalk, Simple, Precedes;
    var j := EndsAlike(l, c, from, to, ps, qs, i);
    var i' := EndsAlike(l, c, from, to, qs, ps, j);
    var p, q := ps[i], qs[j];
    BfsPathParts(l, c, from, to, p);
    BfsPathParts(l, c, from, to, q);
    var u, e := p.Nodes[|p.Edges| - 1], p.Edges[|p.Edges| - 1];
    NoLonger(l, c, from, to, ps, i, u, e, Before(q));
    NoLonger(l, c, from, to, qs, j, u, e, Before(p));
    FirstInLine(l, c, from, to, ps, i, u, e, Before(q));
    FirstInLine(l, c, from, to, qs, j, u, e, Before(p));
    ApproachIsWalk(l, c, from, to, u, Before(p));
    ApproachIsWalk(l, c, from, to, u, Before(q));
    NotBoth(l, c, Before(p), Before(q));
  }

  lemma ApproachIsWalk(l: Links, c: Config, from: int, to: int, u: int, w: Path)
    requires Approach(l, c, from, to, u, w)
    ensures IsWalk(l, c, w)
  {
  }

  ghost predicate AllSimple(l: Links, c: Config, ps: seq<Path>) {
    forall i :: 0 <= i < |ps| ==> IsWalk(l, c, ps[i]) && Simple(ps[i])
  }

  lemma NotLess(l: Links, c: Config, p: Path, q: Path)
    requires LinksOk(l) && IsWalk(l, c, p) && Simple(p) && IsWalk(l, c, q) && Simple(q)
    ensures !(Less(l, p, q) && Less(l, q, p))
  {
    hide LinksOk, IsWalk, Simple, Precedes;
    NotBoth(l, c, p, q);
  }

  lemma LastAlike(l: Links, c: Config, ps: seq<Path>, qs: seq<Path>)
    requires LinksOk(l) && AllSimple(l, c, ps) && AllSimple(l, c, qs) && PathsInLine(l, ps) && PathsInLine(l, qs)
    requires ps != [] && qs != [] && forall p :: p in ps <==> p in qs
    ensures ps[|ps| - 1] == qs[|qs| - 1]
  {
    hide LinksOk, IsWalk, Simple, Less;
    var p, q := ps[|ps| - 1], qs[|qs| - 1];
    assert p in ps && q in qs;
    var j :| 0 <= j < |qs| && qs[j] == p;
    var i :| 0 <= i < |ps| && ps[i] == q;
    NotLess(l, c, p, q);
  }

  lemma FrontAlike(l: Links, c: Config, ps: seq<Path>, qs: seq<Path>, x: Path)
    requires LinksOk(l) && AllSimple(l, c, ps) && PathsInLine(l, ps)
    requires ps != [] && qs != [] && ps[|ps| - 1] == qs[|qs| - 1] && forall p :: p in ps ==> p in qs
    ensures x in ps[..|ps| - 1] ==> x in qs[..|qs| - 1]
  {
    hide LinksOk, IsWalk, Simple, Less;
    if x in ps[..|ps| - 1] {
      var i :| 0 <= i < |ps| - 1 && ps[i] == x;
      NotLess(l, c, x, x);
      assert x in ps && Less(l, ps[i], ps[|ps| - 1]);
      var j :| 0 <= j < |qs| && qs[j] == x;
    }
  }

  lemma {:induction false} LinesAlike(l: Links, c: Config, ps: seq<Path>, qs: seq<Path>)
    requires LinksOk(l) && AllSimple(l, c, ps) && AllSimple(l, c, qs) && PathsInLine(l, ps) && PathsInLine(l, qs)
    requires forall p :: p in ps <==> p in qs
    ensures ps == qs
  {
    hide LinksOk, IsWalk, Simple, Less;
    assert qs != [] ==> qs[0] in qs;
    if ps != [] {
      assert ps[0] in ps;
      LastAlike(l, c, ps, qs);
      var ps', qs' := ps[..|ps| - 1], qs[..|qs| - 1];
      forall x ensures x in ps' <==> x in qs' {
        FrontAlike(l, c, ps, qs, x);
        FrontAlike(l, c, qs, ps, x);
      }
      LinesAlike(l, c, ps', qs');
      assert ps == ps' + [ps[|ps| - 1]] && qs == qs' + [qs[|qs| - 1]];
    }
  }

  lemma AnswersAreSimple(l: Links, c: Config, from: int, to: int, ps: seq<Path>)
    requires Answers(l, c, from, to, ps)
    ensures AllSimple(l, c, ps)
  {
    hide IsWalk, Simple, Approach, HasEnd, EndsDiffer, EndsBy, Step;
  }

  /** The links, the limit and the two nodes determine the list of paths. */
  lemma OneAnswer(l: Links, c: Config, from: int, to: int, ps: seq<Path>, qs: seq<Path>)
    requires LinksOk(l)
    requires Answers(l, c, from, to, ps) && InLine(l, c, from, to, ps)
    requires Answers(l, c, from, to, qs) && InLine(l, c, from, to, qs)
    ensures ps == qs
  {
    hide LinksOk, Answers, InLine, AllSimple;
    AnswersAreSimple(l, c, from, to, ps);
    AnswersAreSimple(l, c, from, to, qs);
    forall p ensures p in ps <==> p in qs {
      if p in ps {
        var i :| 0 <= i < |ps| && ps[i] == p;
        InOther(l, c, from, to, ps, qs, i);
      }
      if p in qs {
        var i :| 0 <= i < |qs| && qs[i] == p;
        InOther(l, c, from, to, qs, ps, i);
      }
    }
    LinesOf(l, c, from, to, ps);
    LinesOf(l, c, from, to, qs);
    LinesAlike(l, c, ps, qs);
  }

  lemma LinesOf(l: Links, c: Config, from: int, to: int, ps: seq<Path>)
    requires InLine(l, c, from, to, ps)
    ensures PathsInLine(l, ps)
  {
  }
}
