// What holds between the rounds of the breadth-first search, and what follows when its queue is empty.
module SearchModel {
  import opened PathModel

  /** A discovered node with the path to it. */
  datatype Item = Item(nodeID: int, path: Path)

  /** What is searched for: paths over these links from one node to another. */
  datatype Finding = Finding(l: Links, c: Config, from: int, to: int)

  /**
   The depth of each discovered node, the queue, the paths found, the nodes taken from the queue, and the depth
   reached.
   */
  datatype Progress = Progress(depth: map<int, nat>, queue: seq<Item>, paths: seq<Path>, done: set<int>, d: nat)

  ghost predicate Within(c: Config, p: Path) {
    c.MaxDepth > 0 ==> |p.Edges| <= c.MaxDepth
  }

  /** A path that the search may return: simple, of at least one edge, within the limit. */
  ghost predicate IsBfsPath(l: Links, c: Config, from: int, to: int, p: Path) {
    IsWalk(l, c, p) && Between(p, from, to) && Simple(p) && |p.Edges| > 0 && Within(c, p)
  }

  function Extended(p: Path, e: Edge, v: int): Path {
    Path(p.Nodes + [v], p.Edges + [e])
  }

  /** A path to a discovered node, over discovered nodes, as long as the node is deep. */
  ghost predicate ItemOk(l: Links, c: Config, from: int, depth: map<int, nat>, it: Item) {
    && IsWalk(l, c, it.path) && Between(it.path, from, it.nodeID) && Simple(it.path)
    && it.nodeID in depth && |it.path.Edges| == depth[it.nodeID]
    && forall i :: 0 <= i < |it.path.Nodes| ==> it.path.Nodes[i] in depth
  }

  /** The queue is sorted by depth and spans at most two depths, d and d + 1. */
  ghost predicate QueueOk(l: Links, c: Config, from: int, depth: map<int, nat>, queue: seq<Item>, d: nat) {
    && (forall i :: 0 <= i < |queue| ==> ItemOk(l, c, from, depth, queue[i]) && d <= |queue[i].path.Edges| <= d + 1)
    && (forall i, j :: 0 <= i < j < |queue| ==> |queue[i].path.Edges| <= |queue[j].path.Edges|)
  }

  ghost predicate PathsOk(l: Links, c: Config, from: int, to: int, paths: seq<Path>, d: nat) {
    && (forall i :: 0 <= i < |paths| ==> IsBfsPath(l, c, from, to, paths[i]) && |paths[i].Edges| <= d + 1)
    && (forall i, j :: 0 <= i < j < |paths| ==> |paths[i].Edges| <= |paths[j].Edges|)
  }

  /** The last step of a path is from u over e. */
  predicate EndsBy(p: Path, u: int, e: Edge) {
    |p.Nodes| == |p.Edges| + 1 >= 2 && p.Nodes[|p.Edges| - 1] == u && p.Edges[|p.Edges| - 1] == e
  }

  ghost predicate HasEnd(paths: seq<Path>, u: int, e: Edge) {
    exists i :: 0 <= i < |paths| && EndsBy(paths[i], u, e)
  }

  /** What expanding u over e to v must have left behind. */
  ghost predicate Seen(to: int, depth: map<int, nat>, paths: seq<Path>, u: int, e: Edge, v: int)
    requires u in depth
  {
    if v == to then |paths| > 0 && |paths[0].Edges| <= depth[u] + 1 && HasEnd(paths, u, e)
    else v in depth && depth[v] <= depth[u] + 1
  }

  ghost predicate Expanded(l: Links, c: Config, to: int, depth: map<int, nat>, paths: seq<Path>, u: int)
    requires u in depth
  {
    forall e, v :: Step(l, c, u, e, v) ==> Seen(to, depth, paths, u, e, v)
  }

  /** The nodes taken from the queue are expanded, unless they are at the limit. */
  ghost predicate DoneOk(l: Links, c: Config, to: int, depth: map<int, nat>, paths: seq<Path>, done: set<int>, d: nat) {
    forall u :: u in done ==>
      u in depth && depth[u] <= d && (c.MaxDepth <= 0 || depth[u] < c.MaxDepth ==> Expanded(l, c, to, depth, paths, u))
  }

  ghost predicate DepthOk(l: Links, from: int, to: int, depth: map<int, nat>, queue: seq<Item>, done: set<int>,
                          d: nat) {
    && from in depth && depth[from] == 0 && to !in depth && depth.Keys <= l.alive
    && (forall u :: u in depth ==> depth[u] <= d + 1 && (u in done || InQueue(queue, u)))
  }

  ghost predicate InQueue(queue: seq<Item>, u: int) {
    exists i :: 0 <= i < |queue| && queue[i].nodeID == u
  }

  // ----- extending a path -----

  lemma ExtendedWalk(l: Links, c: Config, from: int, p: Path, u: int, e: Edge, v: int)
    requires IsWalk(l, c, p) && Between(p, from, u) && Simple(p) && Step(l, c, u, e, v)
    requires forall i :: 0 <= i < |p.Nodes| ==> p.Nodes[i] != v
    ensures var q := Extended(p, e, v);
            IsWalk(l, c, q) && Between(q, from, v) && Simple(q) && |q.Edges| == |p.Edges| + 1
  {
    hide Step;
  }

  /** A newly discovered node goes to the end of the queue. */
  lemma Discovered(f: Finding, s: Progress, it: Item, e: Edge, v: int)
    requires ItemOk(f.l, f.c, f.from, s.depth, it) && |it.path.Edges| == s.d &&
             QueueOk(f.l, f.c, f.from, s.depth, s.queue, s.d)
    requires Step(f.l, f.c, it.nodeID, e, v) && v !in s.depth
    ensures QueueOk(f.l, f.c, f.from, s.depth[v := s.d + 1], s.queue + [Item(v, Extended(it.path, e, v))], s.d)
  {
    hide Step, IsWalk, Simple, Between;
    var depth' := s.depth[v := s.d + 1];
    ExtendedWalk(f.l, f.c, f.from, it.path, it.nodeID, e, v);
    assert ItemOk(f.l, f.c, f.from, depth', Item(v, Extended(it.path, e, v)));
    forall i | 0 <= i < |s.queue| ensures ItemOk(f.l, f.c, f.from, depth', s.queue[i]) {
      assert ItemOk(f.l, f.c, f.from, s.depth, s.queue[i]);
    }
  }

  /** A path to the target is recorded behind the others. */
  lemma Recorded(f: Finding, s: Progress, it: Item, e: Edge)
    requires ItemOk(f.l, f.c, f.from, s.depth, it) && |it.path.Edges| == s.d &&
             PathsOk(f.l, f.c, f.from, f.to, s.paths, s.d)
    requires Step(f.l, f.c, it.nodeID, e, f.to) && f.to !in s.depth && (f.c.MaxDepth > 0 ==> s.d < f.c.MaxDepth)
    ensures PathsOk(f.l, f.c, f.from, f.to, s.paths + [Extended(it.path, e, f.to)], s.d)
  {
    hide Step, IsWalk, Simple, Between;
    ExtendedWalk(f.l, f.c, f.from, it.path, it.nodeID, e, f.to);
  }

  lemma MoreEnds(paths: seq<Path>, paths': seq<Path>, u: int, e: Edge)
    requires paths <= paths'
    ensures HasEnd(paths, u, e) ==> HasEnd(paths', u, e)
  {
    if HasEnd(paths, u, e) {
      var i :| 0 <= i < |paths| && EndsBy(paths[i], u, e);
      assert EndsBy(paths'[i], u, e);
    }
  }

  lemma EndsByLast(paths: seq<Path>, p: Path, u: int, e: Edge, v: int)
    requires |p.Nodes| == |p.Edges| + 1 && p.Nodes[|p.Edges|] == u
    ensures EndsBy(Extended(p, e, v), u, e) && HasEnd(paths + [Extended(p, e, v)], u, e)
  {
    assert EndsBy((paths + [Extended(p, e, v)])[|paths|], u, e);
  }

  /** More nodes and more paths keep what was seen. */
  lemma StillDone(f: Finding, s: Progress, depth': map<int, nat>, paths': seq<Path>)
    requires DoneOk(f.l, f.c, f.to, s.depth, s.paths, s.done, s.d) && s.paths <= paths'
    requires forall u :: u in s.depth ==> u in depth' && depth'[u] == s.depth[u]
    ensures DoneOk(f.l, f.c, f.to, depth', paths', s.done, s.d)
  {
    hide Step, HasEnd;
    assert |s.paths| > 0 ==> paths'[0] == s.paths[0];
    forall u | u in s.done && (f.c.MaxDepth <= 0 || s.depth[u] < f.c.MaxDepth)
      ensures Expanded(f.l, f.c, f.to, depth', paths', u)
    {
      assert Expanded(f.l, f.c, f.to, s.depth, s.paths, u);
      forall e, v | Step(f.l, f.c, u, e, v) ensures Seen(f.to, depth', paths', u, e, v) {
        assert Seen(f.to, s.depth, s.paths, u, e, v);
        MoreEnds(s.paths, paths', u, e);
      }
    }
  }

  // ----- the end -----

  /** With an empty queue, a walk to the target within the limit has been beaten by the first path. */
  lemma {:induction false} WalkBeaten(f: Finding, s: Progress, w: Path, i: nat)
    requires DepthOk(f.l, f.from, f.to, s.depth, [], s.done, s.d) &&
             DoneOk(f.l, f.c, f.to, s.depth, s.paths, s.done, s.d)
    requires IsWalk(f.l, f.c, w) && Between(w, f.from, f.to) && Within(f.c, w) && i < |w.Nodes|
    ensures (|s.paths| > 0 && |s.paths[0].Edges| <= i) || (w.Nodes[i] in s.depth && s.depth[w.Nodes[i]] <= i)
  {
    hide Step;
    if i > 0 {
      WalkBeaten(f, s, w, i - 1);
      var u := w.Nodes[i - 1];
      assert Step(f.l, f.c, w.Nodes[i - 1], w.Edges[i - 1], w.Nodes[i - 1 + 1]);
      if u in s.depth && s.depth[u] <= i - 1 {
        assert u in s.done;
        assert Expanded(f.l, f.c, f.to, s.depth, s.paths, u);
        assert Seen(f.to, s.depth, s.paths, u, w.Edges[i - 1], w.Nodes[i]);
      }
    }
  }

  /** The first path is no longer than any walk to the target within the limit; there is one if there is such a walk. */
  lemma FirstIsShortest(f: Finding, s: Progress)
    requires DepthOk(f.l, f.from, f.to, s.depth, [], s.done, s.d) &&
             DoneOk(f.l, f.c, f.to, s.depth, s.paths, s.done, s.d)
    ensures forall w :: IsWalk(f.l, f.c, w) && Between(w, f.from, f.to) && Within(f.c, w) ==>
            |s.paths| > 0 && |s.paths[0].Edges| <= |w.Edges|
  {
    hide IsWalk, DoneOk;
    forall w | IsWalk(f.l, f.c, w) && Between(w, f.from, f.to) && Within(f.c, w)
      ensures |s.paths| > 0 && |s.paths[0].Edges| <= |w.Edges|
    {
      WalkLength(f.l, f.c, w);
      WalkBeaten(f, s, w, |w.Edges|);
    }
  }

  lemma WalkLength(l: Links, c: Config, w: Path)
    requires IsWalk(l, c, w)
    ensures |w.Nodes| == |w.Edges| + 1
  {
  }

  // ----- each node queued once, each last step taken once -----

  /** No node is in the queue twice, or in the queue and done. */
  ghost predicate FreshQueue(queue: seq<Item>, done: set<int>) {
    && (forall i :: 0 <= i < |queue| ==> queue[i].nodeID !in done)
    && (forall i, j :: 0 <= i < j < |queue| ==> queue[i].nodeID != queue[j].nodeID)
  }

  /**
   The path is one step longer than a node is deep that is done, or that is u, with the step over one of its first k
   edges.
   */
  ghost predicate EndOk(l: Links, depth: map<int, nat>, done: set<int>, u: int, k: nat, p: Path) {
    && |p.Nodes| == |p.Edges| + 1 >= 2
    && var x, e := p.Nodes[|p.Edges| - 1], p.Edges[|p.Edges| - 1];
       && x in depth && |p.Edges| == depth[x] + 1
       && (x in done || (x == u && u in l.out && k <= |l.out[u]| && e in l.out[u][..k]))
  }

  predicate SameEnd(p: Path, q: Path) {
    |p.Edges| > 0 && EndsBy(q, if |p.Nodes| == |p.Edges| + 1 then p.Nodes[|p.Edges| - 1] else 0, p.Edges[|p.Edges| - 1])
  }

  ghost predicate EndsDiffer(paths: seq<Path>) {
    forall i, j :: 0 <= i < j < |paths| ==> !SameEnd(paths[i], paths[j])
  }

  ghost predicate Once(l: Links, depth: map<int, nat>, queue: seq<Item>, paths: seq<Path>, done: set<int>, u: int,
                       k: nat) {
    && FreshQueue(queue, done) && EndsDiffer(paths)
    && forall i :: 0 <= i < |paths| ==> EndOk(l, depth, done, u, k, paths[i])
  }

  lemma OnceTaken(l: Links, depth: map<int, nat>, queue: seq<Item>, paths: seq<Path>, done: set<int>)
    requires Once(l, depth, queue, paths, done, 0, 0) && queue != []
    ensures queue[0].nodeID !in done && FreshQueue(queue[1..], done + {queue[0].nodeID})
    ensures Once(l, depth, queue[1..], paths, done, queue[0].nodeID, 0)
    ensures Once(l, depth, queue[1..], paths, done + {queue[0].nodeID}, 0, 0)
  {
  }

  lemma OncePassed(l: Links, depth: map<int, nat>, queue: seq<Item>, paths: seq<Path>, done: set<int>, u: int, k: nat)
    requires Once(l, depth, queue, paths, done, u, k) && u in l.out && k < |l.out[u]|
    ensures Once(l, depth, queue, paths, done, u, k + 1)
  {
    assert l.out[u][..k + 1] == l.out[u][..k] + [l.out[u][k]];
  }

  lemma NotListedBefore(l: Links, u: int, k: nat)
    requires LinksOk(l) && u in l.out && k < |l.out[u]| && NextOf(u, l.out[u][k]) != u
    ensures l.out[u][k] !in l.out[u][..k]
  {
    forall j | 0 <= j < k ensures l.out[u][..k][j] != l.out[u][k] {
      assert l.out[u][..k][j] == l.out[u][j];
    }
  }

  lemma OnceReached(f: Finding, s: Progress, u: int, k: nat, p: Path)
    requires Once(f.l, s.depth, s.queue, s.paths, s.done, u, k) && LinksOk(f.l) && u in f.l.out && k < |f.l.out[u]| &&
             u !in s.done
    requires NextOf(u, f.l.out[u][k]) == f.to != u && u in s.depth && |p.Nodes| == |p.Edges| + 1 == s.depth[u] + 1 &&
             p.Nodes[|p.Edges|] == u
    ensures Once(f.l, s.depth, s.queue, s.paths + [Extended(p, f.l.out[u][k], f.to)], s.done, u, k + 1)
  {
    var e := f.l.out[u][k];
    OncePassed(f.l, s.depth, s.queue, s.paths, s.done, u, k);
    NotListedBefore(f.l, u, k);
    forall i | 0 <= i < |s.paths| ensures !SameEnd(s.paths[i], Extended(p, e, f.to)) {
      assert EndOk(f.l, s.depth, s.done, u, k, s.paths[i]);
    }
  }

  lemma OnceFound(f: Finding, s: Progress, u: int, k: nat, it: Item, n: nat)
    requires Once(f.l, s.depth, s.queue, s.paths, s.done, u, k) && u in f.l.out && k < |f.l.out[u]| &&
             it.nodeID !in s.depth && it.nodeID !in s.done
    requires forall i :: 0 <= i < |s.queue| ==> s.queue[i].nodeID in s.depth
    ensures Once(f.l, s.depth[it.nodeID := n], s.queue + [it], s.paths, s.done, u, k + 1)
  {
    OncePassed(f.l, s.depth, s.queue, s.paths, s.done, u, k);
  }

  lemma OnceEnded(l: Links, depth: map<int, nat>, queue: seq<Item>, paths: seq<Path>, done: set<int>, u: int, k: nat)
    requires Once(l, depth, queue, paths, done, u, k) && FreshQueue(queue, done + {u})
    ensures Once(l, depth, queue, paths, done + {u}, 0, 0)
  {
  }

  // ----- rounds -----

  /** Between two rounds, at depth d. */
  ghost predicate Round(f: Finding, s: Progress) {
    && QueueOk(f.l, f.c, f.from, s.depth, s.queue, s.d) && PathsOk(f.l, f.c, f.from, f.to, s.paths, s.d)
    && DoneOk(f.l, f.c, f.to, s.depth, s.paths, s.done, s.d) &&
       DepthOk(f.l, f.from, f.to, s.depth, s.queue, s.done, s.d)
    && Once(f.l, s.depth, s.queue, s.paths, s.done, 0, 0)
  }

  /** Inside a round, after the first k edges of the item's node. */
  ghost predicate Inner(f: Finding, s: Progress, it: Item, k: nat) {
    && QueueOk(f.l, f.c, f.from, s.depth, s.queue, s.d) && PathsOk(f.l, f.c, f.from, f.to, s.paths, s.d)
    && DoneOk(f.l, f.c, f.to, s.depth, s.paths, s.done, s.d) &&
       DepthOk(f.l, f.from, f.to, s.depth, s.queue, s.done + {it.nodeID}, s.d)
    && ItemOk(f.l, f.c, f.from, s.depth, it) && |it.path.Edges| == s.d && (f.c.MaxDepth > 0 ==> s.d < f.c.MaxDepth)
    && Once(f.l, s.depth, s.queue, s.paths, s.done, it.nodeID, k) && FreshQueue(s.queue, s.done + {it.nodeID}) &&
       it.nodeID !in s.done
    && it.nodeID in f.l.out && k <= |f.l.out[it.nodeID]|
    && forall j, v :: 0 <= j < k && Step(f.l, f.c, it.nodeID, f.l.out[it.nodeID][j], v) ==>
       Seen(f.to, s.depth, s.paths, it.nodeID, f.l.out[it.nodeID][j], v)
  }

  lemma FirstRound(l: Links, c: Config, from: int, to: int)
    requires from in l.alive && from != to
    ensures Round(Finding(l, c, from, to), Progress(map[from := 0], [Item(from, Path([from], []))], [], {}, 0))
  {
    var queue := [Item(from, Path([from], []))];
    assert queue[0].nodeID == from;
  }

  /** Taking the first item: the depth may go up by one. */
  lemma TakeFirst(f: Finding, s: Progress)
    requires Round(f, s) && s.queue != []
    ensures var it := s.queue[0]; var d' := |it.path.Edges|;
            && ItemOk(f.l, f.c, f.from, s.depth, it)
            && QueueOk(f.l, f.c, f.from, s.depth, s.queue[1..], d') && PathsOk(f.l, f.c, f.from, f.to, s.paths, d')
            && DoneOk(f.l, f.c, f.to, s.depth, s.paths, s.done, d') &&
               DepthOk(f.l, f.from, f.to, s.depth, s.queue[1..], s.done + {it.nodeID}, d')
  {
    hide Expanded, IsBfsPath, IsWalk, Simple, Between;
    var it, rest := s.queue[0], s.queue[1..];
    assert ItemOk(f.l, f.c, f.from, s.depth, it);
    forall i | 0 <= i < |rest|
      ensures ItemOk(f.l, f.c, f.from, s.depth, rest[i]) && |it.path.Edges| <= |rest[i].path.Edges| <= s.d + 1
    {
      assert rest[i] == s.queue[i + 1];
    }
    forall i, j | 0 <= i < j < |rest| ensures |rest[i].path.Edges| <= |rest[j].path.Edges| {
      assert rest[i] == s.queue[i + 1] && rest[j] == s.queue[j + 1];
    }
    forall u | u in s.depth && u !in s.done && u != it.nodeID ensures InQueue(rest, u) {
      assert InQueue(s.queue, u);
      var i :| 0 <= i < |s.queue| && s.queue[i].nodeID == u;
      assert rest[i - 1].nodeID == u;
    }
  }

  /** An item at the limit is done without being expanded. */
  lemma SkipRound(f: Finding, s: Progress)
    requires Round(f, s) && s.queue != []
    requires f.c.MaxDepth > 0 && |s.queue[0].path.Edges| >= f.c.MaxDepth
    ensures Round(f, s.(queue := s.queue[1..], done := s.done + {s.queue[0].nodeID}, d := |s.queue[0].path.Edges|))
  {
    hide Expanded, QueueOk, PathsOk, DepthOk, Round, InQueue, Once;
    TakeFirst(f, s);
    RoundOnce(f, s);
    OnceTaken(f.l, s.depth, s.queue, s.paths, s.done);
    RoundFrom(f, s.(queue := s.queue[1..], done := s.done + {s.queue[0].nodeID}, d := |s.queue[0].path.Edges|));
  }

  lemma RoundFrom(f: Finding, s: Progress)
    requires QueueOk(f.l, f.c, f.from, s.depth, s.queue, s.d) && PathsOk(f.l, f.c, f.from, f.to, s.paths, s.d)
    requires DoneOk(f.l, f.c, f.to, s.depth, s.paths, s.done, s.d) &&
             DepthOk(f.l, f.from, f.to, s.depth, s.queue, s.done, s.d)
    requires Once(f.l, s.depth, s.queue, s.paths, s.done, 0, 0)
    ensures Round(f, s)
  {
  }

  lemma RoundOnce(f: Finding, s: Progress)
    requires Round(f, s)
    ensures Once(f.l, s.depth, s.queue, s.paths, s.done, 0, 0)
  {
  }

  lemma StartRound(f: Finding, s: Progress)
    requires Round(f, s) && s.queue != [] && f.l.out.Keys == f.l.alive
    requires !(f.c.MaxDepth > 0 && |s.queue[0].path.Edges| >= f.c.MaxDepth)
    ensures Inner(f, s.(queue := s.queue[1..], d := |s.queue[0].path.Edges|), s.queue[0], 0)
  {
    hide Expanded, QueueOk, PathsOk, DoneOk, Round, InQueue, IsWalk, Simple, Between, Once, FreshQueue;
    TakeFirst(f, s);
    RoundOnce(f, s);
    OnceTaken(f.l, s.depth, s.queue, s.paths, s.done);
  }

  /** An edge that is not allowed, or leads to a node already found, adds nothing. */
  lemma PassEdge(f: Finding, s: Progress, it: Item, k: nat)
    requires Inner(f, s, it, k) && k < |f.l.out[it.nodeID]|
    requires var e := f.l.out[it.nodeID][k];
             !Allowed(f.c, e) || NextOf(it.nodeID, e) in s.depth || NextOf(it.nodeID, e) !in f.l.alive
    ensures Inner(f, s, it, k + 1)
  {
    hide QueueOk, PathsOk, DoneOk, ItemOk, Allowed, NextOf, Once, FreshQueue;
    assert it.nodeID in s.depth && s.depth[it.nodeID] == s.d by { ItemDepth(f.l, f.c, f.from, s.depth, it); }
    OncePassed(f.l, s.depth, s.queue, s.paths, s.done, it.nodeID, k);
  }

  lemma ItemDepth(l: Links, c: Config, from: int, depth: map<int, nat>, it: Item)
    requires ItemOk(l, c, from, depth, it)
    ensures it.nodeID in depth && depth[it.nodeID] == |it.path.Edges|
  {
  }

  /** An edge to the target adds a path. */
  lemma ReachTarget(f: Finding, s: Progress, it: Item, k: nat)
    requires Inner(f, s, it, k) && k < |f.l.out[it.nodeID]|
    requires Step(f.l, f.c, it.nodeID, f.l.out[it.nodeID][k], f.to) && LinksOk(f.l)
    ensures Inner(f, s.(paths := s.paths + [Extended(it.path, f.l.out[it.nodeID][k], f.to)]), it, k + 1)
  {
    hide QueueOk, PathsOk, DoneOk, ItemOk, Step, Once, FreshQueue, LinksOk, HasEnd;
    var e := f.l.out[it.nodeID][k];
    ItemEnds(f.l, f.c, f.from, s.depth, it);
    StepLands(f.l, f.c, it.nodeID, e, f.to);
    OnceReached(f, s, it.nodeID, k, it.path);
    var paths' := s.paths + [Extended(it.path, e, f.to)];
    ItemDepth(f.l, f.c, f.from, s.depth, it);
    Recorded(f, s, it, e);
    StillDone(f, s, s.depth, paths');
    FirstIsShort(f.l, f.c, f.from, f.to, paths', s.d);
    forall j, v | 0 <= j < k + 1 && Step(f.l, f.c, it.nodeID, f.l.out[it.nodeID][j], v)
      ensures Seen(f.to, s.depth, paths', it.nodeID, f.l.out[it.nodeID][j], v)
    {
      if j < k {
        MoreEnds(s.paths, paths', it.nodeID, f.l.out[it.nodeID][j]);
        assert Seen(f.to, s.depth, s.paths, it.nodeID, f.l.out[it.nodeID][j], v);
      } else {
        OneTarget(f.l, f.c, it.nodeID, e, v, f.to);
        EndsByLast(s.paths, it.path, it.nodeID, e, f.to);
      }
    }
  }

  lemma OneTarget(l: Links, c: Config, u: int, e: Edge, v: int, v': int)
    requires Step(l, c, u, e, v) && Step(l, c, u, e, v')
    ensures v == v'
  {
  }

  lemma FirstIsShort(l: Links, c: Config, from: int, to: int, paths: seq<Path>, d: nat)
    requires PathsOk(l, c, from, to, paths, d) && paths != []
    ensures |paths[0].Edges| <= d + 1
  {
  }

  /** An edge to a node not found before adds the node. */
  lemma FindNode(f: Finding, s: Progress, it: Item, k: nat, v: int)
    requires Inner(f, s, it, k) && k < |f.l.out[it.nodeID]|
    requires Step(f.l, f.c, it.nodeID, f.l.out[it.nodeID][k], v) && v !in s.depth && v != f.to
    ensures Inner(f, s.(depth := s.depth[v := s.d + 1],
            queue := s.queue + [Item(v, Extended(it.path, f.l.out[it.nodeID][k], v))]), it, k + 1)
  {
    hide QueueOk, PathsOk, DoneOk, ItemOk, Step, DepthOk, Once, HasEnd;
    var e, depth' := f.l.out[it.nodeID][k], s.depth[v := s.d + 1];
    QueueDiscovered(f.l, f.c, f.from, s.depth, s.queue, s.d);
    DoneDiscovered(f, s, v);
    OnceFound(f, s, it.nodeID, k, Item(v, Extended(it.path, e, v)), s.d + 1);
    ItemDepth(f.l, f.c, f.from, s.depth, it);
    Discovered(f, s, it, e, v);
    ItemStays(f.l, f.c, f.from, s.depth, it, v, s.d + 1);
    StillDone(f, s, depth', s.paths);
    StepLands(f.l, f.c, it.nodeID, e, v);
    DepthGrows(f, s.(done := s.done + {it.nodeID}), v, Item(v, Extended(it.path, e, v)));
    forall j, w | 0 <= j < k + 1 && Step(f.l, f.c, it.nodeID, f.l.out[it.nodeID][j], w)
      ensures Seen(f.to, depth', s.paths, it.nodeID, f.l.out[it.nodeID][j], w)
    {
      if j < k {
        assert Seen(f.to, s.depth, s.paths, it.nodeID, f.l.out[it.nodeID][j], w);
      } else {
        OneTarget(f.l, f.c, it.nodeID, e, w, v);
      }
    }
  }

  lemma StepLands(l: Links, c: Config, u: int, e: Edge, v: int)
    requires Step(l, c, u, e, v)
    ensures v in l.alive && NextOf(u, e) == v
  {
  }

  lemma ItemEnds(l: Links, c: Config, from: int, depth: map<int, nat>, it: Item)
    requires ItemOk(l, c, from, depth, it)
    ensures |it.path.Nodes| == |it.path.Edges| + 1 && it.path.Nodes[|it.path.Edges|] == it.nodeID
    ensures it.nodeID in depth && depth[it.nodeID] == |it.path.Edges|
  {
  }

  lemma QueueDiscovered(l: Links, c: Config, from: int, depth: map<int, nat>, queue: seq<Item>, d: nat)
    requires QueueOk(l, c, from, depth, queue, d)
    ensures forall i :: 0 <= i < |queue| ==> queue[i].nodeID in depth
  {
    forall i | 0 <= i < |queue| ensures queue[i].nodeID in depth {
      assert ItemOk(l, c, from, depth, queue[i]);
    }
  }

  lemma DoneDiscovered(f: Finding, s: Progress, v: int)
    requires DoneOk(f.l, f.c, f.to, s.depth, s.paths, s.done, s.d) && v !in s.depth
    ensures v !in s.done
  {
  }

  lemma ItemStays(l: Links, c: Config, from: int, depth: map<int, nat>, it: Item, v: int, n: nat)
    requires ItemOk(l, c, from, depth, it) && v !in depth
    ensures ItemOk(l, c, from, depth[v := n], it)
  {
    hide IsWalk, Between, Simple;
  }

  lemma DepthGrows(f: Finding, s: Progress, v: int, it: Item)
    requires DepthOk(f.l, f.from, f.to, s.depth, s.queue, s.done, s.d) && v !in s.depth && v != f.to &&
             v in f.l.alive && it.nodeID == v
    ensures DepthOk(f.l, f.from, f.to, s.depth[v := s.d + 1], s.queue + [it], s.done, s.d)
  {
    forall u | u in s.depth[v := s.d + 1] ensures u in s.done || InQueue(s.queue + [it], u) {
      if u == v {
        assert (s.queue + [it])[|s.queue|].nodeID == u;
      } else if u !in s.done {
        assert InQueue(s.queue, u);
        var i :| 0 <= i < |s.queue| && s.queue[i].nodeID == u;
        assert (s.queue + [it])[i].nodeID == u;
      }
    }
  }

  /** With all its edges followed, the item's node is expanded. */
  lemma EndRound(f: Finding, s: Progress, it: Item)
    requires it.nodeID in f.l.out && Inner(f, s, it, |f.l.out[it.nodeID]|)
    ensures Round(f, s.(done := s.done + {it.nodeID}))
  {
    hide QueueOk, PathsOk, DepthOk, ItemOk, Once, FreshQueue, HasEnd;
    ItemDepth(f.l, f.c, f.from, s.depth, it);
    var u := it.nodeID;
    OnceEnded(f.l, s.depth, s.queue, s.paths, s.done, u, |f.l.out[u]|);
    forall e, v | Step(f.l, f.c, u, e, v) ensures Seen(f.to, s.depth, s.paths, u, e, v) {
      var j :| 0 <= j < |f.l.out[u]| && f.l.out[u][j] == e;
      assert Step(f.l, f.c, u, f.l.out[u][j], v);
    }
  }

  // ----- the answer -----

  /** A walk to u that keeps clear of the target and leaves room for one more step within the limit. */
  ghost predicate Approach(l: Links, c: Config, from: int, to: int, u: int, w: Path) {
    IsWalk(l, c, w) && Between(w, from, u) && to !in w.Nodes && (c.MaxDepth > 0 ==> |w.Edges| < c.MaxDepth)
  }

  /**
   The answer: all paths valid, in order of length, the first no longer than any walk within the limit; one
   path for each step into the target from a node that can be approached, none longer than needed for that step.
   */
  ghost predicate Answers(l: Links, c: Config, from: int, to: int, paths: seq<Path>) {
    && (forall i :: 0 <= i < |paths| ==> IsBfsPath(l, c, from, to, paths[i]))
    && (forall i, j :: 0 <= i < j < |paths| ==> |paths[i].Edges| <= |paths[j].Edges|)
    && (forall w :: IsWalk(l, c, w) && Between(w, from, to) && Within(c, w) ==>
       |paths| > 0 && |paths[0].Edges| <= |w.Edges|)
    && EndsDiffer(paths)
    && (forall u, e :: HasEnd(paths, u, e) <==> Step(l, c, u, e, to) && exists w :: Approach(l, c, from, to, u, w))
    && (forall i, u, e, w :: 0 <= i < |paths| && EndsBy(paths[i], u, e) && Approach(l, c, from, to, u, w) ==>
          |paths[i].Edges| <= |w.Edges| + 1)
  }

  lemma LastRound(f: Finding, s: Progress)
    requires Round(f, s) && s.queue == []
    ensures Answers(f.l, f.c, f.from, f.to, s.paths)
  {
    hide IsBfsPath, IsWalk, DoneOk, DepthOk, Approach, Step, EndsBy, HasEnd, EndsDiffer;
    FirstIsShortest(f, s);
    forall u, e
      ensures HasEnd(s.paths, u, e) <==>
              Step(f.l, f.c, u, e, f.to) && exists w :: Approach(f.l, f.c, f.from, f.to, u, w)
    {
      if HasEnd(s.paths, u, e) {
        var w := EndIsStep(f, s, u, e);
      }
      if Step(f.l, f.c, u, e, f.to) && exists w :: Approach(f.l, f.c, f.from, f.to, u, w) {
        var w :| Approach(f.l, f.c, f.from, f.to, u, w);
        StepIsEnd(f, s, u, e, w);
      }
    }
    forall i, u, e, w | 0 <= i < |s.paths| && EndsBy(s.paths[i], u, e) && Approach(f.l, f.c, f.from, f.to, u, w)
      ensures |s.paths[i].Edges| <= |w.Edges| + 1
    {
      ShortestToEnd(f, s, i, u, e, w);
    }
  }

  /** A walk that keeps clear of the target meets only discovered nodes, no deeper than they come. */
  lemma {:induction false} ApproachDiscovered(f: Finding, s: Progress, u: int, w: Path, i: nat)
    requires DepthOk(f.l, f.from, f.to, s.depth, [], s.done, s.d) &&
             DoneOk(f.l, f.c, f.to, s.depth, s.paths, s.done, s.d)
    requires Approach(f.l, f.c, f.from, f.to, u, w) && i < |w.Nodes|
    ensures w.Nodes[i] in s.depth && s.depth[w.Nodes[i]] <= i
  {
    hide Step;
    if i > 0 {
      ApproachDiscovered(f, s, u, w, i - 1);
      var x := w.Nodes[i - 1];
      assert Step(f.l, f.c, w.Nodes[i - 1], w.Edges[i - 1], w.Nodes[i - 1 + 1]);
      assert x in s.done;
      assert Expanded(f.l, f.c, f.to, s.depth, s.paths, x);
      assert w.Nodes[i] in w.Nodes;
      assert Seen(f.to, s.depth, s.paths, x, w.Edges[i - 1], w.Nodes[i]);
    }
  }

  lemma ApproachedEnd(f: Finding, s: Progress, u: int, w: Path)
    requires DepthOk(f.l, f.from, f.to, s.depth, [], s.done, s.d) &&
             DoneOk(f.l, f.c, f.to, s.depth, s.paths, s.done, s.d) && Approach(f.l, f.c, f.from, f.to, u, w)
    ensures u in s.depth && s.depth[u] <= |w.Edges|
  {
    hide Step, DepthOk, DoneOk;
    ApproachDiscovered(f, s, u, w, |w.Edges|);
  }

  lemma StepIsEnd(f: Finding, s: Progress, u: int, e: Edge, w: Path)
    requires Round(f, s) && s.queue == [] && Step(f.l, f.c, u, e, f.to) && Approach(f.l, f.c, f.from, f.to, u, w)
    ensures HasEnd(s.paths, u, e)
  {
    hide Step, HasEnd, IsWalk, Between, QueueOk, PathsOk, Once;
    ApproachedEnd(f, s, u, w);
    assert u in s.done && Expanded(f.l, f.c, f.to, s.depth, s.paths, u);
    assert Seen(f.to, s.depth, s.paths, u, e, f.to);
  }

  lemma ShortestToEnd(f: Finding, s: Progress, i: nat, u: int, e: Edge, w: Path)
    requires Round(f, s) && s.queue == [] && i < |s.paths| && EndsBy(s.paths[i], u, e) &&
             Approach(f.l, f.c, f.from, f.to, u, w)
    ensures |s.paths[i].Edges| <= |w.Edges| + 1
  {
    hide Step, HasEnd, IsWalk, Between, QueueOk, PathsOk, DepthOk, DoneOk, Approach;
    ApproachedEnd(f, s, u, w);
    assert EndOk(f.l, s.depth, s.done, 0, 0, s.paths[i]);
  }

  /** The path without its last step approaches the target. */
  lemma EndIsStep(f: Finding, s: Progress, u: int, e: Edge) returns (w: Path)
    requires PathsOk(f.l, f.c, f.from, f.to, s.paths, s.d) && HasEnd(s.paths, u, e)
    ensures Step(f.l, f.c, u, e, f.to) && Approach(f.l, f.c, f.from, f.to, u, w)
  {
    hide Step;
    var i :| 0 <= i < |s.paths| && EndsBy(s.paths[i], u, e);
    var p := s.paths[i];
    assert IsBfsPath(f.l, f.c, f.from, f.to, p);
    var n := |p.Edges| - 1;
    assert Step(f.l, f.c, p.Nodes[n], p.Edges[n], p.Nodes[n + 1]);
    w := Path(p.Nodes[..n + 1], p.Edges[..n]);
    forall j | 0 <= j < n ensures Step(f.l, f.c, w.Nodes[j], w.Edges[j], w.Nodes[j + 1]) {
      assert Step(f.l, f.c, p.Nodes[j], p.Edges[j], p.Nodes[j + 1]);
    }
    assert p.Nodes[n + 1] == f.to;
    forall j | 0 <= j < n + 1 ensures w.Nodes[j] != f.to {
      assert w.Nodes[j] == p.Nodes[j];
    }
  }

  /** No path is returned twice. */
  lemma AnswersDiffer(l: Links, c: Config, from: int, to: int, paths: seq<Path>)
    requires Answers(l, c, from, to, paths)
    ensures forall i, j :: 0 <= i < j < |paths| ==> paths[i] != paths[j]
  {
    hide Step, HasEnd, Approach;
    forall i, j | 0 <= i < j < |paths| ensures paths[i] != paths[j] {
      assert IsBfsPath(l, c, from, to, paths[i]) && !SameEnd(paths[i], paths[j]);
    }
  }

  /** There is a path in the answer exactly if the target can be reached by a walk within the limit. */
  lemma FoundIffReachable(l: Links, c: Config, from: int, to: int, paths: seq<Path>)
    requires Answers(l, c, from, to, paths)
    ensures paths != [] <==> exists w :: IsWalk(l, c, w) && Between(w, from, to) && Within(c, w)
  {
    hide IsWalk, Between, Step, HasEnd, Approach, EndsDiffer;
    if paths != [] {
      assert IsBfsPath(l, c, from, to, paths[0]);
    }
  }
}
