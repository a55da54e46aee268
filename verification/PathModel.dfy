// Walks and paths over the links of a graph, and the depth-first search as a function.
module PathModel {

  datatype Edge = Edge(ID: int, Type: string, FromID: int, ToID: int)

  /** A path as the ids of its nodes and the edges between them. */
  datatype Path = Path(Nodes: seq<int>, Edges: seq<Edge>)

  /** The live nodes, and the edges listed at each of them for the direction of a search. */
  datatype Links = Links(alive: set<int>, out: map<int, seq<Edge>>)

  /** MaxDepth of 0 or less means no limit; no edge types means all. */
  datatype Config = Config(MaxDepth: int, EdgeTypes: seq<string>)

  /** The other end of an edge, seen from u. */
  function NextOf(u: int, e: Edge): int {
    if u == e.ToID then e.FromID else e.ToID
  }

  predicate Allowed(c: Config, e: Edge) {
    c.EdgeTypes == [] || e.Type in c.EdgeTypes
  }

  ghost predicate LinksOk(l: Links) {
    && l.out.Keys == l.alive
    && forall u, i, j :: u in l.out && 0 <= i < j < |l.out[u]| && l.out[u][i] == l.out[u][j] ==>
       NextOf(u, l.out[u][i]) == u
  }

  /** One step from u over e to a live node. */
  ghost predicate Step(l: Links, c: Config, u: int, e: Edge, v: int) {
    u in l.out && e in l.out[u] && Allowed(c, e) && v == NextOf(u, e) && v in l.alive
  }

  ghost predicate IsWalk(l: Links, c: Config, p: Path) {
    && |p.Nodes| == |p.Edges| + 1 && p.Nodes[0] in l.alive
    && forall i :: 0 <= i < |p.Edges| ==> Step(l, c, p.Nodes[i], p.Edges[i], p.Nodes[i + 1])
  }

  ghost predicate Between(p: Path, from: int, to: int) {
    |p.Nodes| > 0 && p.Nodes[0] == from && p.Nodes[|p.Nodes| - 1] == to
  }

  ghost predicate Simple(p: Path) {
    forall i, j :: 0 <= i < j < |p.Nodes| ==> p.Nodes[i] != p.Nodes[j]
  }

  /** A path of a depth-first search: simple, of at least one edge, and of fewer edges than the limit. */
  ghost predicate IsDfsPath(l: Links, c: Config, from: int, to: int, p: Path) {
    IsWalk(l, c, p) && Between(p, from, to) && Simple(p) && |p.Edges| > 0 && (c.MaxDepth > 0 ==> |p.Edges| < c.MaxDepth)
  }

  // ----- the depth-first search -----

  /** The paths found from u, with the path that leads to u (and the edge into u) so far. */
  function Dfs(l: Links, c: Config, u: int, target: int, path: Path, visited: set<int>): (r: seq<Path>)
    requires u !in visited && l.out.Keys == l.alive
    decreases l.alive - visited, 0
  {
    if (c.MaxDepth > 0 && |path.Edges| >= c.MaxDepth) || u !in l.alive then []
    else
      var p := path.(Nodes := path.Nodes + [u]);
      if u == target && |p.Nodes| > 1 then [p]
      else
        assert u in l.alive - visited;
        DfsEdges(l, c, u, target, p, visited + {u}, |l.out[u]|)
  }

  /** The paths found over the first n edges at u. */
  function DfsEdges(l: Links, c: Config, u: int, target: int, p: Path, visited: set<int>, n: nat): (r: seq<Path>)
    requires u in l.out && n <= |l.out[u]| && l.out.Keys == l.alive
    decreases l.alive - visited, 1, n
  {
    if n == 0 then []
    else
      var e := l.out[u][n - 1];
      DfsEdges(l, c, u, target, p, visited, n - 1) +
      if NextOf(u, e) in visited || !Allowed(c, e) then []
      else Dfs(l, c, NextOf(u, e), target, p.(Edges := p.Edges + [e]), visited)
  }

  /** q continues the path by a simple walk from u to the target that avoids the visited nodes. */
  ghost predicate Completes(l: Links, c: Config, u: int, target: int, path: Path, visited: set<int>, q: Path) {
    var n := |path.Nodes|;
    && |path.Edges| == n < |q.Nodes| == |q.Edges| + 1
    && q.Nodes[..n] == path.Nodes && q.Edges[..n] == path.Edges
    && q.Nodes[n] == u && q.Nodes[|q.Edges|] == target && |q.Edges| > 0
    && Tail(l, c, q, n, visited)
    && (c.MaxDepth > 0 ==> |q.Edges| < c.MaxDepth)
  }

  /** From its n-th node on, q is a simple walk over live nodes that avoids the visited ones. */
  ghost predicate Tail(l: Links, c: Config, q: Path, n: nat, visited: set<int>)
    requires n < |q.Nodes| == |q.Edges| + 1
  {
    && (forall i :: n <= i < |q.Nodes| ==> q.Nodes[i] in l.alive && q.Nodes[i] !in visited)
    && (forall i :: n <= i < |q.Edges| ==> Step(l, c, q.Nodes[i], q.Edges[i], q.Nodes[i + 1]))
    && (forall i, j :: n <= i < j < |q.Nodes| ==> q.Nodes[i] != q.Nodes[j])
  }

  /** The tail one node further on, with the node left behind visited. */
  lemma TailSteps(l: Links, c: Config, q: Path, n: nat, visited: set<int>)
    requires n < |q.Edges| && |q.Nodes| == |q.Edges| + 1 && l.out.Keys == l.alive
    ensures var u, v := q.Nodes[n], q.Nodes[n + 1];
            Tail(l, c, q, n, visited) <==>
              u in l.alive && u !in visited && Step(l, c, u, q.Edges[n], v) && Tail(l, c, q, n + 1, visited + {u})
  {
    hide Step;
    var u := q.Nodes[n];
    if Tail(l, c, q, n + 1, visited + {u}) && u in l.alive && u !in visited &&
       Step(l, c, u, q.Edges[n], q.Nodes[n + 1])
    {
      forall i, j | n <= i < j < |q.Nodes| ensures q.Nodes[i] != q.Nodes[j] {
        assert i == n || n + 1 <= i;
      }
    }
  }

  lemma {:induction false} DfsIs(l: Links, c: Config, u: int, target: int, path: Path, visited: set<int>, q: Path)
    requires u !in visited && l.out.Keys == l.alive && |path.Nodes| == |path.Edges|
    ensures q in Dfs(l, c, u, target, path, visited) <==> Completes(l, c, u, target, path, visited, q)
    decreases l.alive - visited, 0
  {
    var n := |path.Nodes|;
    if (c.MaxDepth > 0 && |path.Edges| >= c.MaxDepth) || u !in l.alive {
    } else if u == target && n > 0 {
      var p := path.(Nodes := path.Nodes + [u]);
      if Completes(l, c, u, target, path, visited, q) {
        assert |q.Edges| == n;
        assert q.Edges == q.Edges[..n] && q.Nodes == q.Nodes[..n] + [u];
      }
      if q == p {
        assert p.Nodes[..n] == path.Nodes && p.Edges[..n] == path.Edges;
      }
    } else {
      assert u in l.alive - visited;
      var p := path.(Nodes := path.Nodes + [u]);
      DfsEdgesIs(l, c, u, target, p, visited + {u}, |l.out[u]|, q);
      CompletesByEdge(l, c, u, target, path, visited, q);
    }
  }

  /** q continues the path over one of the first n edges at u. */
  ghost predicate ByEdge(l: Links, c: Config, u: int, target: int, p: Path, visited: set<int>, n: nat, q: Path)
    requires u in l.out && n <= |l.out[u]|
  {
    exists k :: 0 <= k < n && OverEdge(l, c, u, target, p, visited, l.out[u][k], q)
  }

  ghost predicate OverEdge(l: Links, c: Config, u: int, target: int, p: Path, visited: set<int>, e: Edge, q: Path) {
    NextOf(u, e) !in visited && Allowed(c, e) &&
    Completes(l, c, NextOf(u, e), target, p.(Edges := p.Edges + [e]), visited, q)
  }

  lemma {:induction false} DfsEdgesIs(l: Links, c: Config, u: int, target: int, p: Path, visited: set<int>, n: nat,
                                      q: Path)
    requires u in l.out && n <= |l.out[u]| && l.out.Keys == l.alive && |p.Nodes| == |p.Edges| + 1
    ensures q in DfsEdges(l, c, u, target, p, visited, n) <==> ByEdge(l, c, u, target, p, visited, n, q)
    decreases l.alive - visited, 1, n
  {
    hide Completes;
    if n > 0 {
      var e := l.out[u][n - 1];
      DfsEdgesIs(l, c, u, target, p, visited, n - 1, q);
      if NextOf(u, e) !in visited {
        DfsIs(l, c, NextOf(u, e), target, p.(Edges := p.Edges + [e]), visited, q);
      }
    }
  }

  lemma CompletesByEdge(l: Links, c: Config, u: int, target: int, path: Path, visited: set<int>, q: Path)
    requires u in l.alive && u !in visited && l.out.Keys == l.alive && |path.Nodes| == |path.Edges|
    requires u != target || path.Nodes == []
    ensures Completes(l, c, u, target, path, visited, q) <==>
            ByEdge(l, c, u, target, path.(Nodes := path.Nodes + [u]), visited + {u}, |l.out[u]|, q)
  {
    var n, p := |path.Nodes|, path.(Nodes := path.Nodes + [u]);
    if Completes(l, c, u, target, path, visited, q) {
      TailSteps(l, c, q, n, visited);
      var e := q.Edges[n];
      var k :| 0 <= k < |l.out[u]| && l.out[u][k] == e;
      assert q.Nodes[..n + 1] == p.Nodes && q.Edges[..n + 1] == path.Edges + [e];
      assert OverEdge(l, c, u, target, p, visited + {u}, l.out[u][k], q);
    }
    if ByEdge(l, c, u, target, p, visited + {u}, |l.out[u]|, q) {
      var k :| 0 <= k < |l.out[u]| && OverEdge(l, c, u, target, p, visited + {u}, l.out[u][k], q);
      OverEdgeCompletes(l, c, u, target, path, visited, l.out[u][k], q);
    }
  }

  lemma OverEdgeCompletes(l: Links, c: Config, u: int, target: int, path: Path, visited: set<int>, e: Edge, q: Path)
    requires u in l.alive && u !in visited && l.out.Keys == l.alive && |path.Nodes| == |path.Edges| && e in l.out[u]
    requires OverEdge(l, c, u, target, path.(Nodes := path.Nodes + [u]), visited + {u}, e, q)
    ensures Completes(l, c, u, target, path, visited, q) && q.Edges[|path.Nodes|] == e
  {
    var n, p := |path.Nodes|, path.(Nodes := path.Nodes + [u]);
    assert q.Nodes[..n] == q.Nodes[..n + 1][..n] == path.Nodes;
    assert q.Edges[..n] == q.Edges[..n + 1][..n] == path.Edges;
    assert q.Nodes[n] == q.Nodes[..n + 1][n] == u;
    assert q.Edges[n] == q.Edges[..n + 1][n] == e;
    assert q.Nodes[n + 1] in l.alive;
    TailSteps(l, c, q, n, visited);
  }

  // ----- no path twice -----

  ghost predicate NoRepeats(ps: seq<Path>) {
    forall i, j :: 0 <= i < j < |ps| ==> ps[i] != ps[j]
  }

  lemma NoRepeatsJoin(a: seq<Path>, b: seq<Path>)
    requires NoRepeats(a) && NoRepeats(b) && forall q :: q in a ==> q !in b
    ensures NoRepeats(a + b)
  {
    forall i, j | 0 <= i < j < |a + b| ensures (a + b)[i] != (a + b)[j] {
      if i < |a| && |a| <= j {
        assert a[i] in a && b[j - |a|] in b;
      }
    }
  }

  lemma {:induction false} DfsNoRepeats(l: Links, c: Config, u: int, target: int, path: Path, visited: set<int>)
    requires LinksOk(l) && u !in visited && |path.Nodes| == |path.Edges|
    ensures NoRepeats(Dfs(l, c, u, target, path, visited))
    decreases l.alive - visited, 0
  {
    if !(c.MaxDepth > 0 && |path.Edges| >= c.MaxDepth) && u in l.alive && !(u == target && |path.Nodes| > 0) {
      assert u in l.alive - visited;
      DfsEdgesNoRepeats(l, c, u, target, path.(Nodes := path.Nodes + [u]), visited + {u}, |l.out[u]|);
    }
  }

  lemma {:induction false} DfsEdgesNoRepeats(l: Links, c: Config, u: int, target: int, p: Path, visited: set<int>,
                                             n: nat)
    requires LinksOk(l) && u in l.out && u in visited && n <= |l.out[u]| && |p.Nodes| == |p.Edges| + 1
    ensures NoRepeats(DfsEdges(l, c, u, target, p, visited, n))
    decreases l.alive - visited, 1, n
  {
    hide Completes, NoRepeats, ByEdge, OverEdge;
    if n == 0 {
      assert NoRepeats([]) by { NothingRepeats(); }
    } else {
      var e := l.out[u][n - 1];
      var front := DfsEdges(l, c, u, target, p, visited, n - 1);
      DfsEdgesNoRepeats(l, c, u, target, p, visited, n - 1);
      if NextOf(u, e) in visited || !Allowed(c, e) {
        assert front + [] == front;
      } else {
        var back := Dfs(l, c, NextOf(u, e), target, p.(Edges := p.Edges + [e]), visited);
        DfsNoRepeats(l, c, NextOf(u, e), target, p.(Edges := p.Edges + [e]), visited);
        forall q | q in front ensures q !in back {
          DfsEdgesIs(l, c, u, target, p, visited, n - 1, q);
          DfsIs(l, c, NextOf(u, e), target, p.(Edges := p.Edges + [e]), visited, q);
          OtherEdge(l, c, u, target, p, visited, n - 1, q);
        }
        NoRepeatsJoin(front, back);
      }
    }
  }

  lemma NothingRepeats()
    ensures NoRepeats([])
  {
  }

  /** A path over an earlier edge does not go over the n-th one. */
  lemma OtherEdge(l: Links, c: Config, u: int, target: int, p: Path, visited: set<int>, n: nat, q: Path)
    requires LinksOk(l) && u in l.out && u in visited && n < |l.out[u]|
    requires ByEdge(l, c, u, target, p, visited, n, q)
    ensures var e := l.out[u][n]; NextOf(u, e) !in visited ==>
              !Completes(l, c, NextOf(u, e), target, p.(Edges := p.Edges + [e]), visited, q)
  {
    var e := l.out[u][n];
    var k :| 0 <= k < n && OverEdge(l, c, u, target, p, visited, l.out[u][k], q);
    assert (p.Edges + [l.out[u][k]])[|p.Edges|] == q.Edges[|p.Edges|];
    assert (p.Edges + [e])[|p.Edges|] == e;
  }

  // ----- the order of the paths -----

  /** The paths part at some node, p over an edge listed there before that of q. */
  ghost predicate PartsAt(l: Links, p: Path, q: Path, n: nat) {
    && n < |p.Edges| && n < |q.Edges| && n < |p.Nodes| && n < |q.Nodes|
    && p.Nodes[..n + 1] == q.Nodes[..n + 1] && p.Edges[..n] == q.Edges[..n] && p.Nodes[n] in l.out
    && exists a, b :: 0 <= a < b < |l.out[p.Nodes[n]]| &&
         l.out[p.Nodes[n]][a] == p.Edges[n] && l.out[p.Nodes[n]][b] == q.Edges[n]
  }

  ghost predicate Precedes(l: Links, p: Path, q: Path) {
    exists n: nat :: PartsAt(l, p, q, n)
  }

  ghost predicate Ordered(l: Links, ps: seq<Path>) {
    forall i, j :: 0 <= i < j < |ps| ==> Precedes(l, ps[i], ps[j])
  }

  lemma OrderedJoin(l: Links, a: seq<Path>, b: seq<Path>)
    requires Ordered(l, a) && Ordered(l, b) && forall p, q :: p in a && q in b ==> Precedes(l, p, q)
    ensures Ordered(l, a + b)
  {
    hide Precedes;
    forall i, j | 0 <= i < j < |a + b| ensures Precedes(l, (a + b)[i], (a + b)[j]) {
      if i < |a| && |a| <= j {
        assert a[i] in a && b[j - |a|] in b;
      }
    }
  }

  lemma {:induction false} DfsOrdered(l: Links, c: Config, u: int, target: int, path: Path, visited: set<int>)
    requires l.out.Keys == l.alive && u !in visited && |path.Nodes| == |path.Edges|
    ensures Ordered(l, Dfs(l, c, u, target, path, visited))
    decreases l.alive - visited, 0
  {
    if !(c.MaxDepth > 0 && |path.Edges| >= c.MaxDepth) && u in l.alive && !(u == target && |path.Nodes| > 0) {
      assert u in l.alive - visited;
      DfsEdgesOrdered(l, c, u, target, path.(Nodes := path.Nodes + [u]), visited + {u}, |l.out[u]|);
    }
  }

  lemma {:induction false} DfsEdgesOrdered(l: Links, c: Config, u: int, target: int, p: Path, visited: set<int>, n: nat)
    requires l.out.Keys == l.alive && u in l.out && u in visited && n <= |l.out[u]| && |p.Nodes| == |p.Edges| + 1
    requires p.Nodes[|p.Edges|] == u
    ensures Ordered(l, DfsEdges(l, c, u, target, p, visited, n))
    decreases l.alive - visited, 1, n
  {
    hide Precedes, ByEdge, OverEdge, Completes, Dfs, Allowed;
    if n > 0 {
      var e := l.out[u][n - 1];
      var front := DfsEdges(l, c, u, target, p, visited, n - 1);
      DfsEdgesOrdered(l, c, u, target, p, visited, n - 1);
      if NextOf(u, e) in visited || !Allowed(c, e) {
        assert front + [] == front;
      } else {
        var p' := p.(Edges := p.Edges + [e]);
        var back := Dfs(l, c, NextOf(u, e), target, p', visited);
        DfsOrdered(l, c, NextOf(u, e), target, p', visited);
        forall x, y | x in front && y in back ensures Precedes(l, x, y) {
          DfsEdgesIs(l, c, u, target, p, visited, n - 1, x);
          DfsIs(l, c, NextOf(u, e), target, p', visited, y);
          EarlierEdge(l, c, u, target, p, visited, n - 1, x, y);
        }
        OrderedJoin(l, front, back);
      }
    }
  }

  /** A path over an earlier edge at u comes before one over the n-th. */
  lemma EarlierEdge(l: Links, c: Config, u: int, target: int, p: Path, visited: set<int>, n: nat, x: Path, y: Path)
    requires u in l.out && n < |l.out[u]| && |p.Nodes| == |p.Edges| + 1 && p.Nodes[|p.Edges|] == u
    requires ByEdge(l, c, u, target, p, visited, n, x)
    requires var e := l.out[u][n]; Completes(l, c, NextOf(u, e), target, p.(Edges := p.Edges + [e]), visited, y)
    ensures Precedes(l, x, y)
  {
    hide Tail;
    var m, e := |p.Edges|, l.out[u][n];
    var k :| 0 <= k < n && OverEdge(l, c, u, target, p, visited, l.out[u][k], x);
    assert (p.Edges + [l.out[u][k]])[m] == x.Edges[..m + 1][m] && (p.Edges + [e])[m] == y.Edges[..m + 1][m];
    assert x.Edges[..m] == x.Edges[..m + 1][..m] == p.Edges && y.Edges[..m] == y.Edges[..m + 1][..m] == p.Edges;
    assert x.Nodes[m] == x.Nodes[..m + 1][m] == u;
    assert PartsAt(l, x, y, m);
  }

  // ----- the result -----

  function AllPaths(l: Links, c: Config, from: int, to: int): seq<Path>
    requires l.out.Keys == l.alive
  {
    Dfs(l, c, from, to, Path([], []), {})
  }

  /** The search finds every simple path within the limit, and nothing else, each once. */
  lemma AllPathsAre(l: Links, c: Config, from: int, to: int)
    requires LinksOk(l)
    ensures forall q :: q in AllPaths(l, c, from, to) <==> IsDfsPath(l, c, from, to, q)
    ensures NoRepeats(AllPaths(l, c, from, to)) && Ordered(l, AllPaths(l, c, from, to))
  {
    hide Precedes;
    forall q ensures q in AllPaths(l, c, from, to) <==> IsDfsPath(l, c, from, to, q) {
      DfsIs(l, c, from, to, Path([], []), {}, q);
      WholeTail(l, c, q);
    }
    DfsNoRepeats(l, c, from, to, Path([], []), {});
    DfsOrdered(l, c, from, to, Path([], []), {});
  }

  lemma WholeTail(l: Links, c: Config, q: Path)
    ensures |q.Nodes| == |q.Edges| + 1 ==> (Tail(l, c, q, 0, {}) <==> IsWalk(l, c, q) && Simple(q))
  {
    if |q.Nodes| == |q.Edges| + 1 && IsWalk(l, c, q) {
      forall i | 0 <= i < |q.Nodes| ensures q.Nodes[i] in l.alive {
        if i > 0 {
          assert Step(l, c, q.Nodes[i - 1], q.Edges[i - 1], q.Nodes[i - 1 + 1]);
        }
      }
    }
  }
}
