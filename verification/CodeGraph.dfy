// The graph in memory: indexes changed in place, and the path searches over them.
module CodeGraph {
  import opened Results
  import opened PathModel
  import opened GraphModel
  import opened SearchModel
  import opened SearchOrder

  /** What a depth-first search marks and collects. */
  class Search {
    var visited: set<int>
    var paths: seq<Path>

    constructor ()
      ensures visited == {} && paths == []
    {
      visited, paths := {}, [];
    }
  }

  class Graph {
    var nextNodeID: int
    var nextEdgeID: int
    var nodeByID: map<int, Node>
    var edgeByID: map<int, Edge>
    var nodeByLabel: map<string, seq<int>>
    var nodeByProp: map<string, map<string, seq<int>>>
    var edgeByType: map<string, seq<int>>
    var edgeByFrom: map<int, seq<int>>
    var edgeByTo: map<int, seq<int>>

    ghost function State(): GraphModel.State
      reads this
    {
      GraphModel.State(nextNodeID, nextEdgeID, nodeByID, edgeByID, nodeByLabel, nodeByProp, edgeByType, edgeByFrom,
        edgeByTo)
    }

    ghost predicate Valid()
      reads this
    {
      GraphOk(State())
    }

    constructor ()
      ensures Valid() && nodeByID == map[] && edgeByID == map[] && nextNodeID == nextEdgeID == 1
    {
      nextNodeID, nextEdgeID := 1, 1;
      nodeByID, edgeByID := map[], map[];
      nodeByLabel, nodeByProp := map[], map[];
      edgeByType, edgeByFrom, edgeByTo := map[], map[], map[];
    }

    /** Add a node under the next id; the id is used up even if the store does not take the node. */
    method AddNode(labels: seq<string>, props: map<string, string>, stored: bool) returns (r: Result<Node>)
      requires Valid()
      modifies this
      ensures Valid() && nextNodeID == old(nextNodeID) + 1 && nextEdgeID == old(nextEdgeID) && edgeByID == old(edgeByID)
      ensures !stored ==> r == Err(StoreFailed) && nodeByID == old(nodeByID)
      ensures stored ==> r == Ok(Node(old(nextNodeID), labels, props))
      ensures stored ==> r.Ok? && nodeByID == old(nodeByID)[old(nextNodeID) := r.value]
    {
      hide GraphOk, LabelsAdded, PropsAdded;
      ghost var g := State();
      var node := Node(nextNodeID, labels, props);
      nextNodeID := nextNodeID + 1;
      if !stored {
        SkippedOk(g);
        return Err(StoreFailed);
      }
      EnterNode(node, g);
      return Ok(node);
    }

    /** Enter a node into the indexes, once its id is used up. */
    method EnterNode(node: Node, ghost g: GraphModel.State)
      requires GraphOk(g) && State() == g.(nextNodeID := g.nextNodeID + 1) && node.ID == g.nextNodeID
      modifies this`nodeByID, this`nodeByLabel, this`nodeByProp
      ensures Valid() && nodeByID == old(nodeByID)[node.ID := node]
    {
      hide GraphOk, LabelsAdded, PropsAdded;
      nodeByID := nodeByID[node.ID := node];
      IndexLabels(node);
      IndexProps(node);
      NodeAddedOk(g, State(), node);
    }

    method IndexLabels(node: Node)
      modifies this`nodeByLabel
      ensures LabelsAdded(old(nodeByLabel), nodeByLabel, node.Labels, node.ID)
    {
      hide LabelsAdded;
      NoLabelsAdded(nodeByLabel, node.ID);
      for i := 0 to |node.Labels|
        invariant LabelsAdded(old(nodeByLabel), nodeByLabel, node.Labels[..i], node.ID)
      {
        LabelAdded(old(nodeByLabel), nodeByLabel, node.Labels[..i], node.ID, node.Labels[i]);
        assert node.Labels[..i + 1] == node.Labels[..i] + [node.Labels[i]];
        nodeByLabel := nodeByLabel[node.Labels[i] := At(nodeByLabel, node.Labels[i]) + [node.ID]];
      }
      assert node.Labels[..|node.Labels|] == node.Labels;
    }

    /** The properties come in whatever order the map is walked. */
    method IndexProps(node: Node)
      modifies this`nodeByProp
      ensures PropsAdded(old(nodeByProp), nodeByProp, node.Properties, node.Properties.Keys, node.ID)
    {
      var todo := node.Properties.Keys;
      while todo != {}
        invariant todo <= node.Properties.Keys
        invariant PropsAdded(old(nodeByProp), nodeByProp, node.Properties, node.Properties.Keys - todo, node.ID)
        decreases |todo|
      {
        hide PropsAdded;
        var key :| key in todo;
        PropAdded(old(nodeByProp), nodeByProp, node.Properties, node.Properties.Keys - todo, node.ID, key);
        assert node.Properties.Keys - (todo - {key}) == node.Properties.Keys - todo + {key};
        todo := todo - {key};
        nodeByProp := WithProp(nodeByProp, key, node.Properties[key], node.ID);
      }
      assert node.Properties.Keys - todo == node.Properties.Keys;
    }

    /** Join two live nodes by an edge under the next id. */
    method AddEdge(edgeType: string, fromID: int, toID: int) returns (r: Result<Edge>)
      requires Valid()
      modifies this
      ensures Valid() && nodeByID == old(nodeByID) && nextNodeID == old(nextNodeID)
      ensures r.Ok? <==> fromID in nodeByID && toID in nodeByID
      ensures r.Ok? ==> r.value == Edge(old(nextEdgeID), edgeType, fromID, toID) && nextEdgeID == old(nextEdgeID) + 1
      ensures r.Ok? ==> edgeByID == old(edgeByID)[old(nextEdgeID) := r.value]
      ensures r.Err? ==> r == Err(NodeNotFound) && State() == old(State())
    {
      hide GraphOk, At;
      if fromID !in nodeByID || toID !in nodeByID {
        return Err(NodeNotFound);
      }
      var edge := Edge(nextEdgeID, edgeType, fromID, toID);
      WithEdgeOk(State(), edge);
      nextEdgeID := nextEdgeID + 1;
      edgeByID := edgeByID[edge.ID := edge];
      edgeByType := edgeByType[edge.Type := At(edgeByType, edge.Type) + [edge.ID]];
      edgeByFrom := edgeByFrom[fromID := At(edgeByFrom, fromID) + [edge.ID]];
      edgeByTo := edgeByTo[toID := At(edgeByTo, toID) + [edge.ID]];
      return Ok(edge);
    }

    method RemoveID(ids: seq<int>, target: int) returns (result: seq<int>)
      ensures result == Removed(ids, target)
    {
      result := [];
      for i := 0 to |ids|
        invariant result == Removed(ids[..i], target)
      {
        assert ids[..i + 1][..i] == ids[..i];
        if ids[i] != target {
          result := result + [ids[i]];
        }
      }
      assert ids[..|ids|] == ids;
    }

    /** Delete an edge. */
    method DeleteEdgeInternal(id: int) returns (r: Result<()>)
      requires Valid()
      modifies this
      ensures Valid() && nodeByID == old(nodeByID) && nextNodeID == old(nextNodeID) && nextEdgeID == old(nextEdgeID)
      ensures nodeByLabel == old(nodeByLabel)
      ensures edgeByID == old(edgeByID) - {id}
      ensures r == if id in old(edgeByID) then Ok(()) else Err(EdgeNotFound)
    {
      hide GraphOk, Removed, At;
      WithoutEdgeOk(State(), id);
      if id !in edgeByID {
        return Err(EdgeNotFound);
      }
      var edge := edgeByID[id];
      var ofType := RemoveID(At(edgeByType, edge.Type), id);
      edgeByType := edgeByType[edge.Type := ofType];
      var from := RemoveID(At(edgeByFrom, edge.FromID), id);
      edgeByFrom := edgeByFrom[edge.FromID := from];
      var to := RemoveID(At(edgeByTo, edge.ToID), id);
      edgeByTo := edgeByTo[edge.ToID := to];
      edgeByID := edgeByID - {id};
      return Ok(());
    }

    method DeleteEdge(id: int) returns (r: Result<()>)
      requires Valid()
      modifies this
      ensures Valid() && nodeByID == old(nodeByID) && nextNodeID == old(nextNodeID) && nextEdgeID == old(nextEdgeID)
      ensures edgeByID == old(edgeByID) - {id}
      ensures r == if id in old(edgeByID) then Ok(()) else Err(EdgeNotFound)
    {
      r := DeleteEdgeInternal(id);
    }

    /** Delete a node and every edge that joins it; its ids are not used again. */
    method DeleteNode(id: int) returns (r: Result<()>)
      requires Valid()
      modifies this
      ensures Valid() && nextNodeID == old(nextNodeID) && nextEdgeID == old(nextEdgeID)
      ensures r == if id in old(nodeByID) then Ok(()) else Err(NodeNotFound)
      ensures r.Err? ==> State() == old(State())
      ensures r.Ok? ==> nodeByID == old(nodeByID) - {id}
      ensures r.Ok? ==> edgeByID == map e | e in old(edgeByID) && !Joins(old(edgeByID)[e], id) :: old(edgeByID)[e]
    {
      hide GraphOk, LabelsCleared, Ids;
      if id !in nodeByID {
        return Err(NodeNotFound);
      }
      ghost var g := State();
      var edgeIDs := At(edgeByFrom, id) + At(edgeByTo, id);
      assert edgeIDs[..0] == [] && Ids([]) == {} by { NoIds(); }
      for i := 0 to |edgeIDs|
        invariant Valid() && nodeByID == g.nodeByID && nodeByLabel == g.nodeByLabel
        invariant nextNodeID == g.nextNodeID && nextEdgeID == g.nextEdgeID
        invariant edgeByID == g.edgeByID - Ids(edgeIDs[..i])
      {
        IdsBehind(edgeIDs, i);
        var _ := DeleteEdgeInternal(edgeIDs[i]);
      }
      assert edgeIDs[..|edgeIDs|] == edgeIDs;
      JoiningEdges(g, id, edgeIDs);
      ghost var g' := State();
      NoneJoins(g, id, edgeIDs, edgeByID);
      OwnID(g', id);
      UnindexLabels(nodeByID[id]);
      nodeByID := nodeByID - {id};
      NodeGoneOk(g', State(), id);
      return Ok(());
    }

    method UnindexLabels(node: Node)
      modifies this`nodeByLabel
      ensures LabelsCleared(old(nodeByLabel), nodeByLabel, node.Labels, node.ID)
    {
      for i := 0 to |node.Labels|
        invariant LabelsCleared(old(nodeByLabel), nodeByLabel, node.Labels[..i], node.ID)
      {
        hide LabelsCleared;
        LabelCleared(old(nodeByLabel), nodeByLabel, node.Labels[..i], node.ID, node.Labels[i]);
        assert node.Labels[..i + 1] == node.Labels[..i] + [node.Labels[i]];
        var ids := RemoveID(At(nodeByLabel, node.Labels[i]), node.ID);
        nodeByLabel := nodeByLabel[node.Labels[i] := ids];
      }
      assert node.Labels[..|node.Labels|] == node.Labels;
    }

    method PickNodes(ids: seq<int>, cond: Node -> bool) returns (result: seq<Node>)
      ensures result == Picked(ids, nodeByID, cond)
    {
      result := [];
      for i := 0 to |ids|
        invariant result == Picked(ids[..i], nodeByID, cond)
      {
        assert ids[..i + 1][..i] == ids[..i];
        if ids[i] in nodeByID && cond(nodeByID[ids[i]]) {
          result := result + [nodeByID[ids[i]]];
        }
      }
      assert ids[..|ids|] == ids;
    }

    /** All nodes, in whatever order the map is walked. */
    method AllNodes() returns (result: seq<Node>)
      requires Valid()
      ensures forall n :: Count(result, n) == if IsLive(State(), n) then 1 else 0
    {
      hide Indexed, LabelsIndexed, PropsIndexed, Count;
      result := [];
      assert forall n: Node :: Count([], n) == 0 by { NothingCounts<Node>(); }
      var todo := nodeByID.Keys;
      while todo != {}
        invariant todo <= nodeByID.Keys
        invariant forall n :: Count(result, n) == if IsLive(State(), n) && n.ID !in todo then 1 else 0
        decreases |todo|
      {
        SomeIn(todo);
        var id :| id in todo;
        todo := todo - {id};
        forall n ensures Count(result + [nodeByID[id]], n) == Count(result, n) + if n == nodeByID[id] then 1 else 0 {
          CountBehind(result, nodeByID[id], n);
        }
        result := result + [nodeByID[id]];
      }
    }

    /** Search by label, by property, or by both: through the index of the property if one is asked for. */
    method FindNodes(q: Query) returns (result: seq<Node>)
      requires Valid()
      ensures forall n :: Count(result, n) == Hits(State(), q, n)
      ensures q.Label != "" || q.Property != "" ==> NodesRising(result)
    {
      hide GraphOk, Picked, Count, Hits, At, PropAt, NodesRising;
      ghost var g := State();
      if q.Label == "" && q.Property == "" {
        result := AllNodes();
        EmptyHits(g, q);
        return;
      }
      if q.Property != "" {
        var cond := (n: Node) => q.Label == "" || q.Label in n.Labels;
        result := PickNodes(PropAt(nodeByProp, q.Property, q.Value), cond);
        forall n ensures Count(result, n) == Hits(g, q, n) {
          PickedHits(g, q, n, PropAt(nodeByProp, q.Property, q.Value), cond);
        }
        PropsInOrder(g, q.Property, q.Value, cond);
      } else {
        var cond := (n: Node) => true;
        result := PickNodes(At(nodeByLabel, q.Label), cond);
        forall n ensures Count(result, n) == Hits(g, q, n) {
          LabelHits(g, q, n, At(nodeByLabel, q.Label), cond);
        }
        LabelsInOrder(g, q.Label, cond);
      }
    }

    method PickEdges(ids: seq<int>) returns (result: seq<Edge>)
      ensures result == Picked(ids, edgeByID, Always)
    {
      result := [];
      for i := 0 to |ids|
        invariant result == Picked(ids[..i], edgeByID, Always)
      {
        assert ids[..i + 1][..i] == ids[..i];
        if ids[i] in edgeByID {
          result := result + [edgeByID[ids[i]]];
        }
      }
      assert ids[..|ids|] == ids;
    }

    /** The edges of a node in a direction: first those that leave it, then those that reach it. */
    method GetEdges(nodeID: int, dir: Direction) returns (result: seq<Edge>)
      ensures result == EdgesAt(State(), nodeID, dir)
      ensures Valid() ==> exists n: nat :: InTwoParts(State(), nodeID, dir, result, n)
    {
      hide InTwoParts, GraphOk;
      if Valid() {
        EdgesInOrder(State(), nodeID, dir);
      }
      result := [];
      if dir == Outgoing || dir == Both {
        result := PickEdges(At(edgeByFrom, nodeID));
      }
      if dir == Incoming || dir == Both {
        var more := PickEdges(At(edgeByTo, nodeID));
        result := result + more;
      }
    }

    /** Collect the paths to the target, depth first; the marks are taken back at the end. */
    method DfsFrom(s: Search, currentID: int, targetID: int, c: Config, dir: Direction, currentPath: Path)
      requires currentID !in s.visited
      modifies s
      ensures s.visited == old(s.visited)
      ensures s.paths == old(s.paths) + Dfs(LinksOf(State(), dir), c, currentID, targetID, currentPath, old(s.visited))
      decreases nodeByID.Keys - s.visited
    {
      hide EdgesAt, InTwoParts, GraphOk;
      if c.MaxDepth > 0 && |currentPath.Edges| >= c.MaxDepth {
        return;
      }
      if currentID !in nodeByID {
        return;
      }
      ghost var l, visited, paths := LinksOf(State(), dir), s.visited, s.paths;
      var path := currentPath.(Nodes := currentPath.Nodes + [currentID]);
      if currentID == targetID && |path.Nodes| > 1 {
        s.paths := s.paths + [path];
        return;
      }
      assert currentID in nodeByID.Keys - visited;
      s.visited := s.visited + {currentID};
      var edges := GetEdges(currentID, dir);
      ghost var p := path;
      for i := 0 to |edges|
        invariant s.visited == visited + {currentID} && path == p
        invariant s.paths == paths + DfsEdges(l, c, currentID, targetID, p, visited + {currentID}, i)
      {
        var edge := edges[i];
        var nextID := if currentID == edge.ToID then edge.FromID else edge.ToID;
        if nextID !in s.visited && Allowed(c, edge) {
          path := path.(Edges := path.Edges + [edge]);
          DfsFrom(s, nextID, targetID, c, dir, path);
          path := path.(Edges := path.Edges[..|path.Edges| - 1]);
        }
      }
      s.visited := s.visited - {currentID};
      assert s.visited == visited;
    }

    /** All simple paths from one node to another, of fewer edges than the limit, each once. */
    method FindAllPaths(fromID: int, toID: int, c: Config, dir: Direction) returns (allPaths: seq<Path>)
      requires Valid()
      ensures forall q :: q in allPaths <==> IsDfsPath(LinksOf(State(), dir), c, fromID, toID, q)
      ensures forall q :: q in allPaths <==>
                Joined(State(), dir, c.EdgeTypes, fromID, toID, q) && AllDiffer(q.Nodes) && |q.Edges| > 0 &&
                (c.MaxDepth > 0 ==> |q.Edges| < c.MaxDepth)
      ensures NoRepeats(allPaths) && Ordered(LinksOf(State(), dir), allPaths)
    {
      hide GraphOk, Dfs, LinksOf, NoRepeats, Ordered, IsWalk, Between, Joined;
      var s := new Search();
      DfsFrom(s, fromID, toID, c, dir, Path([], []));
      allPaths := s.paths;
      LinksOfOk(State(), dir);
      assert allPaths == AllPaths(LinksOf(State(), dir), c, fromID, toID);
      AllPathsAre(LinksOf(State(), dir), c, fromID, toID);
      forall q ensures IsWalk(LinksOf(State(), dir), c, q) && Between(q, fromID, toID) <==>
                       Joined(State(), dir, c.EdgeTypes, fromID, toID, q) {
        WalkIsJoined(State(), dir, c, fromID, toID, q);
      }
    }

    /** Paths from one node to another by breadth-first search; a node is queued only the first time it is met. */
    method FindPath(fromID: int, toID: int, c: Config, dir: Direction) returns (r: Result<seq<Path>>)
      requires Valid()
      ensures r.Err? <==> fromID !in nodeByID || toID !in nodeByID
      ensures r.Err? ==> r == Err(NodeNotFound)
      ensures r.Ok? && fromID == toID ==> r.value == [Path([fromID], [])]
      ensures r.Ok? && fromID != toID ==> Answers(LinksOf(State(), dir), c, fromID, toID, r.value)
      ensures r.Ok? && fromID != toID ==> Found(State(), dir, c, fromID, toID, r.value)
      ensures r.Ok? && fromID != toID ==> InLine(LinksOf(State(), dir), c, fromID, toID, r.value)
    {
      hide GraphOk, Round, Inner, Answers, Found, EdgesAt, LinksOk, RoundOrder, InnerOrder, InLine;
      if fromID !in nodeByID || toID !in nodeByID {
        return Err(NodeNotFound);
      }
      if fromID == toID {
        return Ok([Path([fromID], [])]);
      }
      ghost var find := Finding(LinksOf(State(), dir), c, fromID, toID);
      var queue := [Item(fromID, Path([fromID], []))];
      var visited := {fromID};
      var paths: seq<Path> := [];
      ghost var s := Progress(map[fromID := 0], queue, paths, {}, 0);
      ghost var tree: Tree := map[fromID := Path([fromID], [])];
      LinksOfOk(State(), dir);
      FirstRound(find.l, c, fromID, toID);
      FirstOrder(find.l, c, fromID, toID);
      while queue != []
        invariant visited == s.depth.Keys && visited <= find.l.alive && s.queue == queue && s.paths == paths
        invariant Round(find, s) && RoundOrder(find, s, tree)
        decreases find.l.alive - visited, |queue|
      {
        var item := queue[0];
        if c.MaxDepth > 0 && |item.path.Edges| >= c.MaxDepth {
          SkipRound(find, s);
          SkipOrder(find, s, tree);
          queue := queue[1..];
          s := s.(queue := queue, done := s.done + {item.nodeID}, d := |item.path.Edges|);
        } else {
          StartRound(find, s);
          TakeOrder(find, s, tree, |item.path.Edges|);
          s := s.(queue := queue[1..], d := |item.path.Edges|);
          InnerListed(find, s, item, 0);
          queue, visited, paths, s, tree := Expand(item, queue[1..], visited, paths, toID, c, dir, find, s, tree);
          EndRound(find, s, item);
          EndOrder(find, s, tree, item, |find.l.out[item.nodeID]|);
          s := s.(done := s.done + {item.nodeID});
        }
      }
      LastRound(find, s);
      LastOrder(find, s, tree);
      AnswersAreFound(State(), dir, c, fromID, toID, paths);
      return Ok(paths);
    }

    /** Follow all edges of an item's node. */
    method Expand(item: Item, q: seq<Item>, v: set<int>, p: seq<Path>, toID: int, c: Config, dir: Direction,
                  ghost find: Finding, ghost s0: Progress, ghost tree0: Tree)
      returns (queue: seq<Item>, visited: set<int>, paths: seq<Path>, ghost s: Progress, ghost tree: Tree)
      requires find.l == LinksOf(State(), dir) && find.c == c && find.to == toID && LinksOk(find.l)
      requires v == s0.depth.Keys && v <= nodeByID.Keys && item.nodeID in nodeByID && q == s0.queue && p == s0.paths
      requires Inner(find, s0, item, 0) && InnerOrder(find, s0, tree0, item, 0)
      ensures visited == s.depth.Keys && v <= visited <= nodeByID.Keys && queue == s.queue && paths == s.paths
      ensures v == visited ==> |queue| == |q|
      ensures Inner(find, s, item, |find.l.out[item.nodeID]|)
      ensures InnerOrder(find, s, tree, item, |find.l.out[item.nodeID]|)
    {
      hide Inner, EdgesAt, LinksOk, InnerOrder, InTwoParts, GraphOk;
      queue, visited, paths, s, tree := q, v, p, s0, tree0;
      var edges := GetEdges(item.nodeID, dir);
      for k := 0 to |edges|
        invariant visited == s.depth.Keys && v <= visited <= nodeByID.Keys && queue == s.queue && paths == s.paths
        invariant v == visited ==> |queue| == |q|
        invariant Inner(find, s, item, k) && InnerOrder(find, s, tree, item, k)
      {
        var edge := edges[k];
        var nextID := if item.nodeID == edge.ToID then edge.FromID else edge.ToID;
        if !Allowed(c, edge) || nextID in visited || nextID !in nodeByID {
          PassEdge(find, s, item, k);
          PassOrder(find, s, tree, item, k);
        } else {
          var newPath := Extended(item.path, edge, nextID);
          if nextID == toID {
            ReachTarget(find, s, item, k);
            ReachOrder(find, s, tree, item, k);
            paths := paths + [newPath];
            s := s.(paths := paths);
          } else {
            FindNode(find, s, item, k, nextID);
            FindOrder(find, s, tree, item, k, nextID);
            tree := tree[nextID := newPath];
            visited := visited + {nextID};
            queue := queue + [Item(nextID, newPath)];
            s := s.(depth := s.depth[nextID := s.d + 1], queue := queue);
          }
        }
      }
    }
  }

  lemma SkippedOk(g: GraphModel.State)
    requires GraphOk(g)
    ensures GraphOk(g.(nextNodeID := g.nextNodeID + 1))
  {
    hide Indexed, LabelsIndexed, Count;
    OtherPartsSkipped(g);
  }

  lemma OtherPartsSkipped(g: GraphModel.State)
    requires LabelsIndexed(g) && PropsIndexed(g)
    ensures LabelsIndexed(g.(nextNodeID := g.nextNodeID + 1)) && PropsIndexed(g.(nextNodeID := g.nextNodeID + 1))
  {
  }

  lemma NoLabelsAdded(m: map<string, seq<int>>, id: int)
    ensures LabelsAdded(m, m, [], id)
  {
    assert forall lbl: string :: Count([], lbl) == 0;
  }

  ghost function Ids(s: seq<int>): set<int> {
    set e | e in s
  }

  lemma NoIds()
    ensures Ids([]) == {}
  {
  }

  lemma IdsBehind(s: seq<int>, i: nat)
    requires i < |s|
    ensures Ids(s[..i + 1]) == Ids(s[..i]) + {s[i]}
  {
    assert s[..i + 1] == s[..i] + [s[i]];
  }

  /** Without the edges that join a node, no edge joins it, and all others are left. */
  lemma NoneJoins(g: GraphModel.State, id: int, edgeIDs: seq<int>, left: map<int, Edge>)
    requires forall e :: e in edgeIDs <==> e in g.edgeByID && Joins(g.edgeByID[e], id)
    requires left == g.edgeByID - Ids(edgeIDs)
    ensures left == map e | e in g.edgeByID && !Joins(g.edgeByID[e], id) :: g.edgeByID[e]
    ensures forall e :: e in left ==> !Joins(left[e], id)
  {
    assert forall e :: e in left <==> e in g.edgeByID && !Joins(g.edgeByID[e], id);
  }

  lemma OwnID(g: GraphModel.State, id: int)
    requires GraphOk(g) && id in g.nodeByID
    ensures g.nodeByID[id].ID == id
  {
  }

  /** The edges listed at a node are those that join it. */
  lemma JoiningEdges(g: GraphModel.State, id: int, edgeIDs: seq<int>)
    requires GraphOk(g) && edgeIDs == At(g.edgeByFrom, id) + At(g.edgeByTo, id)
    ensures forall e :: e in edgeIDs <==> e in g.edgeByID && Joins(g.edgeByID[e], id)
  {
    hide At, LabelsIndexed, PropsIndexed;
    ListedIDs(g, g.edgeByFrom, FromOf, id);
    ListedIDs(g, g.edgeByTo, ToOf, id);
  }

  lemma ListedIDs(g: GraphModel.State, m: map<int, seq<int>>, key: Edge -> int, id: int)
    requires Indexed(m, g.edgeByID, key)
    ensures forall e :: e in At(m, id) <==> e in g.edgeByID && key(g.edgeByID[e]) == id
  {
    hide At;
    forall e ensures e in At(m, id) <==> e in g.edgeByID && key(g.edgeByID[e]) == id {
      assert Count(At(m, id), e) == if e in g.edgeByID && key(g.edgeByID[e]) == id then 1 else 0;
    }
  }

  lemma SomeIn(s: set<int>)
    requires s != {}
    ensures exists id :: id in s
  {
    assert (forall id :: id !in s) ==> s == {};
  }

  lemma NothingCounts<T>()
    ensures forall x: T :: Count([], x) == 0
  {
    forall x: T ensures Count([], x) == 0 {
      var none: seq<T> := [];
      assert x !in none && multiset(none)[x] == 0;
    }
  }

  lemma EmptyHits(g: GraphModel.State, q: Query)
    requires q.Label == "" && q.Property == ""
    ensures forall n :: Hits(g, q, n) == if IsLive(g, n) then 1 else 0
  {
  }

  /** Simple paths of the graph within the limit, the first of them as short as any way from one node to the other. */
  ghost predicate Found(g: GraphModel.State, dir: Direction, c: Config, from: int, to: int, paths: seq<Path>) {
    && (forall q :: q in paths ==>
          Joined(g, dir, c.EdgeTypes, from, to, q) && AllDiffer(q.Nodes) &&
            (c.MaxDepth > 0 ==> |q.Edges| <= c.MaxDepth))
    && (forall w :: Joined(g, dir, c.EdgeTypes, from, to, w) && (c.MaxDepth > 0 ==> |w.Edges| <= c.MaxDepth) ==>
          paths != [] && |paths[0].Edges| <= |w.Edges|)
  }

  lemma AnswersAreFound(g: GraphModel.State, dir: Direction, c: Config, from: int, to: int, paths: seq<Path>)
    requires GraphOk(g) && Answers(LinksOf(g, dir), c, from, to, paths)
    ensures Found(g, dir, c, from, to, paths)
  {
    hide GraphOk, IsWalk, Between, Joined, LinksOf, Step, HasEnd, Approach, EndsDiffer;
    var l := LinksOf(g, dir);
    forall q ensures IsWalk(l, c, q) && Between(q, from, to) <==> Joined(g, dir, c.EdgeTypes, from, to, q) {
      WalkIsJoined(g, dir, c, from, to, q);
    }
    forall q | q in paths ensures IsBfsPath(l, c, from, to, q) {
      var i :| 0 <= i < |paths| && paths[i] == q;
    }
  }

  lemma InnerListed(find: Finding, s: Progress, it: Item, k: nat)
    requires Inner(find, s, it, k)
    ensures it.nodeID in find.l.out
  {
  }
}
