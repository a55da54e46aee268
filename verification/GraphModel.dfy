// The indexes of the graph as values, and when they list exactly what lives.
module GraphModel {
  import opened PathModel

  /** A node; its property values as they print. */
  datatype Node = Node(ID: int, Labels: seq<string>, Properties: map<string, string>)

  datatype Direction = NoDirection | Outgoing | Incoming | Both

  function At<K, V>(m: map<K, seq<V>>, k: K): seq<V> {
    if k in m then m[k] else []
  }

  function PropAt(m: map<string, map<string, seq<int>>>, key: string, val: string): seq<int> {
    if key in m then At(m[key], val) else []
  }

  function Count<T(==)>(s: seq<T>, x: T): nat {
    multiset(s)[x]
  }

  datatype State = State(
    nextNodeID: int, nextEdgeID: int,
    nodeByID: map<int, Node>, edgeByID: map<int, Edge>,
    nodeByLabel: map<string, seq<int>>, nodeByProp: map<string, map<string, seq<int>>>,
    edgeByType: map<string, seq<int>>, edgeByFrom: map<int, seq<int>>, edgeByTo: map<int, seq<int>>)

  /** Ids are their own; edges join live nodes. */
  ghost predicate EntriesOk(g: State) {
    && (forall id :: id in g.nodeByID ==> g.nodeByID[id].ID == id && 0 < id < g.nextNodeID)
    && (forall id :: id in g.edgeByID ==> g.edgeByID[id].ID == id && 0 < id < g.nextEdgeID)
    && (forall id :: id in g.edgeByID ==> g.edgeByID[id].FromID in g.nodeByID && g.edgeByID[id].ToID in g.nodeByID)
    && g.nextNodeID > 0 && g.nextEdgeID > 0
  }

  function FromOf(e: Edge): int { e.FromID }
  function ToOf(e: Edge): int { e.ToID }
  function TypeOf(e: Edge): string { e.Type }

  /** An index lists each live edge once, under its key, and nothing else. */
  ghost predicate Indexed<K(!new)>(m: map<K, seq<int>>, edges: map<int, Edge>, key: Edge -> K) {
    forall k, id :: Count(At(m, k), id) == if id in edges && key(edges[id]) == k then 1 else 0
  }

  ghost predicate EdgesIndexed(g: State) {
    Indexed(g.edgeByFrom, g.edgeByID, FromOf) && Indexed(g.edgeByTo, g.edgeByID, ToOf) &&
      Indexed(g.edgeByType, g.edgeByID, TypeOf)
  }

  /** The label index lists each live node once for each time it carries the label, and nothing else. */
  ghost predicate LabelsIndexed(g: State) {
    forall lbl, id :: Count(At(g.nodeByLabel, lbl), id) ==
      if id in g.nodeByID then Count(g.nodeByID[id].Labels, lbl) else 0
  }

  ghost predicate HasProp(n: Node, key: string, val: string) {
    key in n.Properties && n.Properties[key] == val
  }

  /** The property index lists each live node that has the value once; it may list dead ids, but no future ones. */
  ghost predicate PropsIndexed(g: State) {
    && (forall key, val, id :: id in g.nodeByID ==>
       Count(PropAt(g.nodeByProp, key, val), id) == if HasProp(g.nodeByID[id], key, val) then 1 else 0)
    && (forall key, val, id :: Count(PropAt(g.nodeByProp, key, val), id) > 0 ==> 0 < id < g.nextNodeID)
  }

  /** Ids up to n, each at least as large as those before it. */
  ghost predicate Rising(ids: seq<int>, n: int) {
    (forall i, j :: 0 <= i < j < |ids| ==> ids[i] <= ids[j]) && forall i :: 0 <= i < |ids| ==> ids[i] <= n
  }

  ghost predicate AllRising<K(!new)>(m: map<K, seq<int>>, n: int) {
    forall k :: Rising(At(m, k), n)
  }

  ghost predicate PropsRising(m: map<string, map<string, seq<int>>>, n: int) {
    forall key, val :: Rising(PropAt(m, key, val), n)
  }

  /** Every index lists its ids in the order in which they were handed out. */
  ghost predicate ListsRising(g: State) {
    && AllRising(g.edgeByFrom, g.nextEdgeID - 1) && AllRising(g.edgeByTo, g.nextEdgeID - 1)
    && AllRising(g.edgeByType, g.nextEdgeID - 1) && AllRising(g.nodeByLabel, g.nextNodeID - 1)
    && PropsRising(g.nodeByProp, g.nextNodeID - 1)
  }

  ghost predicate GraphOk(g: State) {
    EntriesOk(g) && EdgesIndexed(g) && LabelsIndexed(g) && PropsIndexed(g) && ListsRising(g)
  }

  // ----- lists of ids -----

  function Removed(ids: seq<int>, target: int): seq<int> {
    if ids == [] then []
    else
      var front, last := Removed(ids[..|ids| - 1], target), ids[|ids| - 1];
      if last != target then front + [last] else front
  }

  lemma CountBehind<T>(s: seq<T>, x: T, y: T)
    ensures Count(s + [x], y) == Count(s, y) + if x == y then 1 else 0
  {
  }

  /** Removing an id removes all its occurrences and no other. */
  lemma {:induction false} RemovedCounts(ids: seq<int>, target: int, x: int)
    ensures Count(Removed(ids, target), x) == if x == target then 0 else Count(ids, x)
  {
    if ids != [] {
      var front, last := ids[..|ids| - 1], ids[|ids| - 1];
      RemovedCounts(front, target, x);
      assert ids == front + [last];
      CountBehind(front, last, x);
      CountBehind(Removed(front, target), last, x);
    }
  }

  lemma {:induction false} RemovedRising(ids: seq<int>, target: int, n: int)
    requires Rising(ids, n)
    ensures Rising(Removed(ids, target), n)
    ensures ids != [] ==> Rising(Removed(ids, target), ids[|ids| - 1])
  {
    if ids != [] {
      var front, last := ids[..|ids| - 1], ids[|ids| - 1];
      RemovedRising(front, target, last);
    }
  }

  lemma RisingAdded<K(!new)>(m: map<K, seq<int>>, k: K, id: int, n: int)
    requires AllRising(m, n) && n <= id
    ensures AllRising(m[k := At(m, k) + [id]], id)
  {
    var m' := m[k := At(m, k) + [id]];
    forall x ensures Rising(At(m', x), id) {
      assert Rising(At(m, x), n);
    }
  }

  lemma RisingRemoved<K(!new)>(m: map<K, seq<int>>, k: K, id: int, n: int)
    requires AllRising(m, n)
    ensures AllRising(m[k := Removed(At(m, k), id)], n)
  {
    hide Rising, Removed;
    var m' := m[k := Removed(At(m, k), id)];
    forall x ensures Rising(At(m', x), n) {
      assert Rising(At(m, x), n);
      RemovedRising(At(m, x), id, n);
    }
  }

  lemma PropsRisingAdded(m: map<string, map<string, seq<int>>>, key: string, val: string, id: int, n: int)
    requires PropsRising(m, n) && n <= id
    ensures PropsRising(WithProp(m, key, val, id), id)
  {
    var m' := WithProp(m, key, val, id);
    forall k, v ensures Rising(PropAt(m', k, v), id) {
      assert Rising(PropAt(m, k, v), n);
      assert PropAt(m', k, v) == if k == key && v == val then PropAt(m, k, v) + [id] else PropAt(m, k, v);
    }
  }

  lemma RisingMore(g: State, g': State)
    requires ListsRising(g) && g.nextNodeID <= g'.nextNodeID && g.nextEdgeID <= g'.nextEdgeID
    requires g'.edgeByFrom == g.edgeByFrom && g'.edgeByTo == g.edgeByTo && g'.edgeByType == g.edgeByType
    requires g'.nodeByLabel == g.nodeByLabel && g'.nodeByProp == g.nodeByProp
    ensures ListsRising(g')
  {
    hide At, PropAt;
  }

  /** The entries of those ids that have one and satisfy the condition, in order. */
  function Picked<T>(ids: seq<int>, entries: map<int, T>, cond: T -> bool): seq<T> {
    if ids == [] then []
    else
      var front, last := Picked(ids[..|ids| - 1], entries, cond), ids[|ids| - 1];
      if last in entries && cond(entries[last]) then front + [entries[last]] else front
  }

  lemma {:induction false} PickedIs<T>(ids: seq<int>, entries: map<int, T>, cond: T -> bool, x: T)
    ensures x in Picked(ids, entries, cond) <==> cond(x) && exists id :: id in ids && id in entries && entries[id] == x
  {
    if ids != [] {
      var front, last := ids[..|ids| - 1], ids[|ids| - 1];
      PickedIs(front, entries, cond, x);
      assert ids == front + [last];
    }
  }

  /** Entries that carry their own id are picked as often as their id is listed. */
  lemma {:induction false} PickedCounts(ids: seq<int>, nodes: map<int, Node>, cond: Node -> bool, n: Node)
    requires forall id :: id in nodes ==> nodes[id].ID == id
    ensures Count(Picked(ids, nodes, cond), n) ==
            if n.ID in nodes && nodes[n.ID] == n && cond(n) then Count(ids, n.ID) else 0
  {
    if ids != [] {
      var front, last := ids[..|ids| - 1], ids[|ids| - 1];
      PickedCounts(front, nodes, cond, n);
      assert ids == front + [last];
      CountBehind(front, last, n.ID);
      if last in nodes {
        CountBehind(Picked(front, nodes, cond), nodes[last], n);
      }
    }
  }

  // ----- adding and removing -----

  lemma IndexAdded<K(!new)>(m: map<K, seq<int>>, edges: map<int, Edge>, key: Edge -> K, e: Edge)
    requires Indexed(m, edges, key) && e.ID !in edges
    ensures Indexed(m[key(e) := At(m, key(e)) + [e.ID]], edges[e.ID := e], key)
  {
    hide Count;
    var m', edges' := m[key(e) := At(m, key(e)) + [e.ID]], edges[e.ID := e];
    forall k, id ensures Count(At(m', k), id) == if id in edges' && key(edges'[id]) == k then 1 else 0 {
      CountBehind(At(m, k), e.ID, id);
      assert Count(At(m, k), id) == if id in edges && key(edges[id]) == k then 1 else 0;
    }
  }

  lemma IndexRemoved<K(!new)>(m: map<K, seq<int>>, edges: map<int, Edge>, key: Edge -> K, id: int)
    requires Indexed(m, edges, key) && id in edges
    ensures Indexed(m[key(edges[id]) := Removed(At(m, key(edges[id])), id)], edges - {id}, key)
  {
    hide Count, Removed;
    var m', edges' := m[key(edges[id]) := Removed(At(m, key(edges[id])), id)], edges - {id};
    forall k, x ensures Count(At(m', k), x) == if x in edges' && key(edges'[x]) == k then 1 else 0 {
      RemovedCounts(At(m, k), id, x);
      assert Count(At(m, k), x) == if x in edges && key(edges[x]) == k then 1 else 0;
    }
  }

  function WithEdge(g: State, e: Edge): State {
    g.(edgeByID := g.edgeByID[e.ID := e],
       edgeByType := g.edgeByType[e.Type := At(g.edgeByType, e.Type) + [e.ID]],
       edgeByFrom := g.edgeByFrom[e.FromID := At(g.edgeByFrom, e.FromID) + [e.ID]],
       edgeByTo := g.edgeByTo[e.ToID := At(g.edgeByTo, e.ToID) + [e.ID]],
       nextEdgeID := g.nextEdgeID + 1)
  }

  lemma WithEdgeOk(g: State, e: Edge)
    requires GraphOk(g) && e.ID == g.nextEdgeID && e.FromID in g.nodeByID && e.ToID in g.nodeByID
    ensures GraphOk(WithEdge(g, e))
  {
    hide PropsIndexed, LabelsIndexed, Indexed, At, AllRising, PropsRising;
    IndexAdded(g.edgeByFrom, g.edgeByID, FromOf, e);
    IndexAdded(g.edgeByTo, g.edgeByID, ToOf, e);
    IndexAdded(g.edgeByType, g.edgeByID, TypeOf, e);
    RisingAdded(g.edgeByFrom, e.FromID, e.ID, g.nextEdgeID - 1);
    RisingAdded(g.edgeByTo, e.ToID, e.ID, g.nextEdgeID - 1);
    RisingAdded(g.edgeByType, e.Type, e.ID, g.nextEdgeID - 1);
    OtherPartsOk(g, WithEdge(g, e));
  }

  lemma OtherPartsOk(g: State, g': State)
    requires LabelsIndexed(g) && PropsIndexed(g)
    requires g'.nodeByID == g.nodeByID && g'.nodeByLabel == g.nodeByLabel && g'.nodeByProp == g.nodeByProp &&
             g'.nextNodeID == g.nextNodeID
    ensures LabelsIndexed(g') && PropsIndexed(g')
  {
  }

  function WithoutEdge(g: State, id: int): State {
    if id !in g.edgeByID then g
    else
      var e := g.edgeByID[id];
      g.(edgeByID := g.edgeByID - {id},
         edgeByType := g.edgeByType[e.Type := Removed(At(g.edgeByType, e.Type), id)],
         edgeByFrom := g.edgeByFrom[e.FromID := Removed(At(g.edgeByFrom, e.FromID), id)],
         edgeByTo := g.edgeByTo[e.ToID := Removed(At(g.edgeByTo, e.ToID), id)])
  }

  lemma WithoutEdgeOk(g: State, id: int)
    requires GraphOk(g)
    ensures GraphOk(WithoutEdge(g, id)) && WithoutEdge(g, id).edgeByID == g.edgeByID - {id}
  {
    hide PropsIndexed, LabelsIndexed, Indexed, Removed, At, AllRising, PropsRising;
    if id in g.edgeByID {
      IndexRemoved(g.edgeByFrom, g.edgeByID, FromOf, id);
      IndexRemoved(g.edgeByTo, g.edgeByID, ToOf, id);
      IndexRemoved(g.edgeByType, g.edgeByID, TypeOf, id);
      var e := g.edgeByID[id];
      RisingRemoved(g.edgeByFrom, e.FromID, id, g.nextEdgeID - 1);
      RisingRemoved(g.edgeByTo, e.ToID, id, g.nextEdgeID - 1);
      RisingRemoved(g.edgeByType, e.Type, id, g.nextEdgeID - 1);
      OtherPartsOk(g, WithoutEdge(g, id));
    }
  }

  // ----- nodes -----

  /** The label index after the first k labels of a new node. */
  ghost predicate LabelsAdded(m: map<string, seq<int>>, m': map<string, seq<int>>, labels: seq<string>, id: int) {
    && (forall lbl, x :: Count(At(m', lbl), x) == Count(At(m, lbl), x) + if x == id then Count(labels, lbl) else 0)
    && (AllRising(m, id) ==> AllRising(m', id))
  }

  lemma LabelAdded(m: map<string, seq<int>>, m': map<string, seq<int>>, labels: seq<string>, id: int, added: string)
    requires LabelsAdded(m, m', labels, id)
    ensures LabelsAdded(m, m'[added := At(m', added) + [id]], labels + [added], id)
  {
    hide Count, AllRising;
    var m'' := m'[added := At(m', added) + [id]];
    if AllRising(m', id) {
      RisingAdded(m', added, id, id);
    }
    forall lbl, x
      ensures Count(At(m'', lbl), x) == Count(At(m, lbl), x) + if x == id then Count(labels + [added], lbl) else 0
    {
      CountBehind(labels, added, lbl);
      CountBehind(At(m', added), id, x);
      assert Count(At(m', lbl), x) == Count(At(m, lbl), x) + if x == id then Count(labels, lbl) else 0;
    }
  }

  /** The property index after these keys of a new node. */
  ghost predicate PropsAdded(m: map<string, map<string, seq<int>>>, m': map<string, map<string, seq<int>>>,
                             props: map<string, string>, keys: set<string>, id: int) {
    && (forall key, val, x ::
          Count(PropAt(m', key, val), x) ==
          Count(PropAt(m, key, val), x) + if x == id && key in keys && key in props && props[key] == val then 1 else 0)
    && (PropsRising(m, id) ==> PropsRising(m', id))
  }

  function WithProp(m: map<string, map<string, seq<int>>>, key: string, val: string,
                    id: int): map<string, map<string, seq<int>>> {
    var inner: map<string, seq<int>> := if key in m then m[key] else map[];
    m[key := inner[val := At(inner, val) + [id]]]
  }

  lemma PropAdded(m: map<string, map<string, seq<int>>>, m': map<string, map<string, seq<int>>>,
                  props: map<string, string>, keys: set<string>, id: int, key: string)
    requires PropsAdded(m, m', props, keys, id) && key !in keys && key in props
    ensures PropsAdded(m, WithProp(m', key, props[key], id), props, keys + {key}, id)
  {
    hide Count, PropsRising;
    var m'' := WithProp(m', key, props[key], id);
    if PropsRising(m', id) {
      PropsRisingAdded(m', key, props[key], id, id);
    }
    forall k, v, x
      ensures Count(PropAt(m'', k, v), x) ==
              Count(PropAt(m, k, v), x) + if x == id && k in keys + {key} && k in props && props[k] == v then 1 else 0
    {
      CountBehind(PropAt(m', key, props[key]), id, x);
      assert PropAt(m'', k, v) == if k == key && v == props[key] then PropAt(m', k, v) + [id] else PropAt(m', k, v);
      assert Count(PropAt(m', k, v), x) ==
             Count(PropAt(m, k, v), x) + if x == id && k in keys && k in props && props[k] == v then 1 else 0;
    }
  }

  /** The graph with a new node, under the next id. */
  ghost predicate NodeAdded(g: State, g': State, n: Node) {
    && n.ID == g.nextNodeID
    && g' == g.(nextNodeID := g.nextNodeID + 1, nodeByID := g.nodeByID[n.ID := n], nodeByLabel := g'.nodeByLabel,
       nodeByProp := g'.nodeByProp)
    && LabelsAdded(g.nodeByLabel, g'.nodeByLabel, n.Labels, n.ID)
    && PropsAdded(g.nodeByProp, g'.nodeByProp, n.Properties, n.Properties.Keys, n.ID)
  }

  lemma NodeAddedOk(g: State, g': State, n: Node)
    requires GraphOk(g) && NodeAdded(g, g', n)
    ensures GraphOk(g')
  {
    hide Indexed, At, PropAt, Count, AllRising, PropsRising;
    RisingMore(g, g.(nextNodeID := g.nextNodeID + 1));
    assert LabelsIndexed(g') by {
      hide PropsAdded, PropsIndexed;
      forall lbl, id
        ensures Count(At(g'.nodeByLabel, lbl), id) ==
                if id in g'.nodeByID then Count(g'.nodeByID[id].Labels, lbl) else 0
      {
        assert Count(At(g.nodeByLabel, lbl), id) == if id in g.nodeByID then Count(g.nodeByID[id].Labels, lbl) else 0;
      }
    }
    PropsStay(g, g', n);
  }

  lemma PropsStay(g: State, g': State, n: Node)
    requires EntriesOk(g) && PropsIndexed(g) && NodeAdded(g, g', n)
    ensures PropsIndexed(g')
  {
    hide PropAt, Count, LabelsAdded, PropsRising;
    forall key, val, id | id in g'.nodeByID
      ensures Count(PropAt(g'.nodeByProp, key, val), id) == if HasProp(g'.nodeByID[id], key, val) then 1 else 0
    {
      if id != n.ID {
        assert Count(PropAt(g.nodeByProp, key, val), id) == if HasProp(g.nodeByID[id], key, val) then 1 else 0;
      } else {
        assert Count(PropAt(g.nodeByProp, key, val), id) == 0;
      }
    }
  }

  /** The label index without a node, for these labels. */
  ghost predicate LabelsCleared(m: map<string, seq<int>>, m': map<string, seq<int>>, labels: seq<string>, id: int) {
    && (forall lbl, x :: Count(At(m', lbl), x) == if x == id && lbl in labels then 0 else Count(At(m, lbl), x))
    && (forall n :: AllRising(m, n) ==> AllRising(m', n))
  }

  lemma LabelCleared(m: map<string, seq<int>>, m': map<string, seq<int>>, labels: seq<string>, id: int, added: string)
    requires LabelsCleared(m, m', labels, id)
    ensures LabelsCleared(m, m'[added := Removed(At(m', added), id)], labels + [added], id)
  {
    hide Count, Removed, AllRising;
    var m'' := m'[added := Removed(At(m', added), id)];
    forall n | AllRising(m', n) ensures AllRising(m'', n) {
      RisingRemoved(m', added, id, n);
    }
    forall lbl, x
      ensures Count(At(m'', lbl), x) == if x == id && lbl in labels + [added] then 0 else Count(At(m, lbl), x)
    {
      RemovedCounts(At(m', added), id, x);
      assert Count(At(m', lbl), x) == if x == id && lbl in labels then 0 else Count(At(m, lbl), x);
    }
  }

  predicate Joins(e: Edge, id: int) { e.FromID == id || e.ToID == id }

  /** The graph without a node that no edge joins. */
  ghost predicate NodeGone(g: State, g': State, id: int) {
    && id in g.nodeByID
    && g' == g.(nodeByID := g.nodeByID - {id}, nodeByLabel := g'.nodeByLabel)
    && LabelsCleared(g.nodeByLabel, g'.nodeByLabel, g.nodeByID[id].Labels, id)
  }

  lemma NodeGoneOk(g: State, g': State, id: int)
    requires GraphOk(g) && NodeGone(g, g', id) && forall e :: e in g.edgeByID ==> !Joins(g.edgeByID[e], id)
    ensures GraphOk(g')
  {
    hide Indexed, At, PropAt, AllRising, PropsRising;
    forall lbl, x
      ensures Count(At(g'.nodeByLabel, lbl), x) == if x in g'.nodeByID then Count(g'.nodeByID[x].Labels, lbl) else 0
    {
      assert Count(At(g.nodeByLabel, lbl), x) == if x in g.nodeByID then Count(g.nodeByID[x].Labels, lbl) else 0;
    }
  }

  // ----- queries -----

  /** An empty label or property means none is asked for; the value as it prints. */
  datatype Query = Query(Label: string, Property: string, Value: string)

  ghost predicate Matches(n: Node, q: Query) {
    (q.Label == "" || q.Label in n.Labels) && (q.Property == "" || HasProp(n, q.Property, q.Value))
  }

  ghost predicate DistinctLabels(g: State) {
    forall id, lbl :: id in g.nodeByID ==> Count(g.nodeByID[id].Labels, lbl) <= 1
  }

  ghost predicate IsLive(g: State, n: Node) {
    n.ID in g.nodeByID && g.nodeByID[n.ID] == n
  }

  /** What a search by label or property finds, and how often. */
  ghost function Hits(g: State, q: Query, n: Node): nat {
    if !IsLive(g, n) || !Matches(n, q) then 0
    else if q.Label != "" && q.Property == "" then Count(n.Labels, q.Label) else 1
  }

  lemma PickedHits(g: State, q: Query, n: Node, ids: seq<int>, cond: Node -> bool)
    requires GraphOk(g) && q.Property != "" && ids == PropAt(g.nodeByProp, q.Property, q.Value)
    requires forall x :: cond(x) == (q.Label == "" || q.Label in x.Labels)
    ensures Count(Picked(ids, g.nodeByID, cond), n) == Hits(g, q, n)
  {
    hide Indexed, At, PropAt, Picked, Count;
    PickedCounts(ids, g.nodeByID, cond, n);
  }

  lemma LabelHits(g: State, q: Query, n: Node, ids: seq<int>, cond: Node -> bool)
    requires GraphOk(g) && q.Label != "" && q.Property == "" && ids == At(g.nodeByLabel, q.Label)
    requires forall x :: cond(x)
    ensures Count(Picked(ids, g.nodeByID, cond), n) == Hits(g, q, n)
  {
    hide Indexed, At, PropAt, Picked;
    PickedCounts(ids, g.nodeByID, cond, n);
  }

  lemma PropsInOrder(g: State, key: string, val: string, cond: Node -> bool)
    requires GraphOk(g)
    ensures NodesRising(Picked(PropAt(g.nodeByProp, key, val), g.nodeByID, cond))
  {
    hide EdgesIndexed, LabelsIndexed, PropsIndexed, AllRising, Rising, Picked, PropAt, NodesRising;
    assert Rising(PropAt(g.nodeByProp, key, val), g.nextNodeID - 1);
    PickedRising(PropAt(g.nodeByProp, key, val), g.nodeByID, cond, g.nextNodeID - 1);
  }

  lemma LabelsInOrder(g: State, lbl: string, cond: Node -> bool)
    requires GraphOk(g)
    ensures NodesRising(Picked(At(g.nodeByLabel, lbl), g.nodeByID, cond))
  {
    hide EdgesIndexed, LabelsIndexed, PropsIndexed, PropsRising, Rising, Picked, At, NodesRising;
    assert Rising(At(g.nodeByLabel, lbl), g.nextNodeID - 1);
    PickedRising(At(g.nodeByLabel, lbl), g.nodeByID, cond, g.nextNodeID - 1);
  }

  /** With distinct labels, a search finds each live node that matches once, and nothing else. */
  lemma HitsAreFilter(g: State, q: Query, n: Node)
    requires DistinctLabels(g)
    ensures Hits(g, q, n) == if IsLive(g, n) && Matches(n, q) then 1 else 0
  {
    if IsLive(g, n) && Matches(n, q) && q.Label != "" && q.Property == "" {
      assert Count(g.nodeByID[n.ID].Labels, q.Label) <= 1;
    }
  }

  // ----- edges of a node -----

  predicate Always(e: Edge) { true }

  /** The edges listed at a node: those that leave it, then those that reach it, as the direction says. */
  function EdgesAt(g: State, u: int, dir: Direction): seq<Edge> {
    (if dir == Outgoing || dir == Both then Picked(At(g.edgeByFrom, u), g.edgeByID, Always) else []) +
    (if dir == Incoming || dir == Both then Picked(At(g.edgeByTo, u), g.edgeByID, Always) else [])
  }

  /** They are exactly the live edges of the node in that direction. */
  lemma EdgesAtAre(g: State, u: int, dir: Direction, e: Edge)
    requires GraphOk(g)
    ensures e in EdgesAt(g, u, dir) <==>
            e.ID in g.edgeByID && g.edgeByID[e.ID] == e &&
            (((dir == Outgoing || dir == Both) && e.FromID == u) || ((dir == Incoming || dir == Both) && e.ToID == u))
  {
    hide LabelsIndexed, PropsIndexed, Picked, At;
    ListedEdges(g, g.edgeByFrom, FromOf, u, e);
    ListedEdges(g, g.edgeByTo, ToOf, u, e);
  }

  lemma ListedEdges(g: State, m: map<int, seq<int>>, key: Edge -> int, u: int, e: Edge)
    requires EntriesOk(g) && Indexed(m, g.edgeByID, key)
    ensures e in Picked(At(m, u), g.edgeByID, Always) <==> e.ID in g.edgeByID && g.edgeByID[e.ID] == e && key(e) == u
  {
    hide Picked, At;
    var ids := At(m, u);
    PickedIs(ids, g.edgeByID, Always, e);
    forall id ensures id in ids <==> id in g.edgeByID && key(g.edgeByID[id]) == u {
      assert Count(ids, id) == if id in g.edgeByID && key(g.edgeByID[id]) == u then 1 else 0;
    }
  }

  /** No edge is listed twice. */
  lemma {:induction false} PickedOnce(ids: seq<int>, edges: map<int, Edge>)
    requires forall id :: id in edges ==> edges[id].ID == id
    requires forall x :: Count(ids, x) <= 1
    ensures forall i, j :: 0 <= i < j < |Picked(ids, edges, Always)| ==>
            Picked(ids, edges, Always)[i] != Picked(ids, edges, Always)[j]
  {
    if ids != [] {
      var front, last := ids[..|ids| - 1], ids[|ids| - 1];
      assert ids == front + [last];
      forall x ensures Count(front, x) <= 1 && (x == last ==> Count(front, x) == 0) {
        CountBehind(front, last, x);
        assert Count(ids, x) <= 1;
      }
      PickedOnce(front, edges);
      var r := Picked(front, edges, Always);
      assert last !in front by { assert Count(front, last) == 0; }
      forall i | 0 <= i < |r| ensures last in edges ==> r[i] != edges[last] {
        assert r[i] in r;
        PickedIs(front, edges, Always, r[i]);
      }
    }
  }

  /** The live edges with node u at that end, if asked for: each once, in the order in which they were made. */
  ghost predicate InOrder(g: State, es: seq<Edge>, asked: bool, end: Edge -> int, u: int) {
    && (forall i, j :: 0 <= i < j < |es| ==> es[i].ID < es[j].ID)
    && forall e :: e in es <==> asked && e.ID in g.edgeByID && g.edgeByID[e.ID] == e && end(e) == u
  }

  /** First those that leave the node, then those that reach it, each in order. */
  ghost predicate InTwoParts(g: State, u: int, dir: Direction, es: seq<Edge>, n: nat) {
    && n <= |es|
    && InOrder(g, es[..n], dir == Outgoing || dir == Both, FromOf, u)
    && InOrder(g, es[n..], dir == Incoming || dir == Both, ToOf, u)
  }

  lemma {:induction false} PickedFromListed(ids: seq<int>, edges: map<int, Edge>)
    requires forall id :: id in edges ==> edges[id].ID == id
    ensures forall i :: 0 <= i < |Picked(ids, edges, Always)| ==> Picked(ids, edges, Always)[i].ID in ids
  {
    if ids != [] {
      PickedFromListed(ids[..|ids| - 1], edges);
      assert ids == ids[..|ids| - 1] + [ids[|ids| - 1]];
    }
  }

  lemma {:induction false} PickedInOrder(ids: seq<int>, edges: map<int, Edge>)
    requires forall id :: id in edges ==> edges[id].ID == id
    requires forall i, j :: 0 <= i < j < |ids| ==> ids[i] < ids[j]
    ensures forall i, j :: 0 <= i < j < |Picked(ids, edges, Always)| ==>
            Picked(ids, edges, Always)[i].ID < Picked(ids, edges, Always)[j].ID
  {
    if ids != [] {
      PickedInOrder(ids[..|ids| - 1], edges);
      PickedFromListed(ids[..|ids| - 1], edges);
    }
  }

  lemma StrictlyRising(ids: seq<int>, n: int)
    requires Rising(ids, n) && forall x :: Count(ids, x) <= 1
    ensures forall i, j :: 0 <= i < j < |ids| ==> ids[i] < ids[j]
  {
    forall i, j | 0 <= i < j < |ids| ensures ids[i] != ids[j] {
      assert ids == ids[..j] + [ids[j]] + ids[j + 1..];
      assert ids[i] in ids[..j] && Count(ids, ids[j]) <= 1;
    }
  }

  lemma ListedInOrder(g: State, m: map<int, seq<int>>, end: Edge -> int, u: int, n: int)
    requires EntriesOk(g) && Indexed(m, g.edgeByID, end) && AllRising(m, n)
    ensures InOrder(g, Picked(At(m, u), g.edgeByID, Always), true, end, u)
  {
    hide Picked, At, Rising;
    IndexedOnce(m, g.edgeByID, end, u);
    assert Rising(At(m, u), n);
    StrictlyRising(At(m, u), n);
    PickedInOrder(At(m, u), g.edgeByID);
    forall e
      ensures e in Picked(At(m, u), g.edgeByID, Always) <==>
              e.ID in g.edgeByID && g.edgeByID[e.ID] == e && end(e) == u
    {
      ListedEdges(g, m, end, u, e);
    }
  }

  lemma EdgesInOrder(g: State, u: int, dir: Direction)
    requires GraphOk(g)
    ensures exists n: nat :: InTwoParts(g, u, dir, EdgesAt(g, u, dir), n)
  {
    hide LabelsIndexed, PropsIndexed, Indexed, Picked, At, AllRising, PropsRising, InOrder;
    var a, b := Picked(At(g.edgeByFrom, u), g.edgeByID, Always), Picked(At(g.edgeByTo, u), g.edgeByID, Always);
    ListedInOrder(g, g.edgeByFrom, FromOf, u, g.nextEdgeID - 1);
    ListedInOrder(g, g.edgeByTo, ToOf, u, g.nextEdgeID - 1);
    NoneInOrder(g, FromOf, u);
    NoneInOrder(g, ToOf, u);
    var es := EdgesAt(g, u, dir);
    if dir == Both {
      assert es == a + b;
      assert es[..|a|] == a && es[|a|..] == b;
      assert InTwoParts(g, u, dir, es, |a|);
    } else if dir == Outgoing {
      assert es == a + [];
      assert es[..|a|] == a && es[|a|..] == [];
      assert InTwoParts(g, u, dir, es, |a|);
    } else if dir == NoDirection {
      assert es == [] && es[..0] == [] && es[0..] == [];
      assert InTwoParts(g, u, dir, es, 0);
    } else {
      assert es == [] + b;
      assert es[..0] == [] && es[0..] == b;
      assert InTwoParts(g, u, dir, es, 0);
    }
  }

  lemma NoneInOrder(g: State, end: Edge -> int, u: int)
    ensures InOrder(g, [], false, end, u)
  {
  }

  /** There is only one such list. */
  lemma OneOrder(g: State, u: int, dir: Direction, es: seq<Edge>, n: nat, fs: seq<Edge>, m: nat)
    requires InTwoParts(g, u, dir, es, n) && InTwoParts(g, u, dir, fs, m)
    ensures es == fs
  {
    hide InOrder;
    OneList(g, es[..n], fs[..m], dir == Outgoing || dir == Both, FromOf, u);
    OneList(g, es[n..], fs[m..], dir == Incoming || dir == Both, ToOf, u);
    assert es == es[..n] + es[n..] && fs == fs[..m] + fs[m..];
  }

  lemma OneList(g: State, es: seq<Edge>, fs: seq<Edge>, asked: bool, end: Edge -> int, u: int)
    requires InOrder(g, es, asked, end, u) && InOrder(g, fs, asked, end, u)
    ensures es == fs
  {
    SameRising(es, fs);
  }

  lemma LastInOther(es: seq<Edge>, fs: seq<Edge>)
    requires es != [] && forall e :: e in es ==> e in fs
    requires forall i, j :: 0 <= i < j < |fs| ==> fs[i].ID < fs[j].ID
    ensures fs != [] && es[|es| - 1].ID <= fs[|fs| - 1].ID
    ensures es[|es| - 1].ID == fs[|fs| - 1].ID ==> es[|es| - 1] == fs[|fs| - 1]
  {
    var e := es[|es| - 1];
    assert e in es;
    var k :| 0 <= k < |fs| && fs[k] == e;
  }

  lemma FrontSame(es: seq<Edge>, fs: seq<Edge>, x: Edge)
    requires es != [] && fs != [] && es[|es| - 1] == fs[|fs| - 1] && forall e :: e in es ==> e in fs
    requires forall i, j :: 0 <= i < j < |es| ==> es[i].ID < es[j].ID
    ensures x in es[..|es| - 1] ==> x in fs[..|fs| - 1]
  {
    if x in es[..|es| - 1] {
      var k :| 0 <= k < |es| - 1 && es[k] == x;
      assert x in es && x in fs && es[k].ID < es[|es| - 1].ID;
      var j :| 0 <= j < |fs| && fs[j] == x;
    }
  }

  /** Two lists of the same edges, each by rising id, are one. */
  lemma {:induction false} SameRising(es: seq<Edge>, fs: seq<Edge>)
    requires forall i, j :: 0 <= i < j < |es| ==> es[i].ID < es[j].ID
    requires forall i, j :: 0 <= i < j < |fs| ==> fs[i].ID < fs[j].ID
    requires forall e :: e in es <==> e in fs
    ensures es == fs
  {
    assert fs != [] ==> fs[0] in fs;
    if es != [] {
      LastInOther(es, fs);
      LastInOther(fs, es);
      var es', fs' := es[..|es| - 1], fs[..|fs| - 1];
      forall x ensures x in es' <==> x in fs' {
        FrontSame(es, fs, x);
        FrontSame(fs, es, x);
      }
      SameRising(es', fs');
      assert es == es' + [es[|es| - 1]] && fs == fs' + [fs[|fs| - 1]];
    }
  }

  /** Nodes come in the order in which they were made. */
  ghost predicate NodesRising(ns: seq<Node>) {
    forall i, j :: 0 <= i < j < |ns| ==> ns[i].ID <= ns[j].ID
  }

  lemma {:induction false} PickedRising(ids: seq<int>, nodes: map<int, Node>, cond: Node -> bool, n: int)
    requires (forall id :: id in nodes ==> nodes[id].ID == id) && Rising(ids, n)
    ensures NodesRising(Picked(ids, nodes, cond))
    ensures forall i :: 0 <= i < |Picked(ids, nodes, cond)| ==> Picked(ids, nodes, cond)[i].ID in ids
  {
    if ids != [] {
      var front, last := ids[..|ids| - 1], ids[|ids| - 1];
      assert ids == front + [last];
      PickedRising(front, nodes, cond, n);
    }
  }

  /** The links that a search in this direction walks over. */
  function LinksOf(g: State, dir: Direction): (l: Links)
    ensures l.out.Keys == l.alive == g.nodeByID.Keys
  {
    Links(g.nodeByID.Keys, map u | u in g.nodeByID :: EdgesAt(g, u, dir))
  }

  /** At a node an edge is listed once, or it is a loop. */
  lemma LinksOfOk(g: State, dir: Direction)
    requires GraphOk(g)
    ensures LinksOk(LinksOf(g, dir))
  {
    var l := LinksOf(g, dir);
    forall u, i, j | u in l.out && 0 <= i < j < |l.out[u]| && l.out[u][i] == l.out[u][j]
      ensures NextOf(u, l.out[u][i]) == u
    {
      TwiceIsLoop(g, u, dir, i, j);
    }
  }

  lemma IndexedOnce(m: map<int, seq<int>>, edges: map<int, Edge>, key: Edge -> int, u: int)
    requires Indexed(m, edges, key)
    ensures forall x :: Count(At(m, u), x) <= 1
  {
    hide Count, At;
    forall x ensures Count(At(m, u), x) <= 1 {
      assert Count(At(m, u), x) == if x in edges && key(edges[x]) == u then 1 else 0;
    }
  }

  lemma TwiceIsLoop(g: State, u: int, dir: Direction, i: nat, j: nat)
    requires GraphOk(g) && i < j < |EdgesAt(g, u, dir)| && EdgesAt(g, u, dir)[i] == EdgesAt(g, u, dir)[j]
    ensures NextOf(u, EdgesAt(g, u, dir)[i]) == u
  {
    hide LabelsIndexed, PropsIndexed, Picked, At;
    var e := EdgesAt(g, u, dir)[i];
    var a, b := Picked(At(g.edgeByFrom, u), g.edgeByID, Always), Picked(At(g.edgeByTo, u), g.edgeByID, Always);
    assert (dir == Outgoing ==> EdgesAt(g, u, dir) == a) && (dir == Incoming ==> EdgesAt(g, u, dir) == b) &&
           (dir == Both ==> EdgesAt(g, u, dir) == a + b);
    assert i < |a| <= j && dir == Both ==> a[i] in a && b[j - |a|] in b;
    IndexedOnce(g.edgeByFrom, g.edgeByID, FromOf, u);
    IndexedOnce(g.edgeByTo, g.edgeByID, ToOf, u);
    PickedOnce(At(g.edgeByFrom, u), g.edgeByID);
    PickedOnce(At(g.edgeByTo, u), g.edgeByID);
    ListedEdges(g, g.edgeByFrom, FromOf, u, e);
    ListedEdges(g, g.edgeByTo, ToOf, u, e);
  }

  // ----- paths in the graph itself -----

  /** The edge is live, of a type asked for, and leads from u to v in the direction. */
  ghost predicate Leads(g: State, dir: Direction, types: seq<string>, u: int, e: Edge, v: int) {
    && e.ID in g.edgeByID && g.edgeByID[e.ID] == e
    && (types == [] || exists k :: 0 <= k < |types| && types[k] == e.Type)
    && (((dir == Outgoing || dir == Both) && e.FromID == u && e.ToID == v) ||
        ((dir == Incoming || dir == Both) && e.ToID == u && e.FromID == v))
  }

  /** Live nodes from one to another, with edges that lead along them. */
  ghost predicate Joined(g: State, dir: Direction, types: seq<string>, from: int, to: int, p: Path) {
    && |p.Nodes| == |p.Edges| + 1 && p.Nodes[0] == from && p.Nodes[|p.Edges|] == to && from in g.nodeByID
    && forall i :: 0 <= i < |p.Edges| ==> Leads(g, dir, types, p.Nodes[i], p.Edges[i], p.Nodes[i + 1])
  }

  ghost predicate AllDiffer(ids: seq<int>) {
    forall i, j :: 0 <= i < j < |ids| ==> ids[i] != ids[j]
  }

  lemma StepLeads(g: State, dir: Direction, c: Config, u: int, e: Edge, v: int)
    requires GraphOk(g) && u in g.nodeByID
    ensures Step(LinksOf(g, dir), c, u, e, v) <==> Leads(g, dir, c.EdgeTypes, u, e, v)
  {
    hide EdgesIndexed, LabelsIndexed, PropsIndexed, EdgesAt;
    EdgesAtAre(g, u, dir, e);
    if e.Type in c.EdgeTypes {
      var k :| 0 <= k < |c.EdgeTypes| && c.EdgeTypes[k] == e.Type;
    }
  }

  /** The walks of a search are the joined nodes and edges of the graph. */
  lemma WalkIsJoined(g: State, dir: Direction, c: Config, from: int, to: int, p: Path)
    requires GraphOk(g)
    ensures IsWalk(LinksOf(g, dir), c, p) && Between(p, from, to) <==> Joined(g, dir, c.EdgeTypes, from, to, p)
  {
    hide EdgesIndexed, LabelsIndexed, PropsIndexed, EdgesAt, Step, Leads, LinksOf;
    var l := LinksOf(g, dir);
    if |p.Nodes| == |p.Edges| + 1 && p.Nodes[0] in g.nodeByID {
      forall i | 0 <= i < |p.Edges|
        ensures p.Nodes[i] in g.nodeByID ==>
                  (Step(l, c, p.Nodes[i], p.Edges[i], p.Nodes[i + 1]) <==>
                   Leads(g, dir, c.EdgeTypes, p.Nodes[i], p.Edges[i], p.Nodes[i + 1]))
      {
        if p.Nodes[i] in g.nodeByID {
          StepLeads(g, dir, c, p.Nodes[i], p.Edges[i], p.Nodes[i + 1]);
        }
      }
      forall i | 0 <= i < |p.Edges| && (IsWalk(l, c, p) || Joined(g, dir, c.EdgeTypes, from, to, p))
        ensures p.Nodes[i] in g.nodeByID
      {
        EdgeEndsLive(g, dir, c, p, i);
      }
    }
  }

  lemma EdgeEndsLive(g: State, dir: Direction, c: Config, p: Path, i: nat)
    requires GraphOk(g) && i < |p.Edges| && |p.Nodes| == |p.Edges| + 1
    requires Step(LinksOf(g, dir), c, p.Nodes[i], p.Edges[i], p.Nodes[i + 1]) ||
             Leads(g, dir, c.EdgeTypes, p.Nodes[i], p.Edges[i], p.Nodes[i + 1])
    ensures p.Nodes[i] in g.nodeByID
  {
    hide EdgesIndexed, LabelsIndexed, PropsIndexed, EdgesAt;
  }
}
