// Building the tree of instructions from their flat list: a recursion that ends because ids are distinct.
module InstructionTree {

  datatype Instruction = Instruction(ID: int, ParentID: int, Content: string)
  datatype InstructionNode = InstructionNode(Instruction: Instruction, Children: seq<InstructionNode>)

  ghost predicate UniqueIDs(insts: seq<Instruction>) {
    && (forall i, j :: 0 <= i < j < |insts| ==> insts[i].ID != insts[j].ID)
    && forall i :: 0 <= i < |insts| ==> insts[i].ID != 0
  }

  /** The instructions with this parent, in list order. */
  function ChildrenOf(insts: seq<Instruction>, parentID: int): seq<Instruction> {
    if insts == [] then []
    else
      var front, last := ChildrenOf(insts[..|insts| - 1], parentID), insts[|insts| - 1];
      if last.ParentID == parentID then front + [last] else front
  }

  lemma {:induction false} ChildrenAre(insts: seq<Instruction>, parentID: int, x: Instruction)
    ensures x in ChildrenOf(insts, parentID) <==> x in insts && x.ParentID == parentID
  {
    if insts != [] {
      ChildrenAre(insts[..|insts| - 1], parentID, x);
      assert insts == insts[..|insts| - 1] + [insts[|insts| - 1]];
    }
  }

  /** The nodes are the children of the parent, each with its own children below it. */
  ghost predicate Shaped(insts: seq<Instruction>, parentID: int, nodes: seq<InstructionNode>)
    decreases nodes
  {
    && |nodes| == |ChildrenOf(insts, parentID)|
    && forall i :: 0 <= i < |nodes| ==>
         nodes[i].Instruction == ChildrenOf(insts, parentID)[i] &&
           Shaped(insts, nodes[i].Instruction.ID, nodes[i].Children)
  }

  // ----- the order of siblings -----

  /** The positions of the instructions with this parent, in list order. */
  ghost predicate Places(insts: seq<Instruction>, parentID: int, at: seq<nat>) {
    && (forall i, j :: 0 <= i < j < |at| ==> at[i] < at[j])
    && (forall i :: 0 <= i < |at| ==> at[i] < |insts|)
    && forall k :: 0 <= k < |insts| ==> (k in at <==> insts[k].ParentID == parentID)
  }

  /** The instructions of the nodes are those of the list with this parent, taken from these positions. */
  ghost predicate TakenFrom(insts: seq<Instruction>, parentID: int, nodes: seq<InstructionNode>, at: seq<nat>) {
    && Places(insts, parentID, at) && |at| == |nodes|
    && forall i :: 0 <= i < |at| ==> nodes[i].Instruction == insts[at[i]]
  }

  /** So it is for the nodes, and for the children of every node below. */
  ghost predicate InListOrder(insts: seq<Instruction>, parentID: int, nodes: seq<InstructionNode>)
    decreases nodes
  {
    && (exists at :: TakenFrom(insts, parentID, nodes, at))
    && forall i :: 0 <= i < |nodes| ==> InListOrder(insts, nodes[i].Instruction.ID, nodes[i].Children)
  }

  lemma {:induction false} ChildrenAt(insts: seq<Instruction>, parentID: int) returns (at: seq<nat>)
    ensures Places(insts, parentID, at) && |at| == |ChildrenOf(insts, parentID)|
    ensures forall i :: 0 <= i < |at| ==> ChildrenOf(insts, parentID)[i] == insts[at[i]]
  {
    hide Places;
    if insts == [] {
      at := [];
      assert Places(insts, parentID, []) by { NoPlaces(parentID); }
    } else {
      var n := |insts| - 1;
      var front := ChildrenAt(insts[..n], parentID);
      PlacesGrow(insts, parentID, front);
      at := if insts[n].ParentID == parentID then front + [n] else front;
    }
  }

  lemma NoPlaces(parentID: int)
    ensures Places([], parentID, [])
  {
  }

  /** The positions in a list, and in the list without its last instruction. */
  lemma PlacesGrow(insts: seq<Instruction>, parentID: int, front: seq<nat>)
    requires insts != [] && Places(insts[..|insts| - 1], parentID, front)
    ensures var n := |insts| - 1; Places(insts, parentID, if insts[n].ParentID == parentID then front + [n] else front)
    ensures forall i :: 0 <= i < |front| ==> front[i] < |insts| - 1
  {
    var n := |insts| - 1;
    assert n !in front;
    forall k | 0 <= k < n ensures k in front <==> insts[k].ParentID == parentID {
      assert insts[..n][k] == insts[k];
    }
  }

  lemma {:induction false} PlacesOne(insts: seq<Instruction>, parentID: int, a: seq<nat>, b: seq<nat>)
    requires Places(insts, parentID, a) && Places(insts, parentID, b)
    ensures a == b
  {
    SameFront(insts, parentID, a, b, if |a| <= |b| then |a| else |b|);
    if |a| < |b| {
      NotBehind(insts, parentID, b, a);
    } else if |b| < |a| {
      NotBehind(insts, parentID, a, b);
    }
  }

  lemma {:induction false} SameFront(insts: seq<Instruction>, parentID: int, a: seq<nat>, b: seq<nat>, n: nat)
    requires Places(insts, parentID, a) && Places(insts, parentID, b) && n <= |a| && n <= |b|
    ensures forall i :: 0 <= i < n ==> a[i] == b[i]
  {
    if n > 0 {
      SameFront(insts, parentID, a, b, n - 1);
      NotBefore(insts, parentID, a, b, n - 1);
      NotBefore(insts, parentID, b, a, n - 1);
    }
  }

  lemma NotBefore(insts: seq<Instruction>, parentID: int, a: seq<nat>, b: seq<nat>, i: nat)
    requires Places(insts, parentID, a) && Places(insts, parentID, b) && i < |a| && i < |b|
    requires forall j :: 0 <= j < i ==> a[j] == b[j]
    ensures b[i] <= a[i]
  {
    assert a[i] in a && a[i] in b;
    var k :| 0 <= k < |b| && b[k] == a[i];
    assert forall j :: 0 <= j < i ==> b[j] < a[i];
  }

  lemma NotBehind(insts: seq<Instruction>, parentID: int, a: seq<nat>, b: seq<nat>)
    requires Places(insts, parentID, a) && Places(insts, parentID, b) && |b| < |a|
    ensures exists i :: 0 <= i < |b| && a[i] != b[i]
  {
    var m := |b|;
    assert a[m] in a && a[m] in b;
    var k :| 0 <= k < m && b[k] == a[m];
    assert a[k] < a[m];
  }

  lemma TakenAreChildren(insts: seq<Instruction>, parentID: int, nodes: seq<InstructionNode>, at: seq<nat>)
    requires TakenFrom(insts, parentID, nodes, at)
    ensures |nodes| == |ChildrenOf(insts, parentID)|
    ensures forall i :: 0 <= i < |nodes| ==> nodes[i].Instruction == ChildrenOf(insts, parentID)[i]
  {
    hide Places;
    var at' := ChildrenAt(insts, parentID);
    PlacesOne(insts, parentID, at, at');
  }

  /** A tree is a tree of the list exactly if it has the list's instructions in the list's order, level by level. */
  lemma {:induction false} ShapedIsInListOrder(insts: seq<Instruction>, parentID: int, nodes: seq<InstructionNode>)
    ensures Shaped(insts, parentID, nodes) <==> InListOrder(insts, parentID, nodes)
    decreases nodes
  {
    forall i | 0 <= i < |nodes|
      ensures Shaped(insts, nodes[i].Instruction.ID, nodes[i].Children) <==>
              InListOrder(insts, nodes[i].Instruction.ID, nodes[i].Children)
    {
      ShapedIsInListOrder(insts, nodes[i].Instruction.ID, nodes[i].Children);
    }
    if Shaped(insts, parentID, nodes) {
      var at := ChildrenAt(insts, parentID);
      assert TakenFrom(insts, parentID, nodes, at);
    }
    if InListOrder(insts, parentID, nodes) {
      var at :| TakenFrom(insts, parentID, nodes, at);
      TakenAreChildren(insts, parentID, nodes, at);
    }
  }

  /** All instructions of a forest, parents first. */
  function Flatten(nodes: seq<InstructionNode>): seq<Instruction>
    decreases nodes
  {
    if nodes == [] then []
    else
      var last := nodes[|nodes| - 1];
      Flatten(nodes[..|nodes| - 1]) + [last.Instruction] + Flatten(last.Children)
  }

  // ----- chains of parents -----

  ghost predicate ChildOf(insts: seq<Instruction>, parentID: int, id: int) {
    exists x :: x in insts && x.ParentID == parentID && x.ID == id
  }

  /** The ids from 0 down to id, each the parent of the next. */
  ghost predicate IsChain(insts: seq<Instruction>, chain: seq<int>, id: int) {
    && |chain| > 0 && chain[0] == 0 && chain[|chain| - 1] == id
    && forall i :: 0 <= i < |chain| - 1 ==> ChildOf(insts, chain[i], chain[i + 1])
  }

  lemma SameParent(insts: seq<Instruction>, p: int, q: int, id: int)
    requires UniqueIDs(insts) && ChildOf(insts, p, id) && ChildOf(insts, q, id)
    ensures p == q && id != 0
  {
  }

  lemma ChainFront(insts: seq<Instruction>, chain: seq<int>, id: int)
    requires IsChain(insts, chain, id) && |chain| > 1
    ensures IsChain(insts, chain[..|chain| - 1], chain[|chain| - 2]) && ChildOf(insts, chain[|chain| - 2], id)
  {
    assert ChildOf(insts, chain[|chain| - 2], chain[|chain| - 2 + 1]);
  }

  /** There is only one chain to an id. */
  lemma {:induction false} OneChain(insts: seq<Instruction>, c: seq<int>, d: seq<int>, id: int)
    requires UniqueIDs(insts) && IsChain(insts, c, id) && IsChain(insts, d, id)
    ensures c == d
  {
    if |c| > 1 {
      ChainFront(insts, c, id);
      SameParent(insts, c[|c| - 2], c[|c| - 2], id);
    }
    if |d| > 1 {
      ChainFront(insts, d, id);
      SameParent(insts, d[|d| - 2], d[|d| - 2], id);
    }
    if |c| > 1 && |d| > 1 {
      SameParent(insts, c[|c| - 2], d[|d| - 2], id);
      OneChain(insts, c[..|c| - 1], d[..|d| - 1], c[|c| - 2]);
      assert c == c[..|c| - 1] + [id] && d == d[..|d| - 1] + [id];
    }
  }

  lemma ChainPrefix(insts: seq<Instruction>, chain: seq<int>, id: int, n: nat)
    requires IsChain(insts, chain, id) && 0 < n <= |chain|
    ensures IsChain(insts, chain[..n], chain[n - 1])
  {
  }

  ghost predicate NoRepeats(s: seq<int>) {
    forall i, j :: 0 <= i < j < |s| ==> s[i] != s[j]
  }

  /** No id comes twice on a chain from 0. */
  ghost predicate ChainsEnd(insts: seq<Instruction>) {
    forall chain, id :: IsChain(insts, chain, id) ==> NoRepeats(chain)
  }

  /** With different ids, none of them 0, no chain comes back to an id. */
  lemma UniqueChainsEnd(insts: seq<Instruction>)
    requires UniqueIDs(insts)
    ensures ChainsEnd(insts)
  {
    hide UniqueIDs, IsChain;
    forall chain, id, i, j | IsChain(insts, chain, id) && 0 <= i < j < |chain| ensures chain[i] != chain[j] {
      if chain[i] == chain[j] {
        ChainPrefix(insts, chain, id, i + 1);
        ChainPrefix(insts, chain, id, j + 1);
        OneChain(insts, chain[..i + 1], chain[..j + 1], chain[i]);
      }
    }
  }

  function IDs(insts: seq<Instruction>): set<int> {
    set x | x in insts :: x.ID
  }

  lemma {:induction false} FewIDs(insts: seq<Instruction>)
    ensures |IDs(insts)| <= |insts|
  {
    if insts != [] {
      var front, last := insts[..|insts| - 1], insts[|insts| - 1];
      FewIDs(front);
      assert insts == front + [last];
      assert IDs(insts) == IDs(front) + {last.ID};
    }
  }

  lemma {:induction false} DistinctFit(s: seq<int>, t: set<int>)
    requires forall i, j :: 0 <= i < j < |s| ==> s[i] != s[j]
    requires forall i :: 0 <= i < |s| ==> s[i] in t
    ensures |s| <= |t|
  {
    if s != [] {
      DistinctFit(s[1..], t - {s[0]});
    }
  }

  /** A chain without repetition is no longer than the list, but for the 0 it starts with. */
  lemma ChainFits(insts: seq<Instruction>, chain: seq<int>, id: int)
    requires ChainsEnd(insts) && IsChain(insts, chain, id)
    ensures |chain| <= |insts| + 1
  {
    var below := chain[1..];
    assert NoRepeats(chain);
    forall i, j | 0 <= i < j < |below| ensures below[i] != below[j] {
      assert chain[i + 1] != chain[j + 1];
    }
    forall i | 0 <= i < |below| ensures below[i] in IDs(insts) {
      assert ChildOf(insts, chain[i], chain[i + 1]);
    }
    DistinctFit(below, IDs(insts));
    FewIDs(insts);
  }

  lemma ChainLonger(insts: seq<Instruction>, chain: seq<int>, id: int, x: Instruction)
    requires IsChain(insts, chain, id) && x in insts && x.ParentID == id
    ensures IsChain(insts, chain + [x.ID], x.ID)
  {
    var c := chain + [x.ID];
    forall i | 0 <= i < |c| - 1 ensures ChildOf(insts, c[i], c[i + 1]) {
      if i == |chain| - 1 {
        assert ChildOf(insts, id, x.ID);
      } else {
        assert ChildOf(insts, chain[i], chain[i + 1]);
      }
    }
  }

  // ----- the recursion -----

  /** The tree below a parent that path leads to. */
  ghost function TreeBelow(insts: seq<Instruction>, parentID: int, path: seq<int>): (nodes: seq<InstructionNode>)
    requires ChainsEnd(insts) && IsChain(insts, path, parentID)
    ensures Shaped(insts, parentID, nodes)
    decreases |insts| + 1 - |path|
  {
    var ch := ChildrenOf(insts, parentID);
    seq(|ch|, i requires 0 <= i < |ch| =>
      StepBelow(insts, parentID, path, i);
      InstructionNode(ch[i], TreeBelow(insts, ch[i].ID, path + [ch[i].ID])))
  }

  lemma StepBelow(insts: seq<Instruction>, parentID: int, path: seq<int>, i: nat)
    requires ChainsEnd(insts) && IsChain(insts, path, parentID) && i < |ChildrenOf(insts, parentID)|
    ensures var id := ChildrenOf(insts, parentID)[i].ID; IsChain(insts, path + [id], id) && |path| + 1 <= |insts| + 1
  {
    hide ChainsEnd, IsChain;
    var x := ChildrenOf(insts, parentID)[i];
    ChildrenAre(insts, parentID, x);
    ChainLonger(insts, path, parentID, x);
    ChainFits(insts, path + [x.ID], x.ID);
  }

  /** path holds the ids that the recursion came through; it cannot outgrow the list. */
  method BuildInstructionTree(insts: seq<Instruction>, parentID: int,
                              ghost path: seq<int>) returns (result: seq<InstructionNode>)
    requires ChainsEnd(insts) && IsChain(insts, path, parentID)
    ensures Shaped(insts, parentID, result) && InListOrder(insts, parentID, result)
    decreases |insts| + 1 - |path|
  {
    hide ChainsEnd, IsChain, InListOrder;
    result := [];
    for i := 0 to |insts|
      invariant |result| == |ChildrenOf(insts[..i], parentID)|
      invariant forall j :: 0 <= j < |result| ==>
                  result[j].Instruction == ChildrenOf(insts[..i], parentID)[j] &&
                  Shaped(insts, result[j].Instruction.ID, result[j].Children)
    {
      assert insts[..i + 1][..i] == insts[..i];
      var inst := insts[i];
      if inst.ParentID == parentID {
        ChainLonger(insts, path, parentID, inst);
        ChainFits(insts, path + [inst.ID], inst.ID);
        var children := BuildInstructionTree(insts, inst.ID, path + [inst.ID]);
        result := result + [InstructionNode(inst, children)];
      }
    }
    assert insts[..|insts|] == insts;
    ShapedIsInListOrder(insts, parentID, result);
  }

  // ----- when there is a tree -----

  function Height(nodes: seq<InstructionNode>): nat
    decreases nodes
  {
    if nodes == [] then 0
    else
      var front, last := Height(nodes[..|nodes| - 1]), 1 + Height(nodes[|nodes| - 1].Children);
      if front < last then last else front
  }

  lemma {:induction false} ChildrenAreLower(nodes: seq<InstructionNode>, i: nat)
    requires i < |nodes|
    ensures Height(nodes[i].Children) < Height(nodes)
  {
    if i < |nodes| - 1 {
      ChildrenAreLower(nodes[..|nodes| - 1], i);
      assert nodes[..|nodes| - 1][i] == nodes[i];
    }
  }

  /** Ids from p down, each the parent of the next. */
  ghost predicate IsWalk(insts: seq<Instruction>, walk: seq<int>, p: int) {
    |walk| > 0 && walk[0] == p && forall i :: 0 <= i < |walk| - 1 ==> ChildOf(insts, walk[i], walk[i + 1])
  }

  /** Following a walk down a tree leads to the tree below the walk's last id. */
  lemma {:induction false} WalkDown(insts: seq<Instruction>, p: int, nodes: seq<InstructionNode>, walk: seq<int>)
    returns (sub: seq<InstructionNode>)
    requires Shaped(insts, p, nodes) && IsWalk(insts, walk, p)
    ensures Shaped(insts, walk[|walk| - 1], sub)
    ensures Height(sub) + |walk| <= Height(nodes) + 1
    ensures forall x :: x in Flatten(sub) ==> x in Flatten(nodes)
    decreases |walk|
  {
    hide Flatten, Height, ChildrenOf;
    if |walk| == 1 {
      return nodes;
    }
    var ch := ChildrenOf(insts, p);
    assert ChildOf(insts, walk[0], walk[0 + 1]);
    var y :| y in insts && y.ParentID == p && y.ID == walk[1];
    ChildrenAre(insts, p, y);
    var i :| 0 <= i < |ch| && ch[i] == y;
    ChildrenAreLower(nodes, i);
    var rest := walk[1..];
    forall k | 0 <= k < |rest| - 1 ensures ChildOf(insts, rest[k], rest[k + 1]) {
      assert ChildOf(insts, walk[k + 1], walk[k + 1 + 1]);
    }
    assert rest[|rest| - 1] == walk[|walk| - 1];
    sub := WalkDown(insts, y.ID, nodes[i].Children, rest);
    forall x | x in Flatten(sub) ensures x in Flatten(nodes) {
      FlattenHas(nodes, i, x);
    }
  }

  lemma {:induction false} FlattenHas(nodes: seq<InstructionNode>, i: nat, x: Instruction)
    requires i < |nodes|
    ensures x == nodes[i].Instruction || x in Flatten(nodes[i].Children) ==> x in Flatten(nodes)
  {
    var front, last := nodes[..|nodes| - 1], nodes[|nodes| - 1];
    assert Flatten(nodes) == Flatten(front) + [last.Instruction] + Flatten(last.Children);
    if i < |nodes| - 1 {
      FlattenHas(front, i, x);
      assert front[i] == nodes[i];
    }
  }

  /** Below an id that is its own descendant there is no finite tree. */
  lemma {:induction false} LoopHasNoTree(insts: seq<Instruction>, p: int, walk: seq<int>, nodes: seq<InstructionNode>)
    requires IsWalk(insts, walk, p) && |walk| > 1 && walk[|walk| - 1] == p
    ensures !Shaped(insts, p, nodes)
    decreases Height(nodes)
  {
    if Shaped(insts, p, nodes) {
      var sub := WalkDown(insts, p, nodes, walk);
      LoopHasNoTree(insts, p, walk, sub);
    }
  }

  lemma RepeatHasNoTree(insts: seq<Instruction>, chain: seq<int>, id: int, i: nat, j: nat, tree: seq<InstructionNode>)
    requires IsChain(insts, chain, id) && i < j < |chain| && chain[i] == chain[j]
    ensures !Shaped(insts, 0, tree)
  {
    if Shaped(insts, 0, tree) {
      assert IsWalk(insts, chain[..i + 1], 0);
      var sub := WalkDown(insts, 0, tree, chain[..i + 1]);
      var loop := chain[i..j + 1];
      forall k | 0 <= k < |loop| - 1 ensures ChildOf(insts, loop[k], loop[k + 1]) {
        assert ChildOf(insts, chain[i + k], chain[i + k + 1]);
      }
      LoopHasNoTree(insts, chain[i], loop, sub);
    }
  }

  /** The recursion from 0 ends, with a finite tree, exactly if no id comes twice on a chain from 0. */
  lemma TreeIffChainsEnd(insts: seq<Instruction>)
    ensures (exists tree :: Shaped(insts, 0, tree)) <==> ChainsEnd(insts)
  {
    if ChainsEnd(insts) {
      assert IsChain(insts, [0], 0);
      assert Shaped(insts, 0, TreeBelow(insts, 0, [0]));
    } else {
      var chain, id :| IsChain(insts, chain, id) && !NoRepeats(chain);
      var i, j :| 0 <= i < j < |chain| && chain[i] == chain[j];
      forall tree ensures !Shaped(insts, 0, tree) {
        RepeatHasNoTree(insts, chain, id, i, j, tree);
      }
    }
  }

  /** Two lists on which the recursion never ends: an id 0 below 0, and an id listed both below 0 and below itself. */
  lemma EndlessLists(c: string)
    ensures !ChainsEnd([Instruction(0, 0, c)])
    ensures !ChainsEnd([Instruction(5, 0, c), Instruction(5, 5, c)])
  {
    var a, b := [Instruction(0, 0, c)], [Instruction(5, 0, c), Instruction(5, 5, c)];
    assert ChildOf(a, 0, 0) by { assert a[0] in a; }
    assert IsChain(a, [0, 0], 0);
    assert !NoRepeats([0, 0]) by { assert [0, 0][0] == [0, 0][1]; }
    assert ChildOf(b, 0, 5) by { assert b[0] in b; }
    assert ChildOf(b, 5, 5) by { assert b[1] in b; }
    assert IsChain(b, [0, 5, 5], 5);
    assert !NoRepeats([0, 5, 5]) by { assert [0, 5, 5][1] == [0, 5, 5][2]; }
  }

  /** A list has one tree. */
  lemma {:induction false} OneTree(insts: seq<Instruction>, p: int, a: seq<InstructionNode>, b: seq<InstructionNode>)
    requires Shaped(insts, p, a) && Shaped(insts, p, b)
    ensures a == b
    decreases a
  {
    forall i | 0 <= i < |a| ensures a[i] == b[i] {
      OneTree(insts, a[i].Instruction.ID, a[i].Children, b[i].Children);
    }
  }

  /** The tree has exactly the instructions whose parent a chain from 0 leads to, whatever their ids. */
  lemma TreeHasReachable(insts: seq<Instruction>, tree: seq<InstructionNode>, x: Instruction)
    requires Shaped(insts, 0, tree)
    ensures x in Flatten(tree) <==> x in insts && exists chain :: IsChain(insts, chain, x.ParentID)
  {
    if x in insts && exists chain :: IsChain(insts, chain, x.ParentID) {
      var chain :| IsChain(insts, chain, x.ParentID);
      var sub := WalkDown(insts, 0, tree, chain);
      ChildrenAre(insts, x.ParentID, x);
      var ch := ChildrenOf(insts, x.ParentID);
      var i :| 0 <= i < |ch| && ch[i] == x;
      FlattenHas(sub, i, x);
    }
    if x in Flatten(tree) {
      assert tree[..|tree|] == tree;
      FlattenChained(insts, 0, [0], tree, |tree|, x);
    }
  }

  lemma {:induction false} FlattenChained(insts: seq<Instruction>, p: int, path: seq<int>,
                                          nodes: seq<InstructionNode>, k: nat, x: Instruction)
    requires Shaped(insts, p, nodes) && IsChain(insts, path, p) && k <= |nodes| && x in Flatten(nodes[..k])
    ensures x in insts && exists chain :: IsChain(insts, chain, x.ParentID)
    decreases nodes, k
  {
    hide IsChain;
    var node := nodes[k - 1];
    FlattenStep(nodes, k);
    assert node.Instruction in ChildrenOf(insts, p);
    ChildrenAre(insts, p, node.Instruction);
    if x in Flatten(nodes[..k - 1]) {
      FlattenChained(insts, p, path, nodes, k - 1, x);
    } else if x != node.Instruction {
      ChainLonger(insts, path, p, node.Instruction);
      assert node.Children[..|node.Children|] == node.Children;
      FlattenChained(insts, node.Instruction.ID, path + [node.Instruction.ID], node.Children, |node.Children|, x);
    }
  }

  // ----- each instruction once -----

  function Count(s: seq<Instruction>, x: Instruction): nat {
    multiset(s)[x]
  }

  /** The chain to x goes over path and then id: x is id's instruction or below it. */
  ghost predicate Via(insts: seq<Instruction>, path: seq<int>, id: int, x: Instruction) {
    exists c :: IsChain(insts, c, x.ID) && |path| < |c| && c[..|path| + 1] == path + [id]
  }

  ghost predicate ViaSome(insts: seq<Instruction>, path: seq<int>, children: seq<Instruction>, k: nat, x: Instruction)
    requires k <= |children|
  {
    exists i :: 0 <= i < k && Via(insts, path, children[i].ID, x)
  }

  lemma {:induction false} ChildrenDistinct(insts: seq<Instruction>, parentID: int)
    requires UniqueIDs(insts)
    ensures forall i, j :: 0 <= i < j < |ChildrenOf(insts, parentID)| ==>
              ChildrenOf(insts, parentID)[i].ID != ChildrenOf(insts, parentID)[j].ID
  {
    if insts != [] {
      var front, last := insts[..|insts| - 1], insts[|insts| - 1];
      ChildrenDistinct(front, parentID);
      var ch := ChildrenOf(front, parentID);
      forall i | 0 <= i < |ch| ensures ch[i].ID != last.ID {
        assert ch[i] in ch;
        ChildrenAre(front, parentID, ch[i]);
      }
    }
  }

  /** x is reached over one child only. */
  lemma ViaOne(insts: seq<Instruction>, path: seq<int>, a: int, b: int, x: Instruction)
    requires UniqueIDs(insts) && Via(insts, path, a, x) && Via(insts, path, b, x)
    ensures a == b
  {
    hide UniqueIDs, IsChain;
    var c :| IsChain(insts, c, x.ID) && |path| < |c| && c[..|path| + 1] == path + [a];
    var d :| IsChain(insts, d, x.ID) && |path| < |d| && d[..|path| + 1] == path + [b];
    OneChain(insts, c, d, x.ID);
    assert (path + [a])[|path|] == (path + [b])[|path|];
  }

  /** Below id: over one of its children, unless it is id's own instruction. */
  lemma ViaBelow(insts: seq<Instruction>, path: seq<int>, inst: Instruction, x: Instruction)
    requires UniqueIDs(insts) && inst in insts && x in insts && IsChain(insts, path + [inst.ID], inst.ID)
    ensures var ch := ChildrenOf(insts, inst.ID); var below := ViaSome(insts, path + [inst.ID], ch, |ch|, x);
            && (x == inst ==> Via(insts, path, inst.ID, x) && !below)
            && (x != inst ==> (Via(insts, path, inst.ID, x) <==> below))
  {
    hide UniqueIDs, IsChain;
    var id, ch := inst.ID, ChildrenOf(insts, inst.ID);
    var path' := path + [id];
    if Via(insts, path, id, x) && x != inst {
      var c :| IsChain(insts, c, x.ID) && |path| < |c| && c[..|path| + 1] == path';
      StepDown(insts, path', inst, x, c);
      var i :| 0 <= i < |ch| && ch[i].ID == c[|path'|];
      assert c[..|path'| + 1] == path' + [ch[i].ID];
      assert Via(insts, path', ch[i].ID, x);
    }
    if ViaSome(insts, path', ch, |ch|, x) {
      var i :| 0 <= i < |ch| && Via(insts, path', ch[i].ID, x);
      var c :| IsChain(insts, c, x.ID) && |path'| < |c| && c[..|path'| + 1] == path' + [ch[i].ID];
      assert c[..|path| + 1] == c[..|path'| + 1][..|path'|] == path';
      if x == inst {
        OneChain(insts, c, path', id);
      }
    }
    if x == inst {
      assert path'[..|path| + 1] == path';
    }
  }

  /** A chain that goes on behind id's path does so over a child of id. */
  lemma StepDown(insts: seq<Instruction>, path: seq<int>, inst: Instruction, x: Instruction, c: seq<int>)
    requires UniqueIDs(insts) && inst in insts && x in insts && x != inst && path != [] && path[|path| - 1] == inst.ID
    requires IsChain(insts, c, x.ID) && |path| <= |c| && c[..|path|] == path
    ensures |path| < |c| && exists i ::
            0 <= i < |ChildrenOf(insts, inst.ID)| && ChildrenOf(insts, inst.ID)[i].ID == c[|path|]
  {
    assert c[|path| - 1] == c[..|path|][|path| - 1] == inst.ID;
    if |path| < |c| {
      assert ChildOf(insts, c[|path| - 1], c[|path| - 1 + 1]);
      var y :| y in insts && y.ParentID == inst.ID && y.ID == c[|path|];
      ChildrenAre(insts, inst.ID, y);
    }
  }

  /** In the first k subtrees, x comes once if it is reached over one of their roots, and else not at all. */
  lemma {:induction false} FlattenCounts(insts: seq<Instruction>, parentID: int, path: seq<int>,
                                         nodes: seq<InstructionNode>, k: nat, x: Instruction)
    requires UniqueIDs(insts) && IsChain(insts, path, parentID) && x in insts
    requires Shaped(insts, parentID, nodes) && k <= |nodes|
    ensures Count(Flatten(nodes[..k]), x) == if ViaSome(insts, path, ChildrenOf(insts, parentID), k, x) then 1 else 0
    decreases nodes, k
  {
    hide UniqueIDs, IsChain, Via, Shaped, Flatten, Count;
    var ch := ChildrenOf(insts, parentID);
    TreeSize(insts, parentID, nodes);
    FlattenStep(nodes, k);
    if k > 0 {
      FlattenCounts(insts, parentID, path, nodes, k - 1, x);
      NodeCounts(insts, parentID, path, nodes, k - 1, x);
      CountJoin(Flatten(nodes[..k - 1]), nodes[k - 1].Instruction, Flatten(nodes[k - 1].Children), x);
      if ViaSome(insts, path, ch, k - 1, x) && Via(insts, path, ch[k - 1].ID, x) {
        var i :| 0 <= i < k - 1 && Via(insts, path, ch[i].ID, x);
        ViaOne(insts, path, ch[i].ID, ch[k - 1].ID, x);
        ChildrenDistinct(insts, parentID);
      }
    } else {
      assert Count([], x) == 0 by { CountNone(x); }
    }
  }

  lemma FlattenStep(nodes: seq<InstructionNode>, k: nat)
    requires k <= |nodes|
    ensures k == 0 ==> Flatten(nodes[..k]) == []
    ensures k > 0 ==> Flatten(nodes[..k]) ==
                      Flatten(nodes[..k - 1]) + [nodes[k - 1].Instruction] + Flatten(nodes[k - 1].Children)
  {
    if k > 0 {
      assert nodes[..k][..k - 1] == nodes[..k - 1];
    }
  }

  lemma CountNone(x: Instruction)
    ensures Count([], x) == 0
  {
  }

  lemma CountJoin(a: seq<Instruction>, y: Instruction, b: seq<Instruction>, x: Instruction)
    ensures Count(a + [y] + b, x) == Count(a, x) + (if x == y then 1 else 0) + Count(b, x)
  {
  }

  lemma {:induction false} NodeCounts(insts: seq<Instruction>, parentID: int, path: seq<int>,
                                      nodes: seq<InstructionNode>, i: nat, x: Instruction)
    requires UniqueIDs(insts) && IsChain(insts, path, parentID) && x in insts
    requires Shaped(insts, parentID, nodes) && i < |nodes|
    ensures (if x == nodes[i].Instruction then 1 else 0) + Count(Flatten(nodes[i].Children), x) ==
            if Via(insts, path, ChildrenOf(insts, parentID)[i].ID, x) then 1 else 0
    decreases nodes, i
  {
    hide UniqueIDs, IsChain, Via;
    var inst := ChildrenOf(insts, parentID)[i];
    assert inst in ChildrenOf(insts, parentID);
    ChildrenAre(insts, parentID, inst);
    ChainLonger(insts, path, parentID, inst);
    var children := nodes[i].Children;
    assert children[..|children|] == children;
    FlattenCounts(insts, inst.ID, path + [inst.ID], children, |children|, x);
    ViaBelow(insts, path, inst, x);
  }

  /** The chain of parents of x ends at 0. */
  ghost predicate FromZero(insts: seq<Instruction>, x: Instruction) {
    exists c :: IsChain(insts, c, x.ID)
  }

  /** The whole tree has each instruction that comes down from 0 once, and nothing else. */
  lemma TreeHasEachOnce(insts: seq<Instruction>, tree: seq<InstructionNode>, x: Instruction)
    requires UniqueIDs(insts) && Shaped(insts, 0, tree)
    ensures Count(Flatten(tree), x) == if x in insts && FromZero(insts, x) then 1 else 0
  {
    hide UniqueIDs, Via, Shaped;
    assert tree[..|tree|] == tree;
    TreeSize(insts, 0, tree);
    assert IsChain(insts, [0], 0);
    if x in insts {
      FlattenCounts(insts, 0, [0], tree, |tree|, x);
      ViaZero(insts, x);
    } else {
      TreeHasReachable(insts, tree, x);
    }
  }

  lemma TreeSize(insts: seq<Instruction>, parentID: int, nodes: seq<InstructionNode>)
    requires Shaped(insts, parentID, nodes)
    ensures |nodes| == |ChildrenOf(insts, parentID)|
  {
  }

  lemma ViaZero(insts: seq<Instruction>, x: Instruction)
    requires UniqueIDs(insts) && x in insts
    ensures var ch := ChildrenOf(insts, 0); ViaSome(insts, [0], ch, |ch|, x) <==> FromZero(insts, x)
  {
    var ch := ChildrenOf(insts, 0);
    if FromZero(insts, x) {
      var c :| IsChain(insts, c, x.ID);
      assert |c| > 1;
      assert ChildOf(insts, c[0], c[0 + 1]);
      var y :| y in insts && y.ParentID == 0 && y.ID == c[1];
      ChildrenAre(insts, 0, y);
      var i :| 0 <= i < |ch| && ch[i] == y;
      assert c[..2] == [0] + [ch[i].ID];
      assert Via(insts, [0], ch[i].ID, x);
    }
  }

  /** The tree below the instructions without a parent. */
  method GetInstructionTree(insts: seq<Instruction>) returns (tree: seq<InstructionNode>)
    requires ChainsEnd(insts)
    ensures Shaped(insts, 0, tree) && InListOrder(insts, 0, tree)
    ensures forall x :: x in Flatten(tree) <==> x in insts && exists chain :: IsChain(insts, chain, x.ParentID)
    ensures UniqueIDs(insts) ==>
            forall x :: Count(Flatten(tree), x) == if x in insts && FromZero(insts, x) then 1 else 0
  {
    hide ChainsEnd, Shaped, InListOrder, UniqueIDs, FromZero;
    assert IsChain(insts, [0], 0);
    tree := BuildInstructionTree(insts, 0, [0]);
    forall x ensures x in Flatten(tree) <==> x in insts && exists chain :: IsChain(insts, chain, x.ParentID) {
      TreeHasReachable(insts, tree, x);
    }
    if UniqueIDs(insts) {
      forall x ensures Count(Flatten(tree), x) == if x in insts && FromZero(insts, x) then 1 else 0 {
        TreeHasEachOnce(insts, tree, x);
      }
    }
  }
}
