// The B+Tree: nodes cached in memory in front of a page store.
module BTree {
  import opened Sequences
  import opened Bytes
  import opened NodeCodec
  import opened TreeModel
  import opened TreeContents
  import opened TreeSearch
  import opened TreeBalance
  import opened TreePages
  import opened TreeScan
  import opened TreeStorage
  import opened TreeTheorems
  import opened TreeFit
  import opened TreeNode

  /** The page store behind the tree: a read returns the last write. */
  class DiskManager {
    var pages: map<PageId, seq<Byte>>
    var pageCount: PageId

    constructor ()
      ensures pages == map[] && pageCount == 1
    {
      pages, pageCount := map[], 1;
    }

    method AllocatePage() returns (pageID: PageId)
      modifies this
      ensures pageID == old(pageCount) && pageCount == old(pageCount) + 1 && pages == old(pages)
    {
      pageID := pageCount;
      pageCount := pageCount + 1;
    }

    method ReadPage(pageID: PageId) returns (r: Option<seq<Byte>>)
      ensures r == if pageID in pages then Some(pages[pageID]) else None
    {
      r := if pageID in pages then Some(pages[pageID]) else None;
    }

    method WritePage(pageID: PageId, data: seq<Byte>)
      modifies this
      ensures pages == old(pages)[pageID := data] && pageCount == old(pageCount)
    {
      pages := pages[pageID := data];
    }
  }

  /** A node in memory is the one held for page p. */
  ghost predicate Cached(node: Node, p: PageId, nodes: NodeStore)
    reads node
  {
    node.PageID == p && p in nodes && node.Val() == nodes[p]
  }

  ghost predicate Returned(r: Inserted, newPage: PageId, splitKey: Key) {
    match r
    case Kept(_, _) => newPage == 0
    case Split(_, s, r, _) => newPage == r.page && newPage != 0 && splitKey == s
  }

  lemma HalfOfChildren(cs: seq<Tree>, mid: nat)
    requires mid <= |cs|
    ensures ChildPage(cs[..mid]) == ChildPage(cs)[..mid] && ChildPage(cs[mid..]) == ChildPage(cs)[mid..]
  {
  }

  class BTree {
    var Root: PageId
    const Disk: DiskManager
    var nodePool: map<PageId, Node>
    ghost var tree: Tree
    /** The nodes as they were last saved, whatever their pages give back. */
    ghost var nodes: NodeStore

    /** A node that is not cached fits its page; one that does not fit its page is not read back from it. */
    ghost predicate NodeTied(p: PageId)
      requires p in nodes
      reads this`nodes, this`nodePool, Disk, nodePool.Values
    {
      && p in Disk.pages && Codable(nodes[p]) && (Decode(Disk.pages[p]) == Some(nodes[p]) <==> Fits(nodes[p]))
      && if p in nodePool then nodePool[p].Val() == nodes[p] else Fits(nodes[p])
    }

    /** All held nodes but that of page q are tied to cache and pages. */
    ghost predicate TiedBut(q: PageId)
      reads this`nodes, this`nodePool, Disk, nodePool.Values
    {
      && (forall p :: p in nodes ==> 0 < p < Disk.pageCount)
      && (forall p :: p in nodePool ==> nodePool[p].PageID == p)
      && (forall p :: p in nodes && p != q ==> NodeTied(p))
    }

    ghost predicate Tied()
      reads this`nodes, this`nodePool, Disk, nodePool.Values
    {
      TiedBut(0)
    }

    ghost predicate Valid()
      reads this, Disk, nodePool.Values
    {
      && Tied()
      && Root == tree.page
      && Disk.pageCount > 0
      && Sound(tree, HeightOf(tree), Disk.pageCount)
      && StoredIn(tree, nodes) && Coded(tree)
    }

    /** The entries of the tree, in slot order. */
    ghost function Contents(): seq<Entry>
      requires Valid()
      reads this, Disk, nodePool.Values
    {
      Entries(tree, None)
    }

    /** The keys that searches find, with their values. */
    ghost function Map(): map<int, Value>
      requires Valid()
      reads this, Disk, nodePool.Values
    {
      MapOf(tree)
    }

    /** Every node of the tree is read back from its page as the program holds it. */
    ghost predicate Coherent()
      reads this, Disk
    {
      Faithful(tree, nodes, Disk.pages)
    }

    /** That is so exactly if every node fits its page. */
    lemma CoherentIffFits()
      requires Valid()
      ensures Coherent() <==> AllFit(tree)
    {
      hide Codable, Fits, Decode, Sound, Coded;
      forall p | p in nodes ensures NodeTied(p) {
      }
      FaithfulIffFits(tree, nodes, Disk.pages);
    }

    /** A new index: an empty leaf on the next page of the disk, whatever the disk holds. */
    constructor (disk: DiskManager)
      requires 0 < disk.pageCount < TWO64 - 1
      modifies disk
      ensures Valid() && Coherent() && AllCached() && Disk == disk && fresh(nodePool.Values)
      ensures tree == Leaf(old(disk.pageCount), [], [], 0) && Disk.pageCount == old(disk.pageCount) + 1
      ensures Map() == map[] && ShadowsOf(tree) == map[]
    {
      hide Codable, Fits, Sound, StoredIn, MapOf, ShadowsOf, NodeOf, Sized, Saves, Reach, Coded, Faithful, NodeTied;
      Root, Disk, nodePool := 0, disk, map[];
      new;
      nodes := map[];
      var rootPage := disk.AllocatePage();
      var root := new Node(rootPage, LEAF);
      tree := Leaf(rootPage, [], [], 0);
      NewTree(rootPage);
      var ok := SaveNode(root);
      StoredLeaf(tree, nodes);
      Root := rootPage;
      CoherentIffFits();
    }

    /** Every node held is cached: the pages are never read. */
    ghost predicate AllCached()
      reads this`nodes, this`nodePool
    {
      forall p :: p in nodes ==> p in nodePool
    }

    /** Cached nodes that are held stay cached; nodes that join the cache are new objects. */
    twostate predicate PoolGrows()
      reads this
    {
      && old(nodes).Keys <= nodes.Keys && (old(AllCached()) ==> AllCached())
      && (forall p :: p in old(nodePool) && p in old(nodes) ==> p in nodePool && nodePool[p] == old(nodePool[p]))
      && (forall p :: p in nodePool ==> (p in old(nodePool) && nodePool[p] == old(nodePool[p])) || fresh(nodePool[p]))
    }

    /** Changing the node of page q, and no other cached node, keeps the rest tied. */
    twostate lemma StillTied(q: PageId)
      requires old(TiedBut(q)) && unchanged(this) && unchanged(Disk)
      requires forall p :: p in nodePool && p != q ==> nodePool[p].Val() == old(nodePool[p].Val())
      ensures TiedBut(q)
    {
      hide Codable, Fits, Decode;
      forall p | p in nodes && p != q ensures NodeTied(p) {
        assert old(NodeTied(p));
      }
    }

    /** The node on a page, from the cache or else from the page. */
    method GetNode(pageID: PageId) returns (node: Node?)
      requires Tied()
      modifies this`nodePool
      ensures Tied() && PoolGrows()
      ensures node == null <==> pageID !in old(nodePool) && (pageID !in Disk.pages || Decode(Disk.pages[pageID]).None?)
      ensures node != null ==> pageID in nodePool && nodePool[pageID] == node
      ensures node != null && pageID !in old(nodePool) ==> Decode(Disk.pages[pageID]) == Some(node.Val())
      ensures pageID in nodes ==> node != null && node.Val() == nodes[pageID]
    {
      hide Codable, Fits, Decode;
      if pageID in nodes {
        assert NodeTied(pageID);
      }
      if pageID in nodePool {
        return nodePool[pageID];
      }
      var data := Disk.ReadPage(pageID);
      if data.None? {
        return null;
      }
      node := DeserializeNode(data.value, pageID);
      if node == null {
        return null;
      }
      nodePool := nodePool[pageID := node];
      forall p | p in nodes ensures NodeTied(p) {
        assert old(NodeTied(p));
      }
    }

    /** The node of a held subtree. */
    method LoadNode(pageID: PageId, ghost t: Tree) returns (node: Node)
      requires Tied() && pageID == t.page && OnPage(t, nodes)
      modifies this`nodePool
      ensures Tied() && PoolGrows()
      ensures t.page in nodePool && nodePool[t.page] == node && node.Val() == NodeOf(t)
    {
      hide Codable, Fits, NodeOf, Decode;
      var n := GetNode(pageID);
      node := n;
    }

    /** Write a node to its page and keep it cached. Not ok: the write panics, and nothing is written. */
    method SaveNode(node: Node) returns (ok: bool)
      requires Codable(node.Val()) && 0 < node.PageID < Disk.pageCount && TiedBut(node.PageID)
      modifies this`nodePool, this`nodes, Disk
      ensures Disk.pageCount == old(Disk.pageCount)
      ensures ok <==> Saves(node.Val())
      ensures ok ==> nodes == old(nodes)[node.PageID := node.Val()] && nodePool == old(nodePool)[node.PageID := node]
      ensures ok ==> Tied() && (old(AllCached()) ==> AllCached())
      ensures ok ==> node.PageID in Disk.pages && Written(node.Val()) == Some(Disk.pages[node.PageID])
    {
      hide Codable, Fits, Decode, Saves, Written;
      var data := node.Serialize();
      if data == null {
        return false;
      }
      Disk.WritePage(node.PageID, data[..]);
      nodePool := nodePool[node.PageID := node];
      nodes := nodes[node.PageID := node.Val()];
      WrittenReadsBackIff(node.Val());
      forall p | p in nodes ensures NodeTied(p) {
        assert p != node.PageID ==> old(NodeTied(p));
      }
      ok := true;
    }

    /** The next page of the disk; all held nodes but that of page q stay tied. */
    method NewPage(ghost q: PageId) returns (pageID: PageId)
      requires TiedBut(q)
      modifies Disk
      ensures pageID == old(Disk.pageCount) && Disk.pageCount == pageID + 1 && TiedBut(q)
    {
      hide Codable, Fits, Decode;
      pageID := Disk.AllocatePage();
      forall p | p in nodes && p != q ensures NodeTied(p) {
        assert old(NodeTied(p));
      }
    }

    /** Save a node that just grew, halving it first if it is full. */
    method SaveGrown(node: Node, ghost t: Tree) returns (newPage: PageId, splitKey: Key, ok: bool)
      requires 0 < t.page < Disk.pageCount && node.PageID == t.page && node.Val() == NodeOf(t)
      requires t.page in nodePool && nodePool[t.page] == node && t.page in nodes
      requires t.Leaf? ==> |t.keys| == |t.values|
      requires t.Inner? ==> |t.children| == |t.keys| + 1
      requires TopCodable(Settle(t, Disk.pageCount)) && TiedBut(t.page)
      modifies this`nodePool, this`nodes, Disk, node
      ensures ok <==> ResultSaves(Settle(t, old(Disk.pageCount)))
      ensures ok ==> Tied() && PoolGrows()
      ensures ok ==> Disk.pageCount == Settle(t, old(Disk.pageCount)).np
      ensures ok ==> nodes == WithTop(old(nodes), Settle(t, old(Disk.pageCount)))
      ensures ok ==> Returned(Settle(t, old(Disk.pageCount)), newPage, splitKey)
    {
      hide Codable, Saves, TiedBut;
      newPage, splitKey := 0, 0;
      assert node.Keys == NodeOf(t).keys == t.keys;
      if !node.IsFull() {
        ok := SaveNode(node);
        return;
      }
      newPage, splitKey, ok := SplitAndSave(node, t);
    }

    method SplitAndSave(node: Node, ghost t: Tree) returns (newPage: PageId, splitKey: Key, ok: bool)
      requires 0 < t.page < Disk.pageCount && node.PageID == t.page && node.Val() == NodeOf(t)
      requires t.page in nodePool && nodePool[t.page] == node && t.page in nodes
      requires t.Leaf? ==> |t.keys| == |t.values|
      requires t.Inner? ==> |t.children| == |t.keys| + 1
      requires |t.keys| >= MAX_KEYS && TopCodable(Settle(t, Disk.pageCount)) && TiedBut(t.page)
      modifies this`nodePool, this`nodes, Disk, node
      ensures ok <==> ResultSaves(Settle(t, old(Disk.pageCount)))
      ensures ok ==> Tied() && PoolGrows()
      ensures ok ==> Disk.pageCount == Settle(t, old(Disk.pageCount)).np
      ensures ok ==> nodes == WithTop(old(nodes), Settle(t, old(Disk.pageCount)))
      ensures ok ==> Returned(Settle(t, old(Disk.pageCount)), newPage, splitKey)
    {
      hide Codable, Saves, NodeTied;
      newPage := NewPage(t.page);
      label Allocated:
      var newNode;
      newNode, splitKey := SplitGrown(node, newPage, t);
      StillTied@Allocated(t.page);
      ok := SaveHalves(node, newNode);
    }

    method SaveHalves(node: Node, newNode: Node) returns (ok: bool)
      requires 0 < node.PageID < newNode.PageID < Disk.pageCount && TiedBut(node.PageID)
      requires Codable(node.Val()) && Codable(newNode.Val())
      modifies this`nodePool, this`nodes, Disk
      ensures Disk.pageCount == old(Disk.pageCount)
      ensures ok <==> Saves(node.Val()) && Saves(newNode.Val())
      ensures ok ==> Tied() && nodePool == old(nodePool)[node.PageID := node][newNode.PageID := newNode]
      ensures ok ==> nodes == old(nodes)[node.PageID := node.Val()][newNode.PageID := newNode.Val()]
    {
      hide Codable, Saves, NodeTied;
      ok := SaveNode(node);
      if ok {
        ok := SaveNode(newNode);
      }
    }

    /** The pages that a subtree does not use hold the nodes they held. */
    twostate predicate OthersKept(t: Tree)
      reads this
    {
      KeptOutside(PagesOf(t), old(nodes), nodes)
    }

    ghost predicate Ready(t: Tree, h: nat, lo: Bound, hi: Bound, key: Key)
      reads this, Disk
    {
      ReadyIn(t, h, lo, hi, key, nodes, Disk.pageCount)
    }

    method InsertInLeaf(node: Node, key: Key, value: Value, ghost t: Tree)
      returns (newPage: PageId, splitKey: Key, ok: bool)
      requires Tied() && 0 < t.page < Disk.pageCount
      requires t.page in nodePool && nodePool[t.page] == node && node.Val() == NodeOf(t) && t.page in nodes
      requires t.Leaf? && Ascending(t.keys) && |t.keys| == |t.values|
      requires TopCodable(InsertBelow(t, key, value, Disk.pageCount))
      modifies this`nodePool, this`nodes, Disk, node
      ensures ok <==> ResultSaves(InsertBelow(t, key, value, old(Disk.pageCount)))
      ensures ok ==> Tied() && PoolGrows()
      ensures ok ==> Disk.pageCount == InsertBelow(t, key, value, old(Disk.pageCount)).np
      ensures ok ==> nodes == WithTop(old(nodes), InsertBelow(t, key, value, old(Disk.pageCount)))
      ensures ok ==> Returned(InsertBelow(t, key, value, old(Disk.pageCount)), newPage, splitKey)
    {
      hide Codable, Saves, NodeTied;
      newPage, splitKey := 0, 0;
      var replaced := PutInLeaf(node, key, value, t);
      StillTied(t.page);
      if replaced {
        ok := SaveNode(node);
        return;
      }
      newPage, splitKey, ok := SaveGrown(node, InsertLeaf(t, key, value));
    }

    /** Take in what became of child i: a new child behind it if it split, and the node's page in any case. */
    method SaveAfterChild(node: Node, i: nat, newChildPage: PageId, childKey: Key, ghost t: Tree, ghost below: Inserted)
      returns (newPage: PageId, splitKey: Key, ok: bool)
      requires Tied() && 0 < t.page < Disk.pageCount
      requires t.page in nodePool && nodePool[t.page] == node && node.Val() == NodeOf(t) && t.page in nodes
      requires t.Inner? && Ascending(t.keys) && |t.children| == |t.keys| + 1 && i < |t.children|
      requires Returned(below, newChildPage, childKey) && below.np == Disk.pageCount
      requires below.Kept? ==> below.t.page == t.children[i].page
      requires below.Split? ==> below.left.page == t.children[i].page && Position(t.keys, below.sep) == i
      requires TopCodable(AfterChild(t, i, below))
      modifies this`nodePool, this`nodes, Disk, node
      ensures ok <==> ResultSaves(AfterChild(t, i, below))
      ensures ok ==> Tied() && PoolGrows()
      ensures ok ==> Disk.pageCount == AfterChild(t, i, below).np
      ensures ok ==> nodes == WithTop(old(nodes), AfterChild(t, i, below))
      ensures ok ==> Returned(AfterChild(t, i, below), newPage, splitKey)
    {
      hide Codable, Saves, NodeTied, AllCached, Settle;
      newPage, splitKey := 0, 0;
      if newChildPage != 0 {
        SplitChildPages(t.children, i, below.left, below.right);
        node.InsertKey(childKey, newChildPage, []);
        StillTied(t.page);
        newPage, splitKey, ok := SaveGrown(node, WithSplitChild(t, i, below.left, childKey, below.right));
      } else {
        KeptChildPages(t.children, i, below.t);
        ok := SaveNode(node);
      }
    }

    /**
     Insert below the node on a page. Not ok: writing the leaf panics. The result is the new node behind this one, if
     it split (its page, or else 0), and the separator.
     */
    method InsertRecursive(pageID: PageId, key: Key, value: Value, ghost t: Tree, ghost h: nat, ghost lo: Bound,
                           ghost hi: Bound)
      returns (newPage: PageId, splitKey: Key, ok: bool)
      requires Tied() && pageID == t.page && Ready(t, h, lo, hi, key)
      modifies this`nodePool, this`nodes, Disk, nodePool.Values
      ensures Sized(t) && (ok <==> LeafSaves(t, key, value))
      ensures ok ==> Tied() && PoolGrows() && OthersKept(t)
      ensures ok ==> Disk.pageCount == InsertBelow(t, key, value, old(Disk.pageCount)).np
      ensures ok ==> ResultStored(InsertBelow(t, key, value, old(Disk.pageCount)), nodes)
      ensures ok ==> Returned(InsertBelow(t, key, value, old(Disk.pageCount)), newPage, splitKey)
      decreases h, 1
    {
      hide Codable, ReadyIn, InsertBelow, Shaped, StoredIn, Distinct, Coded;
      hide ResultStored, Returned, KeptOutside, PagesOf, Sized, Ascending, NodeTied, Position, LeafSaves;
      ReadyTop(t, h, lo, hi, key, value, nodes, Disk.pageCount);
      var node := LoadNode(pageID, t);
      if node.IsLeaf() {
        newPage, splitKey, ok := InsertAtLeaf(node, key, value, t, h, lo, hi);
      } else {
        newPage, splitKey, ok := InsertAtInner(node, key, value, t, h, lo, hi);
      }
    }

    method InsertAtLeaf(node: Node, key: Key, value: Value, ghost t: Tree, ghost h: nat, ghost lo: Bound,
                        ghost hi: Bound)
      returns (newPage: PageId, splitKey: Key, ok: bool)
      requires Tied() && t.Leaf? && Ready(t, h, lo, hi, key)
      requires t.page in nodePool && nodePool[t.page] == node && node.Val() == NodeOf(t)
      modifies this`nodePool, this`nodes, Disk, nodePool.Values
      ensures Sized(t) && (ok <==> LeafSaves(t, key, value))
      ensures ok ==> Tied() && PoolGrows() && OthersKept(t)
      ensures ok ==> Disk.pageCount == InsertBelow(t, key, value, old(Disk.pageCount)).np
      ensures ok ==> ResultStored(InsertBelow(t, key, value, old(Disk.pageCount)), nodes)
      ensures ok ==> Returned(InsertBelow(t, key, value, old(Disk.pageCount)), newPage, splitKey)
    {
      hide Codable, ReadyIn, InsertBelow, Shaped, StoredIn, Distinct, Coded, Returned, NodeOf, NodeTied, LeafSaves;
      ReadyTop(t, h, lo, hi, key, value, nodes, Disk.pageCount);
      LeafCompletes(t, h, lo, hi, key, value, nodes, Disk.pageCount);
      LeafResult(t, key, value, Disk.pageCount);
      newPage, splitKey, ok := InsertInLeaf(node, key, value, t);
    }

    method InsertAtInner(node: Node, key: Key, value: Value, ghost t: Tree, ghost h: nat, ghost lo: Bound,
                         ghost hi: Bound)
      returns (newPage: PageId, splitKey: Key, ok: bool)
      requires Tied() && t.Inner? && Ready(t, h, lo, hi, key)
      requires t.page in nodePool && nodePool[t.page] == node && node.Val() == NodeOf(t)
      modifies this`nodePool, this`nodes, Disk, nodePool.Values
      ensures Sized(t) && (ok <==> LeafSaves(t, key, value))
      ensures ok ==> Tied() && PoolGrows() && OthersKept(t)
      ensures ok ==> Disk.pageCount == InsertBelow(t, key, value, old(Disk.pageCount)).np
      ensures ok ==> ResultStored(InsertBelow(t, key, value, old(Disk.pageCount)), nodes)
      ensures ok ==> Returned(InsertBelow(t, key, value, old(Disk.pageCount)), newPage, splitKey)
      decreases h, 0
    {
      hide AllCached, Codable, ReadyIn, InsertBelow, Shaped, StoredIn, Distinct, Coded, NodeTied, PagesOf, Sized;
      hide LeafSaves, Ascending;
      newPage, splitKey := 0, 0;
      ghost var was, np := nodes, Disk.pageCount;
      ReadyTop(t, h, lo, hi, key, value, was, np);
      ReadyChild(t, h, lo, hi, key, was, np);
      SavesBelow(t, key, value);
      var childIdx := node.FindKey(key);
      var newChildPage, childKey;
      newChildPage, childKey, ok :=
        InsertRecursive(node.Children[childIdx], key, value, t.children[childIdx], h - 1,
                        LowOf(t.keys, childIdx, lo), HighOf(t.keys, childIdx, hi));
      if !ok {
        return;
      }
      newPage, splitKey := TakeIn(node, childIdx, newChildPage, childKey, key, value, t, h, lo, hi, was, np);
    }

    /** The end of a step: the child's result is held, the node's own page is not saved yet. */
    method TakeIn(node: Node, i: nat, newChildPage: PageId, childKey: Key, key: Key, value: Value,
                  ghost t: Tree, ghost h: nat, ghost lo: Bound, ghost hi: Bound, ghost was: NodeStore, ghost np: PageId)
      returns (newPage: PageId, splitKey: Key)
      requires Tied() && t.Inner? && ReadyIn(t, h, lo, hi, key, was, np) && forall p :: p in was ==> p < np
      requires t.page in nodePool && nodePool[t.page] == node && t.page in was
      requires i == Position(t.keys, key) && |t.children| == |t.keys| + 1 && Sized(t.children[i])
      requires InsertBelow(t.children[i], key, value, np).np == Disk.pageCount
      requires ResultStored(InsertBelow(t.children[i], key, value, np), nodes)
      requires Returned(InsertBelow(t.children[i], key, value, np), newChildPage, childKey)
      requires KeptOutside(PagesOf(t.children[i]), was, nodes)
      modifies this`nodePool, this`nodes, Disk, node
      ensures Tied() && PoolGrows() && KeptOutside(PagesOf(t), was, nodes)
      ensures Sized(t) && Disk.pageCount == InsertBelow(t, key, value, np).np
      ensures ResultStored(InsertBelow(t, key, value, np), nodes)
      ensures Returned(InsertBelow(t, key, value, np), newPage, splitKey)
    {
      hide Codable, ReadyIn, InsertBelow, Shaped, StoredIn, Distinct, Coded;
      hide ResultStored, Returned, AfterChild, TopCodable, ResultSaves;
      ReadyTop(t, h, lo, hi, key, value, was, np);
      AfterBelow(t, h, lo, hi, key, value, np, was, nodes);
      TopKeepsOthers(t, h, lo, hi, key, value, np, PagesOf(t.children[i]), was, nodes);
      assert NodeTied(t.page);
      var ok;
      newPage, splitKey, ok :=
        SaveAfterChild(node, i, newChildPage, childKey, t, InsertBelow(t.children[i], key, value, np));
    }

    /**
     Insert a key, or replace its value; a key that separates nodes gets a second, unseen copy instead. Not ok: writing
     the leaf slices out of its page and panics. A last value that runs past the page is cut off there without an
     error; the program then holds a node that its page does not give back.
     */
    method Insert(key: Key, value: Value) returns (ok: bool)
      requires Valid() && IsInt64(key) && Disk.pageCount + HeightOf(tree) + 2 <= TWO64
      modifies this, Disk, nodePool.Values
      ensures ok <==> LeafSaves(old(tree), key, value)
      ensures ok ==> Valid() && PoolGrows()
      ensures ok ==> (tree, Disk.pageCount) == InsertRoot(old(tree), key, value, old(Disk.pageCount))
      ensures ok ==> Contents() == Upsert(old(Contents()), Target(old(tree), key, None), value)
      ensures ok ==> if Separates(old(tree), key)
                     then Map() == old(Map()) && ShadowsOf(tree) == ShadowsOf(old(tree))[key := value]
                     else Map() == old(Map())[key := value] && ShadowsOf(tree) == ShadowsOf(old(tree))
      ensures ok && old(Coherent()) ==> (Coherent() <==> LeafFits(old(tree), key, value))
    {
      hide Codable, ReadyIn, Sound, StoredIn, Coded, InsertBelow, Upsert, MapOf, ShadowsOf, ResultStored, CodedResult;
      hide Entries, Target, Sized, Separates, KeptOutside, ResultPages, Below, NodeTied, Faithful, AllFit, LeafFits;
      hide LeafSaves;
      ghost var h, np, was := HeightOf(tree), Disk.pageCount, tree;
      CoherentIffFits();
      ghost var r := RootInserted(tree, h, key, value, np, nodes);
      var newChild, splitKey;
      newChild, splitKey, ok := InsertRecursive(Root, key, value, tree, h, None, None);
      if !ok {
        return;
      }
      if newChild != 0 {
        GrowRoot(newChild, splitKey, r);
      } else {
        KeptRootStored(r, nodes);
      }
      tree := InsertRoot(was, key, value, np).0;
      CoherentIffFits();
      if old(Coherent()) {
        InsertRootFits(was, key, value, np);
      }
    }

    /** Put a new root over the two halves of the old one. */
    method GrowRoot(newChild: PageId, splitKey: Key, ghost r: Inserted)
      requires Tied() && r.Split? && newChild == r.right.page && splitKey == r.sep && Root == r.left.page
      requires r.np == Disk.pageCount && Disk.pageCount < TWO64 && 0 < Disk.pageCount
      requires ResultStored(r, nodes) && CodedResult(r) && Below(ResultPages(r), r.np)
      modifies this`Root, this`nodePool, this`nodes, Disk
      ensures Tied() && PoolGrows()
      ensures Root == Rooted(r).0.page && Disk.pageCount == Rooted(r).1
      ensures StoredIn(Rooted(r).0, nodes)
    {
      hide Codable, StoredIn, ResultStored, CodedResult, Saves, NodeTied, Written, Below, NodeOf;
      ghost var was := nodes;
      var newRootPage := NewPage(0);
      var newRoot := new Node(newRootPage, INTERNAL);
      newRoot.Keys := newRoot.Keys + [splitKey];
      newRoot.Children := newRoot.Children + [Root, newChild];
      NewRootStored(r, newRoot.Val(), was);
      Root := newRootPage;
      var _ := SaveNode(newRoot);
    }

    /** The value that a search finds under a key. */
    method Search(key: Key) returns (r: Option<Value>)
      requires Valid()
      modifies this`nodePool
      ensures Valid() && tree == old(tree)
      ensures r == At(Map(), key)
    {
      hide Codable, Shaped, Occupied, Distinct, Chained, StoredIn, MapOf;
      FindIsMap(tree, HeightOf(tree), Disk.pageCount, key);
      r := SearchRecursive(Root, key, tree, HeightOf(tree), None, None);
    }

    method SearchRecursive(pageID: PageId, key: Key, ghost t: Tree, ghost h: nat, ghost lo: Bound, ghost hi: Bound)
      returns (r: Option<Value>)
      requires Tied() && pageID == t.page
      requires Shaped(t, h, lo, hi) && Sized(t) && StoredIn(t, nodes)
      modifies this`nodePool
      ensures Tied() && PoolGrows()
      ensures r == Find(t, key)
      decreases h
    {
      hide Codable, Shaped, StoredIn, NodeTied, Position;
      StoredTop(t, h, lo, hi, nodes);
      var node := LoadNode(pageID, t);
      var pos := node.FindKey(key);
      if node.IsLeaf() {
        if pos < |node.Keys| && node.Keys[pos] == key {
          return Some(node.Values[pos]);
        }
        return None;
      }
      StoredChild(t, h, lo, hi, nodes, SearchChild(t.keys, key));
      if pos < |node.Keys| && node.Keys[pos] <= key {
        r := SearchRecursive(node.Children[pos + 1], key, t.children[pos + 1], h - 1,
                             LowOf(t.keys, pos + 1, lo), HighOf(t.keys, pos + 1, hi));
        return;
      }
      r := SearchRecursive(node.Children[pos], key, t.children[pos], h - 1, LowOf(t.keys, pos, lo),
        HighOf(t.keys, pos, hi));
    }

    /** The leaf that a scan from key starts at. */
    method FindLeaf(pageID: PageId, key: Key, ghost t: Tree, ghost h: nat, ghost lo: Bound, ghost hi: Bound)
      returns (leaf: Node)
      requires Tied() && pageID == t.page
      requires Shaped(t, h, lo, hi) && Sized(t) && StoredIn(t, nodes)
      modifies this`nodePool
      ensures Tied() && PoolGrows()
      ensures leaf.Val() == NodeOf(LeafFor(t, key))
      decreases h
    {
      hide Codable, Shaped, StoredIn, NodeTied, Position;
      StoredTop(t, h, lo, hi, nodes);
      leaf := LoadNode(pageID, t);
      if !leaf.IsLeaf() {
        var pos := leaf.FindKey(key);
        StoredChild(t, h, lo, hi, nodes, pos);
        leaf := FindLeaf(leaf.Children[pos], key, t.children[pos], h - 1, LowOf(t.keys, pos, lo),
          HighOf(t.keys, pos, hi));
      }
    }

    /** The values of all keys from startKey to endKey, walking the leaf chain. */
    method Scan(startKey: Key, endKey: Key) returns (result: seq<Value>)
      requires Valid()
      modifies this`nodePool
      ensures Valid() && tree == old(tree)
      ensures result == Range(Contents(), startKey, endKey)
      ensures IsSortedRange(result, Map(), startKey, endKey) <==> NoKeyWithin(ShadowsOf(tree), startKey, endKey)
    {
      hide Codable, Shaped, Occupied, Distinct, Chained, StoredIn, MapOf, ShadowsOf, Entries, Leaves, Range, NodeTied;
      hide Coded, Sized;
      hide LeavesRange, LeafRange, LeafFor, LeavesAscend, KeysUnder, IsSortedRange, NoKeyWithin, Walkable, NodeOf;
      ghost var ls, n := ScanFacts(tree, HeightOf(tree), Disk.pageCount, nodes, startKey, endKey);
      LeafOfScan(ls, n, nodes);
      var leaf: Node := FindLeaf(Root, startKey, tree, HeightOf(tree), None, None);
      result := [];
      while true
        invariant Tied() && PoolGrows() && StoredIn(tree, nodes)
        invariant n < |ls| && leaf.Val() == NodeOf(ls[n])
        invariant result == LeavesRange(ls[..n], startKey, endKey)
        decreases |ls| - n
      {
        var done;
        LeafOfScan(ls, n, nodes);
        result, done := ScanLeaf(leaf, startKey, endKey, result, ls, n);
        if done {
          return;
        }
        NextLeaf(ls, n, nodes);
        if leaf.Next == 0 {
          assert ls[..n + 1] == ls;
          return;
        }
        n := n + 1;
        leaf := LoadNode(leaf.Next, ls[n]);
      }
    }

    /**
     Throw the cache away. Not an operation of the program: over a disk that gives back what was written, as the
     interface to it promises, the cache holds nothing of its own exactly as long as every node fits its page. The
     adapter to the page file gives back even fewer pages: see IndexAdapter.NodeReadsBackIff.
     */
    method DropCache()
      requires Valid() && AllFit(tree)
      modifies this`nodePool, this`nodes
      ensures Valid() && Coherent() && tree == old(tree) && Contents() == old(Contents()) && Map() == old(Map())
    {
      hide Codable, Fits, Decode, Sound, Coded;
      CoherentIffFits();
      nodes := map p | p in nodes && p in PagesOf(tree) :: nodes[p];
      StoredFrame(tree, old(nodes), nodes);
      nodePool := map[];
      forall p | p in nodes ensures NodeTied(p) {
        assert old(NodeTied(p));
      }
    }
  }

  lemma NewTree(rootPage: PageId)
    requires rootPage != 0
    ensures var t := Leaf(rootPage, [], [], 0);
            && Sound(t, HeightOf(t), rootPage + 1) && NodeOf(t) == NodeVal(LEAF, [], [], [], 0)
            && Coded(t) && Codable(NodeOf(t)) && Saves(NodeOf(t)) && AllFit(t)
            && MapOf(t) == map[] && ShadowsOf(t) == map[]
  {
    EmptyTree(rootPage);
  }

  lemma StoredLeaf(t: Tree, nodes: NodeStore)
    requires t.Leaf? && OnPage(t, nodes)
    ensures StoredIn(t, nodes)
  {
  }

  /** The nodes that are saved last have fields in range. */
  ghost predicate TopCodable(r: Inserted) {
    match r
    case Kept(t, _) => Codable(NodeOf(t))
    case Split(l, _, r, _) => Codable(NodeOf(l)) && Codable(NodeOf(r))
  }

  /** The leaves as a scan meets them: linked, stored, ascending. */
  ghost predicate Walkable(ls: seq<Tree>, nodes: NodeStore) {
    && LeafList(ls) && Linked(ls, 0) && LeavesAscend(ls)
    && forall i :: 0 <= i < |ls| ==> OnPage(ls[i], nodes) && ls[i].page != 0 && Ascending(ls[i].keys)
  }

  lemma NextLeaf(ls: seq<Tree>, n: nat, nodes: NodeStore)
    requires Walkable(ls, nodes) && n < |ls|
    ensures NodeOf(ls[n]).next == 0 ==> n + 1 == |ls|
    ensures NodeOf(ls[n]).next != 0 ==> n + 1 < |ls| && ls[n + 1].page == NodeOf(ls[n]).next && OnPage(ls[n + 1], nodes)
  {
  }

  lemma LeafOfScan(ls: seq<Tree>, n: nat, nodes: NodeStore)
    requires Walkable(ls, nodes) && n < |ls|
    ensures LeafList(ls) && LeavesAscend(ls) && Ascending(ls[n].keys)
  {
  }

  /** Nothing in front of leaf n is in range. */
  ghost predicate StartsAt(ls: seq<Tree>, n: nat, a: int, b: int)
    requires LeafList(ls)
  {
    n < |ls| && LeavesRange(ls[..n], a, b) == []
  }

  lemma LeavesWalkable(t: Tree, h: nat, np: PageId, nodes: NodeStore)
    requires Sound(t, h, np) && StoredIn(t, nodes) && forall p :: p in nodes ==> p > 0
    ensures Walkable(Leaves(t), nodes)
  {
    hide Shaped, Sized, Occupied, Distinct, Below, StoredIn, Leaves, Chained, Linked, LeavesAscend;
    LeavesAreLeaves(t);
    ChainListsLeaves(t, 0);
    LeavesAreAscending(t, h, None, None);
    LeavesStored(t, nodes);
    LeavesKeysAscend(t, h, None, None);
    forall i | 0 <= i < |Leaves(t)|
      ensures OnPage(Leaves(t)[i], nodes) && Leaves(t)[i].page != 0 && Ascending(Leaves(t)[i].keys)
    {
      assert Leaves(t)[i] in Leaves(t);
    }
  }

  lemma ScanFacts(t: Tree, h: nat, np: PageId, nodes: NodeStore, a: int, b: int) returns (ls: seq<Tree>, n: nat)
    requires Sound(t, h, np) && StoredIn(t, nodes) && forall p :: p in nodes ==> p > 0
    ensures ls == Leaves(t) && Walkable(ls, nodes)
    ensures StartsAt(ls, n, a, b) && LeafFor(t, a) == ls[n]
    ensures LeavesRange(ls, a, b) == Range(Entries(t, None), a, b)
    ensures IsSortedRange(LeavesRange(ls, a, b), MapOf(t), a, b) <==> NoKeyWithin(ShadowsOf(t), a, b)
  {
    hide Shaped, Sized, Occupied, Distinct, Below, Entries, StoredIn, Leaves, MapOf, ShadowsOf, Range;
    hide IsSortedRange, NoKeyWithin;
    hide LeavesRange, LeafRange, LeafFor, Chained, Linked, LeavesAscend;
    ls := Leaves(t);
    LeavesWalkable(t, h, np, nodes);
    n := LeafForIsAt(t, h, None, None, a);
    NothingInRange(ls[..n], a, b);
    LeavesRangeIsRange(t, None, a, b);
    ScanIsSortedRange(t, h, np, a, b);
  }

  /** Collect from one leaf; done if a key beyond the range ends the scan. */
  method ScanLeaf(leaf: Node, startKey: Key, endKey: Key, before: seq<Value>, ghost ls: seq<Tree>, ghost n: nat)
    returns (result: seq<Value>, done: bool)
    requires LeafList(ls) && LeavesAscend(ls) && n < |ls| && leaf.Val() == NodeOf(ls[n]) && Ascending(ls[n].keys)
    requires before == LeavesRange(ls[..n], startKey, endKey)
    ensures done ==> result == LeavesRange(ls, startKey, endKey)
    ensures !done ==> result == LeavesRange(ls[..n + 1], startKey, endKey)
  {
    result := before;
    assert ls[..n + 1][..n] == ls[..n];
    for i := 0 to |leaf.Keys|
      invariant result == before + LeafRange(ls[n].keys, ls[n].values, startKey, endKey, i)
    {
      var key := leaf.Keys[i];
      if key > endKey {
        NothingAfter(ls, n, i, startKey, endKey);
        return result, true;
      }
      if key >= startKey {
        result := result + [leaf.Values[i]];
      }
    }
    done := false;
  }

  lemma StoredTop(t: Tree, h: nat, lo: Bound, hi: Bound, nodes: NodeStore)
    requires Shaped(t, h, lo, hi) && StoredIn(t, nodes)
    ensures OnPage(t, nodes) && Ascending(t.keys)
    ensures t.Inner? ==> |t.children| == |t.keys| + 1
  {
  }

  lemma StoredChild(t: Tree, h: nat, lo: Bound, hi: Bound, nodes: NodeStore, i: nat)
    requires t.Inner? && Shaped(t, h, lo, hi) && StoredIn(t, nodes) && i < |t.children|
    ensures h > 0 && Shaped(t.children[i], h - 1, LowOf(t.keys, i, lo), HighOf(t.keys, i, hi))
    ensures StoredIn(t.children[i], nodes)
  {
    ChildIsShaped(t, h, lo, hi, i);
  }

  lemma NewRootStored(r: Inserted, v: NodeVal, nodes: NodeStore)
    requires r.Split? && v == NodeVal(INTERNAL, [r.sep], [r.left.page, r.right.page], [], 0)
    requires ResultStored(r, nodes) && CodedResult(r) && r.np < TWO64 && Below(ResultPages(r), r.np)
    ensures Codable(v) && Saves(v)
    ensures StoredIn(Rooted(r).0, nodes[r.np := v])
  {
    var t := Rooted(r).0;
    assert ChildPage(t.children) == [r.left.page, r.right.page];
    assert v == NodeOf(t);
    InnerFits(v);
    EncodableIsWritten(v);
    StoredFrame(r.left, nodes, nodes[r.np := v]);
    StoredFrame(r.right, nodes, nodes[r.np := v]);
  }

  lemma KeptRootStored(r: Inserted, nodes: NodeStore)
    requires r.Kept? && ResultStored(r, nodes)
    ensures StoredIn(Rooted(r).0, nodes)
  {
  }

  /** All that an insertion at the root comes to. */
  lemma RootInserted(t: Tree, h: nat, key: Key, value: Value, np: PageId, nodes: NodeStore) returns (r: Inserted)
    requires Sound(t, h, np) && h == HeightOf(t) && StoredIn(t, nodes) && Coded(t) && IsInt64(key) &&
             np + h + 2 <= TWO64
    requires forall p :: p in nodes ==> p > 0
    ensures Sized(t) && r == InsertBelow(t, key, value, np) && Rooted(r) == InsertRoot(t, key, value, np)
    ensures ReadyIn(t, h, None, None, key, nodes, np)
    ensures r.Kept? ==> r.t.page == t.page
    ensures r.Split? ==> r.left.page == t.page
    ensures CodedResult(r) && Coded(Rooted(r).0) && np <= r.np < TWO64 && Below(ResultPages(r), r.np)
    ensures Sound(Rooted(r).0, HeightOf(Rooted(r).0), Rooted(r).1)
    ensures Entries(Rooted(r).0, None) == Upsert(Entries(t, None), Target(t, key, None), value)
    ensures if Separates(t, key)
            then MapOf(Rooted(r).0) == MapOf(t) && ShadowsOf(Rooted(r).0) == ShadowsOf(t)[key := value]
            else MapOf(Rooted(r).0) == MapOf(t)[key := value] && ShadowsOf(Rooted(r).0) == ShadowsOf(t)
  {
    hide StoredIn, Coded, CodedResult, InsertBelow, Upsert, MapOf, ShadowsOf, Occupied, Chained, Distinct, Shaped;
    r := InsertBelow(t, key, value, np);
    RootReady(t, h, key, nodes, np);
    RootPages(t, h, key, value, np);
    InsertRootCoded(t, key, value, np);
    RunStep(t, key, value, np);
    var h' := InsertRootSound(t, h, key, value, np);
    InsertUpdates(t, h, key, value, np);
  }

  lemma RootPages(t: Tree, h: nat, key: Key, value: Value, np: PageId)
    requires Sound(t, h, np) && np + h + 2 <= TWO64
    ensures var r := InsertBelow(t, key, value, np); r.np < TWO64 && Below(ResultPages(r), r.np)
  {
    InsertTakes(t, h, None, None, key, value, np);
    InsertDistinct(t, key, value, np);
  }

  lemma RootReady(t: Tree, h: nat, key: Key, nodes: NodeStore, np: PageId)
    requires Sound(t, h, np) && StoredIn(t, nodes) && Coded(t) && IsInt64(key) && np + h + 1 <= TWO64
    requires forall p :: p in nodes ==> p > 0
    ensures ReadyIn(t, h, None, None, key, nodes, np)
  {
    if t.Inner? {
      assert AllOccupied(t.children);
    }
    NoZeroPage(t, nodes);
  }

  lemma {:induction false} NoZeroPage(t: Tree, nodes: NodeStore)
    requires StoredIn(t, nodes) && forall p :: p in nodes ==> p > 0
    ensures 0 !in PagesOf(t)
  {
    if t.Inner? {
      forall i | 0 <= i < |t.children| ensures 0 !in PagesOf(t.children[i]) {
        NoZeroPage(t.children[i], nodes);
      }
    }
  }

  /** What an insertion needs to know about the node it is at. */
  lemma ReadyTop(t: Tree, h: nat, lo: Bound, hi: Bound, key: Key, value: Value, nodes: NodeStore, np: PageId)
    requires ReadyIn(t, h, lo, hi, key, nodes, np)
    ensures OnPage(t, nodes) && 0 < t.page < np && Ascending(t.keys) && Shaped(t, h, lo, hi) && Sized(t)
    ensures TopCodable(InsertBelow(t, key, value, np)) && CodedResult(InsertBelow(t, key, value, np))
    ensures t.Inner? ==> t.page !in PagesOf(t.children[Position(t.keys, key)])
    ensures t.Inner? ==> PagesOf(t.children[Position(t.keys, key)]) <= PagesOf(t)
  {
    ReadyResult(t, h, lo, hi, key, value, nodes, np);
    ReadyParts(t, h, lo, hi, key, value, nodes, np);
  }

  lemma ReadyParts(t: Tree, h: nat, lo: Bound, hi: Bound, key: Key, value: Value, nodes: NodeStore, np: PageId)
    requires ReadyIn(t, h, lo, hi, key, nodes, np)
    ensures OnPage(t, nodes) && 0 < t.page < np && Ascending(t.keys) && Shaped(t, h, lo, hi) && Sized(t)
    ensures t.Inner? ==> t.page !in PagesOf(t.children[Position(t.keys, key)])
    ensures t.Inner? ==> PagesOf(t.children[Position(t.keys, key)]) <= PagesOf(t)
  {
    if t.Inner? {
      ChildPages(t, Position(t.keys, key));
    }
  }

  lemma SavesBelow(t: Tree, key: Key, value: Value)
    requires t.Inner? && Sized(t)
    ensures var c := t.children[Position(t.keys, key)];
            Sized(c) && (LeafSaves(t, key, value) <==> LeafSaves(c, key, value))
    ensures |t.children| == |t.keys| + 1
  {
  }

  lemma CodedTop(r: Inserted)
    requires CodedResult(r)
    ensures TopCodable(r)
  {
  }

  lemma ReadyShape(t: Tree, h: nat, lo: Bound, hi: Bound, key: Key, nodes: NodeStore, np: PageId)
    requires ReadyIn(t, h, lo, hi, key, nodes, np)
    ensures Sized(t) && Coded(t) && |t.keys| < MAX_KEYS
  {
  }

  lemma LeafCompletes(t: Tree, h: nat, lo: Bound, hi: Bound, key: Key, value: Value, nodes: NodeStore, np: PageId)
    requires t.Leaf? && ReadyIn(t, h, lo, hi, key, nodes, np)
    requires forall p :: p in nodes ==> p < np
    ensures TopCodable(InsertBelow(t, key, value, np))
    ensures ResultStored(InsertBelow(t, key, value, np), WithTop(nodes, InsertBelow(t, key, value, np)))
    ensures KeptOutside(PagesOf(t), nodes, WithTop(nodes, InsertBelow(t, key, value, np)))
  {
    hide Codable;
    ReadyResult(t, h, lo, hi, key, value, nodes, np);
    TopCompletes(InsertBelow(t, key, value, np), nodes);
    InsertTakes(t, h, lo, hi, key, value, np);
  }

  /** A stored subtree that an insertion may descend into, with new pages from np on. */
  ghost predicate ReadyIn(t: Tree, h: nat, lo: Bound, hi: Bound, key: Key, nodes: NodeStore, np: PageId) {
    && Shaped(t, h, lo, hi) && Sized(t) && Over(lo, key) && UpTo(key, hi)
    && |t.keys| < MAX_KEYS && (t.Inner? ==> AllOccupied(t.children))
    && Distinct(t) && Below(PagesOf(t), np) && 0 !in PagesOf(t)
    && StoredIn(t, nodes)
    && Coded(t) && IsInt64(key) && np + h + 1 <= TWO64
  }

  /** The child an insertion descends to is ready for it. */
  lemma ReadyChild(t: Tree, h: nat, lo: Bound, hi: Bound, key: Key, nodes: NodeStore, np: PageId)
    requires t.Inner? && ReadyIn(t, h, lo, hi, key, nodes, np)
    ensures var i := Position(t.keys, key);
            h > 0 && ReadyIn(t.children[i], h - 1, LowOf(t.keys, i, lo), HighOf(t.keys, i, hi), key, nodes, np)
  {
    var i := Position(t.keys, key);
    ChildIsShaped(t, h, lo, hi, i);
    ChildAdmits(t.keys, key, lo, hi);
    ChildPages(t, i);
    assert Occupied(t.children[i], false);
  }

  /** What insertion below t results in: nodes that fit, on pages used once. */
  lemma ReadyResult(t: Tree, h: nat, lo: Bound, hi: Bound, key: Key, value: Value, nodes: NodeStore, np: PageId)
    requires ReadyIn(t, h, lo, hi, key, nodes, np)
    ensures CodedResult(InsertBelow(t, key, value, np)) && ResultDistinct(InsertBelow(t, key, value, np))
  {
    InsertCoded(t, h, lo, hi, key, value, np);
    InsertDistinct(t, key, value, np);
  }

  ghost predicate KeptOutside(ps: set<PageId>, was: NodeStore, now: NodeStore) {
    forall p :: p in was && p !in ps ==> p in now && now[p] == was[p]
  }

  /** How the node takes in what became of its child. */
  lemma TakesIn(t: Tree, h: nat, lo: Bound, hi: Bound, key: Key, value: Value, np: PageId)
    requires t.Inner? && Shaped(t, h, lo, hi) && Sized(t) && Over(lo, key) && UpTo(key, hi)
    ensures var i := Position(t.keys, key); var below := InsertBelow(t.children[i], key, value, np);
            && InsertBelow(t, key, value, np) == AfterChild(t, i, below)
            && (below.Kept? ==> below.t.page == t.children[i].page)
            && (below.Split? ==> below.left.page == t.children[i].page && Position(t.keys, below.sep) == i)
  {
    var i := Position(t.keys, key);
    var below := InsertBelow(t.children[i], key, value, np);
    BelowShaped(t, h, lo, hi, key, value, np);
    if below.Split? {
      AddSeparatorShaped(t, h, lo, hi, i, below.left, below.sep, below.right);
    }
  }

  /** Once the child's result is stored, saving the node's own page or pages stores the whole result. */
  lemma AfterBelow(t: Tree, h: nat, lo: Bound, hi: Bound, key: Key, value: Value, np: PageId, was: NodeStore,
                   now: NodeStore)
    requires t.Inner? && ReadyIn(t, h, lo, hi, key, was, np)
    requires ResultStored(InsertBelow(t.children[Position(t.keys, key)], key, value, np), now)
    requires KeptOutside(PagesOf(t.children[Position(t.keys, key)]), was, now)
    ensures OnPage(t, now)
    ensures var i := Position(t.keys, key); var below := InsertBelow(t.children[i], key, value, np);
            && InsertBelow(t, key, value, np) == AfterChild(t, i, below)
            && (below.Kept? ==> below.t.page == t.children[i].page)
            && (below.Split? ==> below.left.page == t.children[i].page && Position(t.keys, below.sep) == i)
    ensures TopCodable(InsertBelow(t, key, value, np)) && ResultSaves(InsertBelow(t, key, value, np))
    ensures ResultStored(InsertBelow(t, key, value, np), WithTop(now, InsertBelow(t, key, value, np)))
  {
    hide Shaped, StoredIn, Coded, InsertBelow, AfterChild, Codable, Saves;
    var i := Position(t.keys, key);
    ReadyResult(t, h, lo, hi, key, value, was, np);
    CodedTop(InsertBelow(t, key, value, np));
    SiblingsStored(t, i, was, now);
    TakesIn(t, h, lo, hi, key, value, np);
    ReadyShape(t, h, lo, hi, key, was, np);
    AfterChildSaves(t, i, InsertBelow(t.children[i], key, value, np));
    BelowStored(t, i, InsertBelow(t.children[i], key, value, np), now);
    TopCompletes(InsertBelow(t, key, value, np), now);
  }

  /** The top nodes of a result are on the old page and on a new one, so other pages stay. */
  lemma TopKeepsOthers(t: Tree, h: nat, lo: Bound, hi: Bound, key: Key, value: Value, np: PageId, ps: set<PageId>,
                       was: NodeStore, now: NodeStore)
    requires Shaped(t, h, lo, hi) && Sized(t)
    requires ps <= PagesOf(t) && KeptOutside(ps, was, now) && forall p :: p in was ==> p < np
    ensures KeptOutside(PagesOf(t), was, WithTop(now, InsertBelow(t, key, value, np)))
  {
    InsertTakes(t, h, lo, hi, key, value, np);
  }

  lemma SplitChildPages(cs: seq<Tree>, i: nat, l: Tree, r: Tree)
    requires i < |cs| && l.page == cs[i].page
    ensures ChildPage(InsertAt(cs[i := l], i + 1, r)) == InsertAt(ChildPage(cs), i + 1, r.page)
  {
  }

  lemma KeptChildPages(cs: seq<Tree>, i: nat, c: Tree)
    requires i < |cs| && c.page == cs[i].page
    ensures ChildPage(cs[i := c]) == ChildPage(cs)
  {
  }

  /** Replace the value of a key in a leaf, or add the key. */
  method PutInLeaf(node: Node, key: Key, value: Value, ghost t: Tree) returns (replaced: bool)
    requires t.Leaf? && Ascending(t.keys) && |t.keys| == |t.values| && node.Val() == NodeOf(t)
    modifies node
    ensures replaced == Holds(t.keys, key)
    ensures node.Val() == NodeOf(InsertLeaf(t, key, value))
  {
    var pos := node.FindKey(key);
    if pos < |node.Keys| && node.Keys[pos] == key {
      node.Values := node.Values[pos := value];
      return true;
    }
    node.InsertKey(key, 0, value);
    return false;
  }

  /** SplitNode halves a full node as the model does. */
  method SplitGrown(node: Node, newPage: PageId, ghost t: Tree) returns (newNode: Node, splitKey: Key)
    requires node.Val() == NodeOf(t) && node.IsFull() && node.PageID == t.page
    requires t.Leaf? ==> |t.keys| == |t.values|
    requires t.Inner? ==> |t.children| == |t.keys| + 1
    modifies node
    ensures fresh(newNode) && newNode.PageID == newPage
    ensures Settle(t, newPage).Split?
    ensures node.Val() == NodeOf(Settle(t, newPage).left) && newNode.Val() == NodeOf(Settle(t, newPage).right)
    ensures splitKey == Settle(t, newPage).sep && Settle(t, newPage).np == newPage + 1
    ensures Settle(t, newPage).left.page == t.page && Settle(t, newPage).right.page == newPage
  {
    newNode, splitKey := node.SplitNode(newPage);
    if t.Inner? {
      HalfOfChildren(t.children, |t.keys| / 2 + 1);
    }
  }

  /**
   A new index filled with these keys and values, one after the other. Not ok: one of the insertions panics, exactly if
   some leaf on the way cannot be written. Else the index is the tree of the run, and gives its nodes back from their
   pages if the values are short.
   */
  method Build(disk: DiskManager, ops: seq<Op>) returns (index: BTree, ok: bool)
    requires Int64Keys(ops) && Room(ops, disk.pageCount)
    modifies disk
    ensures fresh(index) && index.Disk == disk
    ensures ok <==> RunSaves(ops, old(disk.pageCount))
    ensures ok ==> index.Valid() && index.AllCached() && fresh(index.nodePool.Values)
    ensures ok ==> (index.tree, disk.pageCount) == Run(ops, old(disk.pageCount))
    ensures SmallOps(ops) ==> ok && index.Coherent()
  {
    hide Sound, RunSaves, Run, AllFit, LeafSaves, Faithful, Coded, StoredIn, MapOf, ShadowsOf, InsertRoot;
    ghost var first := disk.pageCount;
    index := new BTree(disk);
    RunStarts(first);
    for i := 0 to |ops|
      invariant index.Valid() && index.AllCached() && fresh(index.nodePool.Values)
      invariant (index.tree, disk.pageCount) == Run(ops[..i], first) && RunSaves(ops[..i], first)
    {
      RunGoesOn(ops, i, first);
      ghost var pool := index.nodePool;
      ok := index.Insert(ops[i].0, ops[i].1);
      if !ok {
        StopsSaving(ops, i + 1, first);
        SmallSaves(ops, first);
        return;
      }
      forall o | o in index.nodePool.Values ensures fresh(o) {
        var q :| q in index.nodePool && index.nodePool[q] == o;
        assert q in pool && pool[q] == o ==> o in pool.Values;
      }
    }
    assert ops[..|ops|] == ops;
    ok := true;
    index.CoherentIffFits();
    SmallSaves(ops, first);
  }

  lemma SmallSaves(ops: seq<Op>, first: PageId)
    requires Int64Keys(ops) && Room(ops, first)
    ensures SmallOps(ops) ==> RunSaves(ops, first) && AllFit(Run(ops, first).0)
  {
    if SmallOps(ops) {
      SmallRunFits(ops, first);
    }
  }

  lemma RunStarts(first: PageId)
    requires first != 0
    ensures forall ops: seq<Op> ::
            ops[..0] == [] && Run(ops[..0], first) == (Leaf(first, [], [], 0), first + 1) && RunSaves(ops[..0], first)
  {
  }

  lemma RunGoesOn(ops: seq<Op>, i: nat, first: PageId)
    requires Int64Keys(ops) && Room(ops, first) && i < |ops|
    ensures IsInt64(ops[i].0) && Run(ops[..i], first).1 + HeightOf(Run(ops[..i], first).0) + 2 <= TWO64
    ensures Sized(Run(ops[..i], first).0)
    ensures Run(ops[..i + 1], first) == InsertRoot(Run(ops[..i], first).0, ops[i].0, ops[i].1, Run(ops[..i], first).1)
    ensures RunSaves(ops[..i + 1], first) <==>
            RunSaves(ops[..i], first) && LeafSaves(Run(ops[..i], first).0, ops[i].0, ops[i].1)
  {
    RunCoded(ops[..i], first);
    assert ops[..i + 1][..i] == ops[..i] && ops[..i + 1][i] == ops[i];
  }

  /** A run that panics once is not taken to its end. */
  lemma {:induction false} StopsSaving(ops: seq<Op>, i: nat, first: PageId)
    requires first != 0 && i <= |ops| && !RunSaves(ops[..i], first)
    ensures !RunSaves(ops, first)
    decreases |ops|
  {
    if i < |ops| {
      assert ops[..|ops| - 1][..i] == ops[..i];
      StopsSaving(ops[..|ops| - 1], i, first);
    } else {
      assert ops[..i] == ops;
    }
  }
}
