// One node of the B+Tree in memory, changed in place.
module TreeNode {
  import opened Sequences
  import opened Bytes
  import opened NodeCodec
  import opened TreeModel

  /** s with the elements from pos on copied one place up, over the last one. */
  function MoveUp<T>(s: seq<T>, pos: nat): (r: seq<T>)
    requires pos < |s|
    ensures |r| == |s|
  {
    s[..pos + 1] + s[pos..|s| - 1]
  }

  lemma MovedUp<T>(s: seq<T>, spare: T, pos: nat, x: T)
    requires pos <= |s|
    ensures MoveUp(s + [spare], pos)[pos := x] == InsertAt(s, pos, x)
  {
  }

  class Node {
    var Kind: Byte
    var Keys: seq<Key>
    var Children: seq<PageId>
    var Values: seq<Value>
    var Next: PageId
    const PageID: PageId

    /** A new node without keys. */
    constructor (pageID: PageId, kind: Byte)
      ensures Val() == NodeVal(kind, [], [], [], 0) && PageID == pageID
    {
      Kind, Keys, Children, Values, Next, PageID := kind, [], [], [], 0, pageID;
    }

    constructor Holding(pageID: PageId, v: NodeVal)
      ensures Val() == v && PageID == pageID
    {
      Kind, Keys, Children, Values, Next, PageID := v.kind, v.keys, v.children, v.values, v.next, pageID;
    }

    function Val(): NodeVal
      reads this
    {
      NodeVal(Kind, Keys, Children, Values, Next)
    }

    predicate IsFull()
      reads this
    {
      |Keys| >= MAX_KEYS
    }

    predicate IsLeaf()
      reads this
    {
      Kind == LEAF
    }

    /** Binary search: where key is, or where it would go. */
    method FindKey(key: Key) returns (pos: nat)
      requires Ascending(Keys)
      ensures pos == Position(Keys, key)
    {
      var left, right := 0, |Keys| - 1;
      while left <= right
        invariant 0 <= left <= right + 1 <= |Keys|
        invariant forall i :: 0 <= i < left ==> Keys[i] < key
        invariant forall i :: right < i < |Keys| ==> key < Keys[i]
      {
        var mid := (left + right) / 2;
        if Keys[mid] == key {
          PositionIs(Keys, key, mid);
          return mid;
        }
        if Keys[mid] < key {
          left := mid + 1;
        } else {
          right := mid - 1;
        }
      }
      PositionIs(Keys, key, left);
      return left;
    }

    /** Make room at the key's position by moving the rest up by one, and put the key there. */
    method InsertKey(key: Key, child: PageId, value: Value)
      requires Ascending(Keys)
      requires IsLeaf() ==> |Values| == |Keys|
      requires !IsLeaf() ==> |Children| == |Keys| + 1
      modifies this
      ensures Keys == InsertAt(old(Keys), Position(old(Keys), key), key)
      ensures Kind == old(Kind) && Next == old(Next)
      ensures if IsLeaf()
              then Values == InsertAt(old(Values), Position(old(Keys), key), value) && Children == old(Children)
              else Children == InsertAt(old(Children), Position(old(Keys), key) + 1, child) && Values == old(Values)
    {
      hide MoveUp, InsertAt, Position;
      var pos := FindKey(key);
      MovedUp(Keys, 0, pos, key);
      Keys := Keys + [0];
      Keys := MoveUp(Keys, pos);
      Keys := Keys[pos := key];
      if IsLeaf() {
        MovedUp(Values, [], pos, value);
        Values := Values + [[]];
        Values := MoveUp(Values, pos);
        Values := Values[pos := value];
      } else {
        MovedUp(Children, 0, pos + 1, child);
        Children := Children + [0];
        Children := MoveUp(Children, pos + 1);
        Children := Children[pos + 1 := child];
      }
    }

    /** Keep the lower half and move the upper half to a new node on page newPageID. */
    method SplitNode(newPageID: PageId) returns (newNode: Node, splitKey: Key)
      requires Keys != []
      requires IsLeaf() ==> |Values| == |Keys|
      requires !IsLeaf() ==> |Children| == |Keys| + 1
      modifies this
      ensures fresh(newNode) && newNode.PageID == newPageID && newNode.Kind == old(Kind) && Kind == old(Kind)
      ensures var mid := |old(Keys)| / 2;
              && splitKey == old(Keys)[mid] && Keys == old(Keys)[..mid]
              && (IsLeaf() ==>
                    && newNode.Keys == old(Keys)[mid..]
                    && Values == old(Values)[..mid] && newNode.Values == old(Values)[mid..]
                    && Children == old(Children) && newNode.Children == []
                    && Next == newPageID && newNode.Next == old(Next))
              && (!IsLeaf() ==>
                    && newNode.Keys == old(Keys)[mid + 1..]
                    && Children == old(Children)[..mid + 1] && newNode.Children == old(Children)[mid + 1..]
                    && Values == old(Values) && newNode.Values == []
                    && Next == old(Next) && newNode.Next == 0)
    {
      var mid := |Keys| / 2;
      splitKey := Keys[mid];
      newNode := new Node(newPageID, Kind);
      if IsLeaf() {
        newNode.Keys := newNode.Keys + Keys[mid..];
        newNode.Values := newNode.Values + Values[mid..];
        newNode.Next := Next;
        Keys := Keys[..mid];
        Values := Values[..mid];
        Next := newPageID;
      } else {
        newNode.Keys := newNode.Keys + Keys[mid + 1..];
        newNode.Children := newNode.Children + Children[mid + 1..];
        Keys := Keys[..mid];
        Children := Children[..mid + 1];
      }
    }

    /**
     Fill a page buffer field by field; null where that slices out of range. A last value is cut off at the page's end.
     */
    method Serialize() returns (buf: array?<Byte>)
      requires Codable(Val())
      ensures buf == null <==> !Saves(Val())
      ensures buf != null ==> fresh(buf) && Written(Val()) == Some(buf[..])
    {
      hide Words, Chunks, LittleEndian;
      buf := new Byte[PAGE_SIZE](_ => 0);
      ghost var v := Val();
      ghost var keysEnd := Header(v) + Words(KeyWords(Keys));
      assert Content(v) == keysEnd + Payload(v);
      assert buf[..] == Page([]);
      var pos := PutHeader(buf, Kind, |Keys|, Next);
      var ok;
      pos, ok := PutKeys(buf, Header(v), pos, Keys);
      if !ok {
        ReachOverKeys(v);
        return null;
      }
      if !IsLeaf() {
        pos, ok := PutChildren(buf, keysEnd, pos, Children);
      }
      if IsLeaf() {
        pos, ok := PutValues(buf, keysEnd, pos, Values);
      }
      ReachEnds(v);
      if !ok {
        return null;
      }
      assert Filled(buf, Content(v));
    }
  }

  lemma ReachEnds(v: NodeVal)
    requires Codable(v)
    ensures v.kind == LEAF && v.values == [] ==> Reach(v) == NODE_HEADER + 8 * |v.keys|
    ensures v.kind == LEAF && v.values != [] ==>
              Reach(v) == NODE_HEADER + 8 * |v.keys| + |Chunks(v.values)| - |v.values[|v.values| - 1]|
    ensures v.kind != LEAF ==> Reach(v) == NODE_HEADER + 8 * |v.keys| + 8 * |v.children|
  {
  }

  lemma ReachOverKeys(v: NodeVal)
    requires Codable(v)
    ensures Reach(v) >= NODE_HEADER + 8 * |v.keys|
  {
    if v.kind == LEAF && v.values != [] {
      LastChunk(v.values);
    }
  }

  /** buf holds these bytes from the front on. */
  ghost predicate Filled(buf: array<Byte>, bytes: seq<Byte>)
    reads buf
  {
    buf[..] == Page(bytes)
  }

  method PutHeader(buf: array<Byte>, kind: Byte, keyCount: nat, next: PageId) returns (pos: nat)
    requires Filled(buf, [])
    modifies buf
    ensures pos == NODE_HEADER
    ensures Filled(buf, [kind] + LittleEndian(keyCount, 2) + LittleEndian(next, 8))
  {
    PutBytes(buf, [], 0, [kind]);
    PutBytes(buf, [] + [kind], 1, LittleEndian(keyCount, 2));
    PutBytes(buf, [kind] + LittleEndian(keyCount, 2), 3, LittleEndian(next, 8));
    pos := NODE_HEADER;
  }

  method PutKeys(buf: array<Byte>, ghost before: seq<Byte>, from: nat, keys: seq<Key>) returns (pos: nat, ok: bool)
    requires forall i :: 0 <= i < |keys| ==> IsInt64(keys[i])
    requires Filled(buf, before) && |before| == from <= PAGE_SIZE
    modifies buf
    ensures ok <==> from + 8 * |keys| <= PAGE_SIZE
    ensures ok ==> Filled(buf, before + Words(KeyWords(keys))) && pos == from + 8 * |keys|
  {
    pos := from;
    assert before + Words(KeyWords(keys)[..0]) == before;
    for i := 0 to |keys|
      invariant pos == from + 8 * i <= PAGE_SIZE
      invariant Filled(buf, before + Words(KeyWords(keys)[..i]))
    {
      if pos + 8 > PAGE_SIZE {
        return pos, false;
      }
      WordsGrow(before, KeyWords(keys), i);
      PutBytes(buf, before + Words(KeyWords(keys)[..i]), pos, LittleEndian(ToUint64(keys[i]), 8));
      pos := pos + 8;
    }
    assert KeyWords(keys)[..|keys|] == KeyWords(keys);
    ok := true;
  }

  method PutChildren(buf: array<Byte>, ghost before: seq<Byte>, from: nat, children: seq<PageId>)
    returns (pos: nat, ok: bool)
    requires Filled(buf, before) && |before| == from <= PAGE_SIZE
    modifies buf
    ensures ok <==> from + 8 * |children| <= PAGE_SIZE
    ensures ok ==> Filled(buf, before + Words(children)) && pos == from + 8 * |children|
  {
    pos := from;
    assert before + Words(children[..0]) == before;
    for i := 0 to |children|
      invariant pos == from + 8 * i <= PAGE_SIZE
      invariant Filled(buf, before + Words(children[..i]))
    {
      if pos + 8 > PAGE_SIZE {
        return pos, false;
      }
      WordsGrow(before, children, i);
      PutBytes(buf, before + Words(children[..i]), pos, LittleEndian(children[i], 8));
      pos := pos + 8;
    }
    assert children[..|children|] == children;
    ok := true;
  }

  /** Each value behind its length: the length must lie in the page, the value is copied as far as the page goes. */
  method PutValues(buf: array<Byte>, ghost before: seq<Byte>, from: nat, values: seq<Value>)
    returns (pos: nat, ok: bool)
    requires Filled(buf, before) && |before| == from <= PAGE_SIZE
    modifies buf
    ensures ok <==> values == [] || from + |Chunks(values)| - |values[|values| - 1]| <= PAGE_SIZE
    ensures ok ==> Filled(buf, before + Chunks(values)) && pos == from + |Chunks(values)|
  {
    hide Chunks;
    pos := from;
    NoChunks(before, values);
    for i := 0 to |values|
      invariant pos == from + |Chunks(values[..i])|
      invariant Filled(buf, before + Chunks(values[..i]))
      invariant i > 0 ==> pos <= PAGE_SIZE + |values[i - 1]|
    {
      ghost var done := before + Chunks(values[..i]);
      ChunksNext(values, i);
      LastCovers(values, i);
      if pos + 2 > PAGE_SIZE {
        return pos, false;
      }
      PutBytes(buf, done, pos, LittleEndian(|values[i]|, 2));
      pos := pos + 2;
      PutBytes(buf, done + LittleEndian(|values[i]|, 2), pos, values[i]);
      pos := pos + |values[i]|;
      assert done + LittleEndian(|values[i]|, 2) + values[i] == before + Chunks(values[..i + 1]);
    }
    assert values[..|values|] == values;
    ok := true;
  }

  lemma NoChunks(before: seq<Byte>, values: seq<Value>)
    ensures before + Chunks(values[..0]) == before && |Chunks(values[..0])| == 0
  {
    assert Chunks(values[..0]) == [];
  }

  /** All but the last value reach at least over the length field of value i. */
  lemma LastCovers(values: seq<Value>, i: nat)
    requires i < |values|
    ensures |Chunks(values[..i])| + 2 <= |Chunks(values)| - |values[|values| - 1]|
  {
    var n := |values| - 1;
    LastChunk(values);
    ChunksPrefix(values[..n], i);
    assert values[..n][..i] == values[..i];
  }

  lemma WordsGrow(before: seq<Byte>, ws: seq<nat>, i: nat)
    requires i < |ws|
    ensures before + Words(ws[..i]) + LittleEndian(ws[i], 8) == before + Words(ws[..i + 1])
  {
    WordsNext(ws, i);
  }

  lemma ChunksPrefix(vs: seq<Value>, i: nat)
    requires i <= |vs|
    ensures |Chunks(vs[..i])| <= |Chunks(vs)|
  {
    assert vs == vs[..i] + vs[i..];
    ChunksAppend(vs[..i], vs[i..]);
  }

  /** Write data at pos, just behind what was written before, as far as the page goes. */
  method PutBytes(buf: array<Byte>, ghost before: seq<Byte>, pos: nat, data: seq<Byte>)
    requires Filled(buf, before) && |before| == pos <= PAGE_SIZE
    modifies buf
    ensures Filled(buf, before + data)
  {
    var n := if |data| <= PAGE_SIZE - pos then |data| else PAGE_SIZE - pos;
    assert before + data[..0] == before;
    for j := 0 to n
      invariant Filled(buf, before + data[..j])
    {
      buf[pos + j] := data[j];
      assert data[..j + 1] == data[..j] + [data[j]];
      assert buf[..] == before + data[..j + 1] + Zeros(PAGE_SIZE - pos - j - 1);
    }
    assert n == |data| ==> data[..n] == data;
    assert n < |data| ==> before + data[..n] == (before + data)[..PAGE_SIZE];
  }

  /** Read a node out of a page; null where that fails. */
  method DeserializeNode(data: seq<Byte>, pageID: PageId) returns (node: Node?)
    ensures node == null <==> Decode(data).None?
    ensures node != null ==> fresh(node) && node.PageID == pageID && Decode(data) == Some(node.Val())
  {
    if |data| < NODE_HEADER {
      return null;
    }
    var kind, keyCount, next := data[0], FromLittleEndian(data[1..3]), FromLittleEndian(data[3..11]);
    if NODE_HEADER + 8 * keyCount > |data| {
      return null;
    }
    node := new Node(pageID, kind);
    node.Next := next;
    node.Keys := GetKeys(data, NODE_HEADER, keyCount);
    var pos := NODE_HEADER + 8 * keyCount;
    if kind == INTERNAL {
      if pos + 8 * (keyCount + 1) > |data| {
        return null;
      }
      node.Children := GetChildren(data, pos, keyCount + 1);
    }
    if kind == LEAF {
      var values := GetValues(data, pos, keyCount);
      if values.None? {
        return null;
      }
      node.Values := values.value;
    }
  }

  lemma KeysFromFirst(w: nat, ws: seq<nat>)
    ensures KeysFrom([w] + ws) == [FromUint64(w)] + KeysFrom(ws)
  {
  }

  method GetKeys(data: seq<Byte>, from: nat, n: nat) returns (keys: seq<Key>)
    requires from + 8 * n <= |data|
    ensures keys == KeysFrom(ReadWords(data, from, n))
  {
    hide FromLittleEndian, KeysFrom, FromUint64;
    keys := [];
    var pos := from;
    assert ReadWords(data, from, n - 0) == ReadWords(data, from, n);
    for i := 0 to n
      invariant pos == from + 8 * i
      invariant KeysFrom(ReadWords(data, from, n)) == keys + KeysFrom(ReadWords(data, pos, n - i))
    {
      KeysFromFirst(FromLittleEndian(data[pos..pos + 8]), ReadWords(data, pos + 8, n - i - 1));
      keys := keys + [FromUint64(FromLittleEndian(data[pos..pos + 8]))];
      pos := pos + 8;
    }
  }

  method GetChildren(data: seq<Byte>, from: nat, n: nat) returns (children: seq<PageId>)
    requires from + 8 * n <= |data|
    ensures children == ReadWords(data, from, n)
  {
    children := [];
    var pos := from;
    for i := 0 to n
      invariant pos == from + 8 * i
      invariant ReadWords(data, from, n) == children + ReadWords(data, pos, n - i)
    {
      children := children + [FromLittleEndian(data[pos..pos + 8])];
      pos := pos + 8;
    }
  }

  function Prepend(front: seq<Value>, rest: Option<seq<Value>>): Option<seq<Value>> {
    match rest
    case None => None
    case Some(values) => Some(front + values)
  }

  lemma PrependNothing(rest: Option<seq<Value>>)
    ensures Prepend([], rest) == rest
  {
    assert rest.Some? ==> [] + rest.value == rest.value;
  }

  lemma PrependOne(front: seq<Value>, v: Value, rest: Option<seq<Value>>)
    ensures Prepend(front, Prepend([v], rest)) == Prepend(front + [v], rest)
  {
    assert rest.Some? ==> front + ([v] + rest.value) == front + [v] + rest.value;
  }

  method GetValues(data: seq<Byte>, from: nat, n: nat) returns (r: Option<seq<Value>>)
    ensures r == ReadChunks(data, from, n)
  {
    var values: seq<Value> := [];
    var pos: nat := from;
    PrependNothing(ReadChunks(data, from, n));
    for i := 0 to n
      invariant ReadChunks(data, from, n) == Prepend(values, ReadChunks(data, pos, n - i))
    {
      if pos + 2 > |data| {
        return None;
      }
      var valLen := FromLittleEndian(data[pos..pos + 2]);
      if pos + 2 + valLen > |data| {
        return None;
      }
      var v := data[pos + 2..pos + 2 + valLen];
      assert ReadChunks(data, pos, n - i) == Prepend([v], ReadChunks(data, pos + 2 + valLen, n - i - 1));
      PrependOne(values, v, ReadChunks(data, pos + 2 + valLen, n - i - 1));
      values := values + [v];
      pos := pos + 2 + valLen;
    }
    assert values + [] == values;
    return Some(values);
  }
}
