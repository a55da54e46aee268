// The byte form of a B+Tree node: one page, little-endian.
module NodeCodec {
  import opened Sequences
  import opened Bytes

  const PAGE_SIZE: nat := 4096
  const NODE_HEADER: nat := 11
  const INTERNAL: Byte := 0
  const LEAF: Byte := 1

  type Value = seq<Byte>

  datatype NodeVal = NodeVal(kind: Byte, keys: seq<int>, children: seq<nat>, values: seq<Value>, next: nat)

  predicate IsInt64(k: int) { -(TWO63 as int) <= k < TWO63 }

  function ToUint64(k: int): (n: nat)
    requires IsInt64(k)
    ensures n < TWO64 && FromUint64(n) == k
  {
    if k < 0 then k + TWO64 else k
  }

  function FromUint64(n: nat): int {
    if n >= TWO63 then n - TWO64 else n
  }

  // ----- words -----

  /** 8-byte words, one after another. */
  function Words(ws: seq<nat>): (s: seq<Byte>)
    ensures |s| == 8 * |ws|
  {
    if ws == [] then [] else LittleEndian(ws[0], 8) + Words(ws[1..])
  }

  function ReadWords(data: seq<Byte>, off: nat, n: nat): (ws: seq<nat>)
    requires off + 8 * n <= |data|
    ensures |ws| == n
    decreases n
  {
    if n == 0 then [] else [FromLittleEndian(data[off..off + 8])] + ReadWords(data, off + 8, n - 1)
  }

  lemma {:induction false} WordsAppend(a: seq<nat>, b: seq<nat>)
    ensures Words(a + b) == Words(a) + Words(b)
  {
    if a == [] {
      assert a + b == b;
    } else {
      assert (a + b)[0] == a[0] && (a + b)[1..] == a[1..] + b;
      WordsAppend(a[1..], b);
    }
  }

  lemma WordsNext(ws: seq<nat>, i: nat)
    requires i < |ws|
    ensures Words(ws[..i + 1]) == Words(ws[..i]) + LittleEndian(ws[i], 8)
  {
    assert ws[..i + 1] == ws[..i] + [ws[i]];
    WordsAppend(ws[..i], [ws[i]]);
    assert Words([ws[i]]) == LittleEndian(ws[i], 8) + Words([]);
  }

  lemma WordReadsBack(before: seq<Byte>, w: nat, after: seq<Byte>)
    requires w < TWO64
    ensures FromLittleEndian((before + LittleEndian(w, 8) + after)[|before|..|before| + 8]) == w
  {
    SliceInside(before, LittleEndian(w, 8), after, 0, 8);
    ReadsBack64(w);
  }

  lemma {:induction false} WordsReadBack(before: seq<Byte>, ws: seq<nat>, after: seq<Byte>)
    requires forall i :: 0 <= i < |ws| ==> ws[i] < TWO64
    ensures ReadWords(before + Words(ws) + after, |before|, |ws|) == ws
    decreases |ws|
  {
    if ws != [] {
      var first, rest := LittleEndian(ws[0], 8), Words(ws[1..]);
      WordReadsBack(before, ws[0], rest + after);
      Regroup(before, first, rest, after);
      WordsReadBack(before + first, ws[1..], after);
      assert |before + first| == |before| + 8;
    }
  }

  // ----- length-prefixed values -----

  function Chunk(v: Value): (s: seq<Byte>)
    ensures |s| == 2 + |v|
  {
    LittleEndian(|v|, 2) + v
  }

  function Chunks(vs: seq<Value>): seq<Byte> {
    if vs == [] then [] else Chunk(vs[0]) + Chunks(vs[1..])
  }

  /** Read n values from off on; None where the program would read past the end. */
  function ReadChunks(data: seq<Byte>, off: nat, n: nat): Option<seq<Value>>
    decreases n
  {
    if n == 0 then Some([])
    else if off + 2 > |data| then None
    else
      var len := FromLittleEndian(data[off..off + 2]);
      if off + 2 + len > |data| then None
      else
        match ReadChunks(data, off + 2 + len, n - 1)
        case None => None
        case Some(rest) => Some([data[off + 2..off + 2 + len]] + rest)
  }

  lemma {:induction false} ChunksAppend(a: seq<Value>, b: seq<Value>)
    ensures Chunks(a + b) == Chunks(a) + Chunks(b)
  {
    if a == [] {
      assert a + b == b;
    } else {
      assert (a + b)[0] == a[0] && (a + b)[1..] == a[1..] + b;
      ChunksAppend(a[1..], b);
    }
  }

  lemma ChunksNext(vs: seq<Value>, i: nat)
    requires i < |vs|
    ensures Chunks(vs[..i + 1]) == Chunks(vs[..i]) + Chunk(vs[i])
  {
    assert vs[..i + 1] == vs[..i] + [vs[i]];
    ChunksAppend(vs[..i], [vs[i]]);
    assert Chunks([vs[i]]) == Chunk(vs[i]) + Chunks([]);
  }

  lemma ChunkReadsBack(before: seq<Byte>, v: Value, after: seq<Byte>)
    requires |v| < TWO16
    ensures var data := before + Chunk(v) + after;
            && FromLittleEndian(data[|before|..|before| + 2]) == |v|
            && data[|before| + 2..|before| + 2 + |v|] == v
  {
    ReadsBack16(|v|);
    SliceInside(before, Chunk(v), after, 0, 2);
    SliceInside(before, Chunk(v), after, 2, 2 + |v|);
    assert Chunk(v)[0..2] == LittleEndian(|v|, 2);
    assert Chunk(v)[2..2 + |v|] == v;
  }

  lemma {:induction false} ChunksReadBack(before: seq<Byte>, vs: seq<Value>, after: seq<Byte>)
    requires forall i :: 0 <= i < |vs| ==> |vs[i]| < TWO16
    ensures ReadChunks(before + Chunks(vs) + after, |before|, |vs|) == Some(vs)
    decreases |vs|
  {
    hide LittleEndian, FromLittleEndian, Chunk;
    if vs == [] {
      assert ReadChunks(before + Chunks(vs) + after, |before|, 0) == Some([]);
    } else {
      var first, rest := Chunk(vs[0]), Chunks(vs[1..]);
      ChunkReadsBack(before, vs[0], rest + after);
      Regroup(before, first, rest, after);
      ChunksReadBack(before + first, vs[1..], after);
      assert |before + first| == |before| + 2 + |vs[0]|;
      assert before + Chunks(vs) + after == before + first + (rest + after);
      assert vs == [vs[0]] + vs[1..];
    }
  }

  // ----- nodes -----

  function KeyWords(keys: seq<int>): (ws: seq<nat>)
    requires forall i :: 0 <= i < |keys| ==> IsInt64(keys[i])
    ensures |ws| == |keys|
    ensures forall i :: 0 <= i < |ws| ==> ws[i] == ToUint64(keys[i])
  {
    seq(|keys|, i requires 0 <= i < |keys| => ToUint64(keys[i]))
  }

  function Header(v: NodeVal): (s: seq<Byte>)
    ensures |s| == NODE_HEADER
  {
    [v.kind] + LittleEndian(|v.keys|, 2) + LittleEndian(v.next, 8)
  }

  function Payload(v: NodeVal): seq<Byte> {
    if v.kind == LEAF then Chunks(v.values) else Words(v.children)
  }

  predicate KeysFit(v: NodeVal) {
    |v.keys| < TWO16 && forall i :: 0 <= i < |v.keys| ==> IsInt64(v.keys[i])
  }

  function Content(v: NodeVal): seq<Byte>
    requires KeysFit(v)
  {
    Header(v) + Words(KeyWords(v.keys)) + Payload(v)
  }

  /** A node whose fields all have their place in the byte form; a long value may still run past the page. */
  predicate Codable(v: NodeVal) {
    && KeysFit(v)
    && v.next < TWO64
    && (v.kind == LEAF ==> |v.values| == |v.keys| && v.children == [])
    && (v.kind == INTERNAL ==>
          && |v.children| == |v.keys| + 1 && v.values == []
          && forall i :: 0 <= i < |v.children| ==> v.children[i] < TWO64)
    && v.kind <= LEAF
  }

  predicate Fits(v: NodeVal)
    requires KeysFit(v)
  {
    |Content(v)| <= PAGE_SIZE
  }

  /** A node the program writes as it is. */
  predicate Encodable(v: NodeVal) {
    Codable(v) && Fits(v)
  }

  function Encode(v: NodeVal): (s: seq<Byte>)
    requires Encodable(v)
    ensures |s| == PAGE_SIZE
  {
    Content(v) + Zeros(PAGE_SIZE - |Content(v)|)
  }

  /** A page filled with these bytes from the front on: zeros behind them, or the end of them cut off. */
  function Page(bytes: seq<Byte>): (s: seq<Byte>)
    ensures |s| == PAGE_SIZE
  {
    if |bytes| <= PAGE_SIZE then bytes + Zeros(PAGE_SIZE - |bytes|) else bytes[..PAGE_SIZE]
  }

  /**
   How far the buffer is sliced: over the whole content, but for the bytes of a last value, which are copied as far as
   they go.
   */
  function Reach(v: NodeVal): nat
    requires KeysFit(v)
  {
    if v.kind == LEAF && v.values != [] then
      LastChunk(v.values);
      |Content(v)| - |v.values[|v.values| - 1]|
    else |Content(v)|
  }

  predicate Saves(v: NodeVal) {
    KeysFit(v) && Reach(v) <= PAGE_SIZE
  }

  /** The page the program writes for a node; None where it slices out of range. */
  function Written(v: NodeVal): Option<seq<Byte>>
    requires KeysFit(v)
  {
    if Reach(v) > PAGE_SIZE then None else Some(Page(Content(v)))
  }

  lemma LastChunk(vs: seq<Value>)
    requires vs != []
    ensures |Chunks(vs)| == |Chunks(vs[..|vs| - 1])| + 2 + |vs[|vs| - 1]|
  {
    ChunksNext(vs, |vs| - 1);
    assert vs[..|vs|] == vs;
  }

  function KeysFrom(ws: seq<nat>): (keys: seq<int>)
    ensures |keys| == |ws|
  {
    seq(|ws|, i requires 0 <= i < |ws| => FromUint64(ws[i]))
  }

  /** The node in a page; None where the program would fail or read past the end. */
  function Decode(data: seq<Byte>): Option<NodeVal> {
    if |data| < NODE_HEADER then None
    else
      var kind := data[0];
      var n := FromLittleEndian(data[1..3]);
      var next := FromLittleEndian(data[3..11]);
      if NODE_HEADER + 8 * n > |data| then None
      else
        var keys := KeysFrom(ReadWords(data, NODE_HEADER, n));
        var pos := NODE_HEADER + 8 * n;
        if kind == INTERNAL then
          if pos + 8 * (n + 1) > |data| then None
          else Some(NodeVal(kind, keys, ReadWords(data, pos, n + 1), [], next))
        else if kind == LEAF then
          match ReadChunks(data, pos, n)
          case None => None
          case Some(values) => Some(NodeVal(kind, keys, [], values, next))
        else Some(NodeVal(kind, keys, [], [], next))
  }

  lemma HeaderReadsBack(v: NodeVal, after: seq<Byte>)
    requires |v.keys| < TWO16 && v.next < TWO64
    ensures var data := Header(v) + after;
            && data[0] == v.kind
            && FromLittleEndian(data[1..3]) == |v.keys|
            && FromLittleEndian(data[3..11]) == v.next
  {
    var data := Header(v) + after;
    ReadsBack16(|v.keys|);
    ReadsBack64(v.next);
    assert data[1..3] == LittleEndian(|v.keys|, 2);
    assert data[3..11] == LittleEndian(v.next, 8);
  }

  lemma KeysReadBack(keys: seq<int>)
    requires forall i :: 0 <= i < |keys| ==> IsInt64(keys[i])
    ensures KeysFrom(KeyWords(keys)) == keys
  {
  }

  /** The three readings of an encoded node: its header, its keys, and the rest. */
  lemma ContentReadsBack(v: NodeVal, zeros: seq<Byte>)
    requires Codable(v)
    ensures var data := Content(v) + zeros; var n := |v.keys|;
            && NODE_HEADER + 8 * n <= |data|
            && data[0] == v.kind && FromLittleEndian(data[1..3]) == n && FromLittleEndian(data[3..11]) == v.next
            && KeysFrom(ReadWords(data, NODE_HEADER, n)) == v.keys
  {
    var head, keys := Header(v), Words(KeyWords(v.keys));
    Regroup(head, keys, Payload(v), zeros);
    HeaderReadsBack(v, keys + Payload(v) + zeros);
    WordsReadBack(head, KeyWords(v.keys), Payload(v) + zeros);
    KeysReadBack(v.keys);
  }

  lemma {:induction false} ChunksHold(vs: seq<Value>)
    ensures forall i :: 0 <= i < |vs| ==> |vs[i]| + 2 <= |Chunks(vs)|
  {
    if vs != [] {
      ChunksHold(vs[1..]);
      assert forall i :: 1 <= i < |vs| ==> vs[i] == vs[1..][i - 1];
    }
  }

  lemma LeafReadsBack(v: NodeVal, zeros: seq<Byte>)
    requires Encodable(v) && v.kind == LEAF
    ensures ReadChunks(Content(v) + zeros, NODE_HEADER + 8 * |v.keys|, |v.keys|) == Some(v.values)
  {
    var before := Header(v) + Words(KeyWords(v.keys));
    assert Content(v) == before + Chunks(v.values);
    ChunksHold(v.values);
    ChunksReadBack(before, v.values, zeros);
  }

  lemma InnerReadsBack(v: NodeVal, zeros: seq<Byte>)
    requires Encodable(v) && v.kind == INTERNAL
    ensures NODE_HEADER + 8 * |v.keys| + 8 * (|v.keys| + 1) <= |Content(v) + zeros|
    ensures ReadWords(Content(v) + zeros, NODE_HEADER + 8 * |v.keys|, |v.keys| + 1) == v.children
  {
    var before := Header(v) + Words(KeyWords(v.keys));
    assert Content(v) == before + Words(v.children);
    WordsReadBack(before, v.children, zeros);
  }

  /** Every node that fits a page is read back from it. */
  lemma DecodeEncode(v: NodeVal)
    requires Encodable(v)
    ensures Decode(Encode(v)) == Some(v)
  {
    hide FromLittleEndian, ReadWords, ReadChunks, KeysFrom, Content;
    var zeros := Zeros(PAGE_SIZE - |Content(v)|);
    ContentReadsBack(v, zeros);
    if v.kind == LEAF {
      LeafReadsBack(v, zeros);
    } else {
      InnerReadsBack(v, zeros);
    }
  }

  lemma EncodableIsWritten(v: NodeVal)
    requires Encodable(v)
    ensures Saves(v) && Written(v) == Some(Encode(v))
  {
  }

  /** Values that were read lie within the bytes they were read from. */
  lemma {:induction false} ChunksReadInside(data: seq<Byte>, off: nat, n: nat)
    requires n > 0 && ReadChunks(data, off, n).Some?
    ensures |ReadChunks(data, off, n).value| == n
    ensures off + |Chunks(ReadChunks(data, off, n).value)| <= |data|
    decreases n
  {
    var len := FromLittleEndian(data[off..off + 2]);
    var v := data[off + 2..off + 2 + len];
    if n == 1 {
      assert ReadChunks(data, off + 2 + len, 0) == Some([]);
      assert [v] + [] == [v] && Chunks([v]) == Chunk(v) + Chunks([]);
    } else {
      ChunksReadInside(data, off + 2 + len, n - 1);
      var rest := ReadChunks(data, off + 2 + len, n - 1).value;
      assert ([v] + rest)[1..] == rest;
    }
  }

  /** A node written to a page is read back from it exactly if all of it fits the page. */
  lemma WrittenReadsBackIff(v: NodeVal)
    requires Codable(v) && Saves(v)
    ensures Decode(Written(v).value) == Some(v) <==> Fits(v)
  {
    hide Content, FromLittleEndian, ReadWords, ReadChunks;
    if Fits(v) {
      EncodableIsWritten(v);
      DecodeEncode(v);
    } else {
      assert v.kind == LEAF && v.values != [];
      ContentLength(v);
      NotDecoded(v, Written(v).value);
    }
  }

  lemma NotDecoded(v: NodeVal, d: seq<Byte>)
    requires v.kind == LEAF && Codable(v) && v.keys != [] && |d| < NODE_HEADER + 8 * |v.keys| + |Chunks(v.values)|
    ensures Decode(d) != Some(v)
  {
    hide FromLittleEndian, ReadWords, Chunks;
    var pos, n := NODE_HEADER + 8 * |v.keys|, |v.keys|;
    if ReadChunks(d, pos, n).Some? {
      ChunksReadInside(d, pos, n);
    }
  }

  lemma ContentLength(v: NodeVal)
    requires KeysFit(v)
    ensures |Content(v)| == NODE_HEADER + 8 * |v.keys| + |Payload(v)|
  {
  }

  function TotalLength(vs: seq<Value>): nat {
    if vs == [] then 0 else TotalLength(vs[..|vs| - 1]) + |vs[|vs| - 1]|
  }

  lemma {:induction false} ChunksLength(vs: seq<Value>)
    ensures |Chunks(vs)| == 2 * |vs| + TotalLength(vs)
  {
    if vs != [] {
      ChunksLength(vs[..|vs| - 1]);
      LastChunk(vs);
    }
  }

  /**
   Saving a leaf, in its key count and value lengths: it is written whole up to 4096 bytes in all; beyond, it is
   cut off without an error if only the last value runs past the page, and panics if an earlier byte does.
   */
  lemma LeafSizes(v: NodeVal)
    requires v.kind == LEAF && Codable(v)
    ensures var n, total := |v.keys|, TotalLength(v.values);
            && (Fits(v) <==> 11 + 10 * n + total <= PAGE_SIZE)
            && (Saves(v) <==> 11 + 10 * n + total - (if n > 0 then |v.values[n - 1]| else 0) <= PAGE_SIZE)
  {
    ChunksLength(v.values);
  }

  lemma BehindFront(front: seq<Byte>, a: seq<Byte>, rest: seq<Byte>, d: seq<Byte>)
    requires |front| + |a| <= |d| <= |front| + |a| + |rest| && d == (front + (a + rest))[..|d|]
    ensures d[|front|..|front| + |a|] == a
  {
  }

  /** One key with a value of 4076 to 65535 bytes is written cut off, and no node can be read from its page. */
  lemma LongValueIsLost(k: int, value: Value, next: nat)
    requires IsInt64(k) && next < TWO64 && 4076 <= |value| < TWO16
    ensures var v := NodeVal(LEAF, [k], [], [value], next);
            Codable(v) && Saves(v) && !Fits(v) && Decode(Written(v).value) == None
  {
    hide FromLittleEndian, ReadWords, LittleEndian, KeysFrom;
    var v := NodeVal(LEAF, [k], [], [value], next);
    var front := Header(v) + Words(KeyWords(v.keys));
    LeafSizes(v);
    assert TotalLength([value]) == |value| by { assert [value][..0] == []; }
    assert Chunks([value]) == Chunk(value) + Chunks([]) && Chunks([]) == [];
    assert Content(v) == front + (LittleEndian(|value|, 2) + value);
    var d := Written(v).value;
    ContentReadsBack(v, []);
    assert Content(v) + [] == Content(v) && |front| == 19;
    assert d[0] == Content(v)[0] && d[1..3] == Content(v)[1..3] && d[3..11] == Content(v)[3..11];
    BehindFront(front, LittleEndian(|value|, 2), value, d);
    ReadsBack16(|value|);
    assert ReadChunks(d, 19, 1) == None;
  }

  lemma EncodeInjective(v: NodeVal, w: NodeVal)
    requires Encodable(v) && Encodable(w) && Encode(v) == Encode(w)
    ensures v == w
  {
    DecodeEncode(v);
    DecodeEncode(w);
  }

  /** Every inner node below the key limit fits a page. */
  lemma InnerFits(v: NodeVal)
    requires v.kind == INTERNAL && |v.keys| < 200 && KeysFit(v)
    ensures |Content(v)| <= PAGE_SIZE <==> |v.children| <= (PAGE_SIZE - NODE_HEADER) / 8 - |v.keys|
    ensures |v.children| == |v.keys| + 1 ==> |Content(v)| <= PAGE_SIZE
  {
  }

  predicate UniformLeaf(v: NodeVal, m: nat) {
    v.kind == LEAF && Codable(v) && |v.keys| < 200 && forall i :: 0 <= i < |v.values| ==> |v.values[i]| == m
  }

  /** With values of one length, every leaf below the key limit is written whole exactly if that is at most 10. */
  lemma TenBytesAreTheMost(m: nat)
    ensures (forall v: NodeVal :: UniformLeaf(v, m) ==> Fits(v)) <==> m <= 10
  {
    hide Content, Payload;
    if m <= 10 {
      forall v: NodeVal | UniformLeaf(v, m) ensures Fits(v) {
        SmallValuesFit(v);
      }
    } else {
      var v := NodeVal(LEAF, seq(199, i => i), [], seq(199, _ => Zeros(m)), 0);
      LeafSizes(v);
      TotalOf(199, m);
      assert UniformLeaf(v, m) && !Fits(v);
    }
  }

  lemma {:induction false} TotalOf(n: nat, m: nat)
    ensures TotalLength(seq(n, _ => Zeros(m))) == n * m
  {
    if n > 0 {
      TotalOf(n - 1, m);
      assert seq(n, _ => Zeros(m))[..n - 1] == seq(n - 1, _ => Zeros(m));
    }
  }

  lemma {:induction false} ChunksAtMost(vs: seq<Value>, most: nat)
    requires forall i :: 0 <= i < |vs| ==> |vs[i]| <= most
    ensures |Chunks(vs)| <= |vs| * (2 + most)
  {
    if vs != [] {
      ChunksAtMost(vs[1..], most);
      assert |vs| * (2 + most) == |vs[1..]| * (2 + most) + (2 + most);
    }
  }

  /** So does every leaf below the key limit whose values have at most 10 bytes. */
  lemma SmallValuesFit(v: NodeVal)
    requires v.kind == LEAF && |v.keys| < 200 && KeysFit(v) && |v.values| == |v.keys|
    requires forall i :: 0 <= i < |v.values| ==> |v.values[i]| <= 10
    ensures |Content(v)| <= PAGE_SIZE
  {
    ChunksAtMost(v.values, 10);
  }
}
