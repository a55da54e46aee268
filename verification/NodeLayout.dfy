// The bytes of a node one by one, and what is read from any bytes.
module NodeLayout {
  import opened Sequences
  import opened Bytes
  import opened ByteOrder
  import opened NodeCodec

  /** Numbers of eight bytes each, from off on. */
  ghost predicate NumbersAt(c: seq<Byte>, off: nat, ns: seq<int>) {
    && off + 8 * |ns| <= |c|
    && forall i :: 0 <= i < |ns| ==> Spells(c[off + 8 * i..off + 8 * i + 8], ns[i])
  }

  /** Values behind their lengths, one after another, from off on. */
  ghost predicate ValuesAt(c: seq<Byte>, off: nat, vs: seq<Value>) {
    forall i :: 0 <= i < |vs| ==>
      var p := off + 2 * i + TotalLength(vs[..i]);
      p + 2 + |vs[i]| <= |c| && Spells(c[p..p + 2], |vs[i]|) && c[p + 2..p + 2 + |vs[i]|] == vs[i]
  }

  /** A node in bytes: kind, key count, link, keys, and then the children or the values. */
  ghost predicate LaidOut(c: seq<Byte>, v: NodeVal) {
    var n := |v.keys|;
    && 11 + 8 * n <= |c| && c[0] == v.kind && Spells(c[1..3], n) && Spells(c[3..11], v.next)
    && NumbersAt(c, 11, v.keys)
    && (v.kind == 0 ==> |c| == 11 + 8 * n + 8 * |v.children| && NumbersAt(c, 11 + 8 * n, v.children))
    && (v.kind == 1 ==> |c| == 11 + 8 * n + 2 * |v.values| + TotalLength(v.values) && ValuesAt(c, 11 + 8 * n, v.values))
  }

  lemma WordInside(ws: seq<nat>, i: nat)
    requires i < |ws|
    ensures Words(ws)[8 * i..8 * i + 8] == LittleEndian(ws[i], 8)
  {
    hide LittleEndian, Words;
    var front, word, back := Words(ws[..i]), LittleEndian(ws[i], 8), Words(ws[i + 1..]);
    assert Words(ws) == front + word + back by {
      assert ws == ws[..i + 1] + ws[i + 1..];
      WordsAppend(ws[..i + 1], ws[i + 1..]);
      WordsNext(ws, i);
    }
    SliceInside(front, word, back, 0, 8);
  }

  lemma WordAt(before: seq<Byte>, ws: seq<nat>, after: seq<Byte>, i: nat)
    requires i < |ws|
    ensures (before + Words(ws) + after)[|before| + 8 * i..|before| + 8 * i + 8] == LittleEndian(ws[i], 8)
  {
    hide *;
    WordInside(ws, i);
    var lo, hi := 8 * i, 8 * i + 8;
    SliceInside(before, Words(ws), after, lo, hi);
  }

  lemma KeysLaidOut(before: seq<Byte>, keys: seq<int>, after: seq<Byte>)
    requires forall i :: 0 <= i < |keys| ==> IsInt64(keys[i])
    ensures NumbersAt(before + Words(KeyWords(keys)) + after, |before|, keys)
  {
    hide LittleEndian, Words, Spells;
    Powers();
    forall i | 0 <= i < |keys|
      ensures Spells((before + Words(KeyWords(keys)) + after)[|before| + 8 * i..|before| + 8 * i + 8], keys[i])
    {
      WordAt(before, KeyWords(keys), after, i);
      TwosComplement(keys[i], ToUint64(keys[i]), 8);
    }
  }

  lemma ChildrenLaidOut(before: seq<Byte>, ws: seq<nat>)
    ensures NumbersAt(before + Words(ws), |before|, ws)
  {
    hide LittleEndian, Words, Spells;
    forall i | 0 <= i < |ws| ensures Spells((before + Words(ws))[|before| + 8 * i..|before| + 8 * i + 8], ws[i]) {
      WordAt(before, ws, [], i);
      assert before + Words(ws) + [] == before + Words(ws);
      LittleEndianSpells(ws[i], 8);
    }
  }

  lemma ChunkAt(before: seq<Byte>, vs: seq<Value>, i: nat)
    requires i < |vs|
    ensures var c, p := before + Chunks(vs), |before| + 2 * i + TotalLength(vs[..i]);
            p + 2 + |vs[i]| <= |c| && Spells(c[p..p + 2], |vs[i]|) && c[p + 2..p + 2 + |vs[i]|] == vs[i]
  {
    hide LittleEndian, Spells, Chunks, TotalLength;
    assert vs == vs[..i + 1] + vs[i + 1..];
    ChunksAppend(vs[..i + 1], vs[i + 1..]);
    ChunksNext(vs, i);
    ChunksLength(vs[..i]);
    LittleEndianSpells(|vs[i]|, 2);
    var front, back, word := before + Chunks(vs[..i]), Chunks(vs[i + 1..]), LittleEndian(|vs[i]|, 2);
    assert before + Chunks(vs) == front + (word + vs[i]) + back;
    SliceInside(front, word + vs[i], back, 0, 2);
    SliceInside(front, word + vs[i], back, 2, 2 + |vs[i]|);
    assert (word + vs[i])[0..2] == word && (word + vs[i])[2..2 + |vs[i]|] == vs[i];
  }

  lemma HeaderLaidOut(v: NodeVal, rest: seq<Byte>)
    ensures var c := Header(v) + rest; c[0] == v.kind && Spells(c[1..3], |v.keys|) && Spells(c[3..11], v.next)
  {
    hide LittleEndian, Spells;
    LittleEndianSpells(|v.keys|, 2);
    LittleEndianSpells(v.next, 8);
    var c := Header(v) + rest;
    assert c[1..3] == LittleEndian(|v.keys|, 2) && c[3..11] == LittleEndian(v.next, 8);
  }

  /** The content of a node, byte by byte. */
  lemma ContentIsLaidOut(v: NodeVal)
    requires Codable(v)
    ensures LaidOut(Content(v), v)
  {
    hide LittleEndian, Spells, Words, Chunks, Header, NumbersAt, TotalLength;
    var head, keys := Header(v), Words(KeyWords(v.keys));
    var c := Content(v);
    assert c == head + (keys + Payload(v));
    HeaderLaidOut(v, keys + Payload(v));
    KeysLaidOut(head, v.keys, Payload(v));
    if v.kind == INTERNAL {
      ChildrenLaidOut(head + keys, v.children);
    } else {
      ChunksLength(v.values);
      forall i | 0 <= i < |v.values|
        ensures var p := 11 + 8 * |v.keys| + 2 * i + TotalLength(v.values[..i]);
                p + 2 + |v.values[i]| <= |c| && Spells(c[p..p + 2], |v.values[i]|) &&
                c[p + 2..p + 2 + |v.values[i]|] == v.values[i]
      {
        ChunkAt(head + keys, v.values, i);
      }
    }
  }

  /** The page written for a node: its content, with zeros behind it or cut off at the page's end. */
  lemma WrittenIs(v: NodeVal)
    requires Codable(v) && Saves(v)
    ensures Written(v).Some? && |Written(v).value| == 4096 && LaidOut(Content(v), v)
    ensures forall i :: 0 <= i < 4096 ==> Written(v).value[i] == if i < |Content(v)| then Content(v)[i] else 0
  {
    hide Content, LaidOut;
    ContentIsLaidOut(v);
  }

  // ----- reading -----

  lemma {:induction false} WordsRead(data: seq<Byte>, off: nat, n: nat)
    requires off + 8 * n <= |data|
    ensures Words(ReadWords(data, off, n)) == data[off..off + 8 * n]
    ensures forall i :: 0 <= i < n ==> ReadWords(data, off, n)[i] < TWO64
    decreases n
  {
    hide LittleEndian, FromLittleEndian;
    if n > 0 {
      var b := data[off..off + 8];
      WordsRead(data, off + 8, n - 1);
      WritesBack(b);
      Powers();
      ReadBound(b);
      var ws := ReadWords(data, off, n);
      assert ws[1..] == ReadWords(data, off + 8, n - 1);
      assert data[off..off + 8 * n] == b + data[off + 8..off + 8 + 8 * (n - 1)];
    }
  }

  lemma {:induction false} ChunksRead(data: seq<Byte>, off: nat, n: nat)
    requires off <= |data| && ReadChunks(data, off, n).Some?
    ensures var vs := ReadChunks(data, off, n).value;
            |vs| == n && off + |Chunks(vs)| <= |data| && Chunks(vs) == data[off..off + |Chunks(vs)|]
    decreases n
  {
    hide LittleEndian, FromLittleEndian;
    if n > 0 {
      var b := data[off..off + 2];
      var len := FromLittleEndian(b);
      ChunksRead(data, off + 2 + len, n - 1);
      WritesBack(b);
      var vs, rest := ReadChunks(data, off, n).value, ReadChunks(data, off + 2 + len, n - 1).value;
      assert vs[1..] == rest && |vs[0]| == len;
      var k := |Chunks(rest)|;
      Glue(data, off, off + 2, off + 2 + len);
      Glue(data, off, off + 2 + len, off + 2 + len + k);
    }
  }

  lemma KeysRead(ws: seq<nat>)
    requires forall i :: 0 <= i < |ws| ==> ws[i] < TWO64
    ensures forall i :: 0 <= i < |ws| ==> IsInt64(KeysFrom(ws)[i])
    ensures KeyWords(KeysFrom(ws)) == ws
  {
  }

  lemma HeaderRead(data: seq<Byte>, v: NodeVal)
    requires |data| >= NODE_HEADER && v.kind == data[0]
    requires |v.keys| == FromLittleEndian(data[1..3]) && v.next == FromLittleEndian(data[3..11])
    ensures Header(v) == data[..11] && |v.keys| < TWO16 && v.next < TWO64
  {
    hide LittleEndian, FromLittleEndian;
    Powers();
    WritesBack(data[1..3]);
    WritesBack(data[3..11]);
    ReadBound(data[1..3]);
    ReadBound(data[3..11]);
    assert data[..11] == [data[0]] + data[1..3] + data[3..11];
  }

  /** A node is read from bytes only if they begin with its content. */
  lemma DecodedIsThere(data: seq<Byte>, v: NodeVal)
    requires Decode(data) == Some(v) && v.kind <= 1
    ensures Codable(v) && Content(v) <= data && LaidOut(Content(v), v)
  {
    hide LittleEndian, FromLittleEndian, ReadWords, ReadChunks, KeysFrom, Words, Chunks, Header, LaidOut;
    var n, pos := |v.keys|, NODE_HEADER + 8 * |v.keys|;
    HeaderRead(data, v);
    WordsRead(data, NODE_HEADER, n);
    KeysRead(ReadWords(data, NODE_HEADER, n));
    if v.kind == INTERNAL {
      WordsRead(data, pos, n + 1);
      assert data[..pos + 8 * (n + 1)] == data[..11] + data[11..pos] + data[pos..pos + 8 * (n + 1)];
    } else {
      ChunksRead(data, pos, n);
      var k := |Chunks(v.values)|;
      assert data[..pos + k] == data[..11] + data[11..pos] + data[pos..pos + k];
    }
    ContentIsLaidOut(v);
  }
}
