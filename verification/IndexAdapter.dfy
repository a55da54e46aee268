// Index nodes in an index's own page file, which takes their first bytes for a page number.
module IndexAdapter {
  import opened Bytes
  import opened PageModel
  import opened PoolModel
  import opened Sequences
  import NodeCodec

  // ----- the low bytes of a number -----

  lemma {:induction false} FrontOfNumber(n: nat, w: nat, k: nat)
    requires k <= w
    ensures LittleEndian(n, w)[..k] == LittleEndian(n, k)
  {
    if k > 0 {
      FrontOfNumber(n / 256, w - 1, k - 1);
      assert LittleEndian(n, w)[..k] == [n % 256] + LittleEndian(n / 256, w - 1)[..k - 1];
    }
  }

  lemma SplitRemainder(n: nat, p: nat)
    requires p > 0
    ensures n % (256 * p) == n % 256 + 256 * ((n / 256) % p)
  {
    var q, r := n / 256, n % 256;
    var a, b := q / p, q % p;
    assert q == p * a + b;
    assert n == (256 * p) * a + (256 * b + r);
    RemainderIs(n, 256 * p, a, 256 * b + r);
  }

  lemma RemainderIs(n: nat, m: nat, a: nat, b: nat)
    requires n == m * a + b && b < m
    ensures n % m == b
  {
    var d := n / m - a;
    assert n == m * (n / m) + n % m;
    assert m * d == m * (n / m) - m * a;
    Outside(m, d);
  }

  lemma Outside(m: nat, d: int)
    ensures d >= 1 ==> m * d >= m
    ensures d <= -1 ==> m * d <= -(m as int)
  {
  }

  /** Reading the k low bytes gives the number modulo 256 to the k. */
  lemma {:induction false} ReadsRemainder(n: nat, k: nat)
    ensures FromLittleEndian(LittleEndian(n, k)) == n % Pow256(k)
  {
    if k > 0 {
      ReadsRemainder(n / 256, k - 1);
      SplitRemainder(n, Pow256(k - 1));
      assert LittleEndian(n, k)[1..] == LittleEndian(n / 256, k - 1);
    }
  }

  lemma {:induction false} ReadJoined(a: seq<Byte>, b: seq<Byte>)
    ensures FromLittleEndian(a + b) == FromLittleEndian(a) + Pow256(|a|) * FromLittleEndian(b)
  {
    if a == [] {
      assert a + b == b;
    } else {
      assert (a + b)[1..] == a[1..] + b;
      ReadJoined(a[1..], b);
    }
  }

  // ----- nodes as pages -----

  /**
   What the page file takes for the page number of a stored node: its kind, key count and the low bytes of its link.
   */
  function ClaimedNumber(v: NodeCodec.NodeVal): nat {
    v.kind + 0x100 * |v.keys| + 0x100_0000 * (v.next % 0x100_0000_0000)
  }

  lemma HeaderClaims(v: NodeCodec.NodeVal)
    requires NodeCodec.Codable(v)
    ensures HeaderOf(NodeCodec.Page(NodeCodec.Content(v))).pageID == ClaimedNumber(v)
  {
    hide LittleEndian, FromLittleEndian, NodeCodec.Payload, NodeCodec.Words;
    var count, link := LittleEndian(|v.keys|, 2), LittleEndian(v.next, 8);
    assert NodeCodec.Page(NodeCodec.Content(v))[0..8] == [v.kind] + (count + link[..5]);
    FrontOfNumber(v.next, 8, 5);
    Joined(v.kind, |v.keys|, v.next);
  }

  /** A page that a node can be read from carries the number that the node claims. */
  lemma ReadClaims(d: PageData, v: NodeCodec.NodeVal)
    requires |d| == PAGE_SIZE && NodeCodec.Decode(d) == Some(v)
    ensures HeaderOf(d).pageID == ClaimedNumber(v)
  {
    hide LittleEndian, FromLittleEndian, NodeCodec.ReadChunks, NodeCodec.ReadWords, NodeCodec.KeysFrom;
    ReadBound(d[1..3]);
    Powers();
    WritesBack(d[1..3]);
    WritesBack(d[3..11]);
    assert d[0..8] == [d[0]] + (d[1..3] + d[3..11][..5]);
    FrontOfNumber(v.next, 8, 5);
    Joined(v.kind, |v.keys|, v.next);
  }

  lemma Joined(kind: Byte, n: nat, next: nat)
    requires n < TWO16
    ensures FromLittleEndian([kind] + (LittleEndian(n, 2) + LittleEndian(next, 5))) ==
            kind + 0x100 * n + 0x100_0000 * (next % 0x100_0000_0000)
  {
    hide LittleEndian;
    ReadsBack16(n);
    ReadsRemainder(next, 5);
    assert Pow256(5) == 0x100_0000_0000 by { Powers(); assert Pow256(5) == 256 * Pow256(4); }
    ReadJoined(LittleEndian(n, 2), LittleEndian(next, 5));
    Powers();
    var rest := LittleEndian(n, 2) + LittleEndian(next, 5);
    assert ([kind] + rest)[1..] == rest;
  }

  /** The page that is read after a node was written to it: the written one if its first bytes spell its number. */
  lemma PageAfterWrite(s: Store, pid: nat, v: NodeCodec.NodeVal)
    requires StoreOk(s) && pid < TWO64 && NodeCodec.Codable(v) && NodeCodec.Saves(v)
    ensures var page := NodeCodec.Written(v).value;
            StoreRead(StoreWrite(s, pid, page), pid) == if pid == ClaimedNumber(v) then page else Blank(pid)
  {
    hide HeaderOf, Blank, StoreWrite, StoreRead, NodeCodec.Content;
    HeaderClaims(v);
    WriteThenRead(s, pid, NodeCodec.Written(v).value, pid);
  }

  /** A node comes back from its page exactly if all of it fits the page and its first bytes spell the page's number. */
  lemma NodeReadsBackIff(s: Store, pid: nat, v: NodeCodec.NodeVal)
    requires StoreOk(s) && pid < TWO64 && NodeCodec.Codable(v) && NodeCodec.Saves(v)
    ensures NodeCodec.Decode(StoreRead(StoreWrite(s, pid, NodeCodec.Written(v).value), pid)) == Some(v) <==>
            NodeCodec.Fits(v) && pid == ClaimedNumber(v)
  {
    hide HeaderOf, Blank, StoreWrite, StoreRead, NodeCodec.Written, NodeCodec.Decode, NodeCodec.Fits, ClaimedNumber;
    PageAfterWrite(s, pid, v);
    NodeCodec.WrittenReadsBackIff(v);
    BlankIs(pid);
    if NodeCodec.Decode(Blank(pid)) == Some(v) {
      ReadClaims(Blank(pid), v);
    }
  }

  lemma LowByte(b: Byte, x: nat)
    ensures (b + 0x100 * x) % 0x100 == b
  {
  }

  /** So no node on a page whose number does not end in its kind is read back. */
  lemma NodeIsBlanked(s: Store, pid: nat, v: NodeCodec.NodeVal)
    requires StoreOk(s) && pid < TWO64 && NodeCodec.Codable(v) && NodeCodec.Saves(v) && pid % 0x100 != v.kind
    ensures StoreRead(StoreWrite(s, pid, NodeCodec.Written(v).value), pid) == Blank(pid)
  {
    hide Blank, NodeCodec.Written, StoreWrite, StoreRead;
    PageAfterWrite(s, pid, v);
    LowByte(v.kind, |v.keys| + 0x1_0000 * (v.next % 0x100_0000_0000));
  }

  /** Nor is any node with a key on page 1, where a new index has its root. */
  lemma FirstPageForgets(s: Store, v: NodeCodec.NodeVal)
    requires StoreOk(s) && NodeCodec.Codable(v) && NodeCodec.Saves(v) && v.keys != []
    ensures StoreRead(StoreWrite(s, 1, NodeCodec.Written(v).value), 1) == Blank(1)
  {
    hide Blank, NodeCodec.Written, StoreWrite, StoreRead;
    PageAfterWrite(s, 1, v);
    assert ClaimedNumber(v) >= 0x100;
  }
}
