// Little-endian integers in byte sequences, as encoding/binary writes and reads them.
module Bytes {

  type Byte = x: int | 0 <= x < 256

  function Pow256(w: nat): (p: nat)
    ensures p > 0
  {
    if w == 0 then 1 else 256 * Pow256(w - 1)
  }

  const TWO16: nat := 0x1_0000
  const TWO32: nat := 0x1_0000_0000
  const TWO63: nat := 0x8000_0000_0000_0000
  const TWO64: nat := 0x1_0000_0000_0000_0000

  lemma Powers()
    ensures Pow256(2) == TWO16
    ensures Pow256(4) == TWO32
    ensures Pow256(8) == TWO64
  {
    assert Pow256(1) == 256;
    assert Pow256(3) == 256 * Pow256(2);
    assert Pow256(5) == 256 * Pow256(4);
    assert Pow256(6) == 256 * Pow256(5);
    assert Pow256(7) == 256 * Pow256(6);
  }

  /** The w low bytes of n, least significant first. */
  function LittleEndian(n: nat, w: nat): (s: seq<Byte>)
    ensures |s| == w
  {
    if w == 0 then [] else [n % 256] + LittleEndian(n / 256, w - 1)
  }

  function FromLittleEndian(s: seq<Byte>): nat {
    if s == [] then 0 else s[0] + 256 * FromLittleEndian(s[1..])
  }

  lemma {:induction false} ReadsBack(n: nat, w: nat)
    requires n < Pow256(w)
    ensures FromLittleEndian(LittleEndian(n, w)) == n
  {
    if w > 0 {
      ReadsBack(n / 256, w - 1);
      assert LittleEndian(n, w)[1..] == LittleEndian(n / 256, w - 1);
    }
  }

  lemma ReadsBack16(n: nat)
    requires n < TWO16
    ensures FromLittleEndian(LittleEndian(n, 2)) == n
  {
    Powers();
    ReadsBack(n, 2);
  }

  lemma ReadsBack32(n: nat)
    requires n < TWO32
    ensures FromLittleEndian(LittleEndian(n, 4)) == n
  {
    Powers();
    ReadsBack(n, 4);
  }

  lemma ReadsBack64(n: nat)
    requires n < TWO64
    ensures FromLittleEndian(LittleEndian(n, 8)) == n
  {
    Powers();
    ReadsBack(n, 8);
  }

  lemma {:induction false} WritesBack(s: seq<Byte>)
    ensures LittleEndian(FromLittleEndian(s), |s|) == s
  {
    if s != [] {
      WritesBack(s[1..]);
      assert s == [s[0]] + s[1..];
    }
  }

  lemma {:induction false} ReadBound(s: seq<Byte>)
    ensures FromLittleEndian(s) < Pow256(|s|)
  {
    if s != [] {
      ReadBound(s[1..]);
    }
  }

  function Zeros(n: nat): (s: seq<Byte>)
    ensures |s| == n
  {
    seq(n, _ => 0)
  }

  /** data with the bytes at off replaced by patch. */
  function Patch(data: seq<Byte>, off: nat, patch: seq<Byte>): (r: seq<Byte>)
    requires off + |patch| <= |data|
    ensures |r| == |data|
    ensures r[off..off + |patch|] == patch
    ensures forall i :: 0 <= i < |data| && !(off <= i < off + |patch|) ==> r[i] == data[i]
  {
    data[..off] + patch + data[off + |patch|..]
  }

  lemma PatchAll(data: seq<Byte>, patch: seq<Byte>)
    requires |data| == |patch|
    ensures Patch(data, 0, patch) == patch
  {
  }

  /** A slice that a patch does not touch keeps its bytes. */
  lemma PatchElsewhere(data: seq<Byte>, off: nat, patch: seq<Byte>, lo: nat, hi: nat)
    requires off + |patch| <= |data|
    requires lo <= hi <= |data|
    requires hi <= off || off + |patch| <= lo
    ensures Patch(data, off, patch)[lo..hi] == data[lo..hi]
  {
  }
}
