// Numbers as bytes, byte by byte: the lowest first, negative ones in two's complement.
module ByteOrder {
  import opened Bytes

  /** The w lowest bytes of n in two's complement, lowest first. */
  ghost predicate Spells(b: seq<Byte>, n: int) {
    forall j :: 0 <= j < |b| ==> b[j] == n / Pow256(j) % 256
  }

  /** The uint16 at position p. */
  function Word(data: seq<Byte>, p: nat): nat
    requires p + 2 <= |data|
  {
    data[p] as int + 256 * data[p + 1] as int
  }

  lemma DivTwice(b: nat, p: nat, q: nat)
    requires p > 0 && q > 0
    ensures p * q > 0 && b / p / q == b / (p * q)
  {
    var a := b / p;
    var x, r, s := a / q, a % q, b % p;
    SplitTwice(b, p, q, x, r, s);
    Quotient(b, p * q, x, p * r + s);
  }

  lemma SplitTwice(b: nat, p: nat, q: nat, x: nat, r: nat, s: nat)
    requires b == p * (q * x + r) + s && r < q && s < p
    ensures p * q > 0 && b == (p * q) * x + (p * r + s) && p * r + s < p * q
  {
    assert p * (q * x + r) == (p * q) * x + p * r;
    assert p * q == p * r + p * (q - r);
    Multiply(p, q - r);
  }

  lemma Multiply(p: nat, k: nat)
    requires k > 0
    ensures p * k >= p
  {
    assert p * k == p * (k - 1) + p;
  }

  lemma NotPositive(d: nat, z: int)
    requires d * z < d
    ensures z <= 0
  {
    if z > 0 {
      Multiply(d, z);
    }
  }

  lemma Quotient(b: int, d: nat, x: int, r: nat)
    requires d > 0 && b == d * x + r && r < d
    ensures b / d == x
  {
    var y := b / d;
    assert d * (x - y) == d * x - d * y == b % d - r;
    assert d * (y - x) == d * y - d * x;
    NotPositive(d, x - y);
    NotPositive(d, y - x);
  }

  lemma DivPlus(n: int, d: nat, k: int)
    requires d > 0
    ensures (n + d * k) / d == n / d + k
  {
    assert d * (n / d + k) == d * (n / d) + d * k;
    Quotient(n + d * k, d, n / d + k, n % d);
  }

  lemma {:induction false} LittleEndianByte(n: nat, w: nat, j: nat)
    requires j < w
    ensures LittleEndian(n, w)[j] == n / Pow256(j) % 256
  {
    if j > 0 {
      LittleEndianByte(n / 256, w - 1, j - 1);
      DivTwice(n, 256, Pow256(j - 1));
    }
  }

  lemma LittleEndianSpells(n: nat, w: nat)
    ensures Spells(LittleEndian(n, w), n)
  {
    forall j | 0 <= j < w ensures LittleEndian(n, w)[j] == n / Pow256(j) % 256 {
      LittleEndianByte(n, w, j);
    }
  }

  lemma ReadSpells(b: seq<Byte>)
    ensures Spells(b, FromLittleEndian(b))
  {
    WritesBack(b);
    LittleEndianSpells(FromLittleEndian(b), |b|);
  }

  lemma WordOf(data: seq<Byte>, p: nat, n: nat)
    requires p + 2 <= |data| && n < TWO16 && data[p..p + 2] == LittleEndian(n, 2)
    ensures Word(data, p) == n
  {
    assert data[p] == data[p..p + 2][0] && data[p + 1] == data[p..p + 2][1];
    assert LittleEndian(n, 2) == [n % 256] + ([n / 256 % 256] + []);
  }

  lemma WordIs(data: seq<Byte>, p: nat)
    requires p + 2 <= |data|
    ensures FromLittleEndian(data[p..p + 2]) == Word(data, p)
  {
    var b := data[p..p + 2];
    assert b[1..][1..] == [] && FromLittleEndian(b[1..]) == b[1] + 256 * FromLittleEndian(b[1..][1..]);
  }

  lemma {:induction false} PowSplit(j: nat, k: nat)
    ensures Pow256(j) * Pow256(k) == Pow256(j + k)
  {
    if j > 0 {
      PowSplit(j - 1, k);
      assert Pow256(j) * Pow256(k) == 256 * (Pow256(j - 1) * Pow256(k)) by {
        assert 256 * Pow256(j - 1) * Pow256(k) == 256 * (Pow256(j - 1) * Pow256(k));
      }
    }
  }

  /** A number and one that is larger by a power of 256 have the same bytes below that. */
  lemma LowBytes(n: int, u: nat, w: nat, j: nat)
    requires (u == n || u == n + Pow256(w)) && j < w
    ensures u / Pow256(j) % 256 == n / Pow256(j) % 256
  {
    var p, k := Pow256(j), Pow256(w - j - 1);
    PowSplit(j, w - j);
    assert Pow256(w) == p * (256 * k);
    if u != n {
      DivPlus(n, p, 256 * k);
      ModPlus(n / p, k);
    }
  }

  lemma ModPlus(x: int, k: nat)
    ensures (x + 256 * k) % 256 == x % 256
  {
  }

  /** The bytes of u spell the int that u stands for. */
  lemma TwosComplement(n: int, u: nat, w: nat)
    requires u == n || u == n + Pow256(w)
    ensures Spells(LittleEndian(u, w), n)
  {
    hide LittleEndian;
    LittleEndianSpells(u, w);
    forall j | 0 <= j < w ensures u / Pow256(j) % 256 == n / Pow256(j) % 256 {
      LowBytes(n, u, w, j);
    }
  }
}
