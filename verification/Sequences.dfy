// Facts about sequences that several components share.
module Sequences {

  datatype Option<+T> = None | Some(value: T)

  /** The concatenation of a sequence of sequences. */
  function Join<T>(parts: seq<seq<T>>): seq<T> {
    if parts == [] then [] else parts[0] + Join(parts[1..])
  }

  lemma {:induction false} JoinAppend<T>(a: seq<seq<T>>, b: seq<seq<T>>)
    ensures Join(a + b) == Join(a) + Join(b)
  {
    if a == [] {
      assert a + b == b;
    } else {
      assert (a + b)[0] == a[0] && (a + b)[1..] == a[1..] + b;
      JoinAppend(a[1..], b);
    }
  }

  lemma JoinCut<T>(parts: seq<seq<T>>, m: nat)
    requires m <= |parts|
    ensures Join(parts) == Join(parts[..m]) + Join(parts[m..])
  {
    assert parts == parts[..m] + parts[m..];
    JoinAppend(parts[..m], parts[m..]);
  }

  /** Part i sits between everything before it and everything after it. */
  lemma JoinAround<T>(parts: seq<seq<T>>, i: nat)
    requires i < |parts|
    ensures Join(parts) == Join(parts[..i]) + parts[i] + Join(parts[i + 1..])
  {
    assert parts == parts[..i] + parts[i..];
    JoinAppend(parts[..i], parts[i..]);
    assert parts[i..][1..] == parts[i + 1..];
  }

  lemma FrontOfJoin<T>(parts: seq<seq<T>>, i: nat, m: nat)
    requires i < |parts| && m <= |parts[i]|
    ensures |Join(parts[..i])| + m <= |Join(parts)|
    ensures Join(parts)[..|Join(parts[..i])| + m] == Join(parts[..i]) + parts[i][..m]
  {
    hide Join;
    JoinAround(parts, i);
  }

  /** s' is s with element i replaced by x and y. */
  ghost predicate TwoForOne<T>(s: seq<T>, i: nat, x: T, y: T, s': seq<T>) {
    && i < |s| && |s'| == |s| + 1
    && (forall j {:trigger s[j]} :: 0 <= j < i ==> s'[j] == s[j])
    && s'[i] == x && s'[i + 1] == y
    && (forall j {:trigger s[j]} :: i < j < |s| ==> s'[j + 1] == s[j])
  }

  lemma InsertTwoForOne<T>(s: seq<T>, i: nat, x: T, y: T)
    requires i < |s|
    ensures TwoForOne(s, i, x, y, InsertAt(s[i := x], i + 1, y))
  {
  }

  lemma TwoForOneFrom<T>(s: seq<T>, i: nat, x: T, y: T, s': seq<T>, j: nat)
    requires TwoForOne(s, i, x, y, s') && j < |s'|
    ensures s'[j] == x || s'[j] == y || s'[j] in s
  {
    if j < i {
      assert s[j] == s'[j];
    } else if j > i + 1 {
      assert s[j - 1] == s'[j];
    }
  }

  /** Replacing part i by two parts replaces its elements by theirs. */
  lemma JoinWithTwo<T>(parts: seq<seq<T>>, i: nat, x: seq<T>, y: seq<T>, parts': seq<seq<T>>)
    requires TwoForOne(parts, i, x, y, parts')
    ensures Join(parts') == Join(parts[..i]) + (x + y) + Join(parts[i + 1..])
  {
    assert parts'[..i] == parts[..i];
    assert parts'[i + 2..] == parts[i + 1..] by {
      forall j | i + 2 <= j < |parts'| ensures parts'[j] == parts[j - 1] {
        assert parts'[(j - 1) + 1] == parts[j - 1];
      }
    }
    JoinAround(parts', i);
    assert parts'[i + 1..][0] == y && parts'[i + 1..][1..] == parts'[i + 2..];
  }

  lemma JoinReplaceOne<T>(parts: seq<seq<T>>, i: nat, x: seq<T>)
    requires i < |parts|
    ensures Join(parts[i := x]) == Join(parts[..i]) + x + Join(parts[i + 1..])
  {
    JoinAround(parts[i := x], i);
    assert parts[i := x][..i] == parts[..i];
    assert parts[i := x][i + 1..] == parts[i + 1..];
  }

  lemma {:induction false} InJoin<T>(parts: seq<seq<T>>, x: T)
    ensures x in Join(parts) <==> exists i :: 0 <= i < |parts| && x in parts[i]
  {
    if parts != [] {
      InJoin(parts[1..], x);
      if x in Join(parts[1..]) {
        var i :| 0 <= i < |parts[1..]| && x in parts[1..][i];
        assert x in parts[i + 1];
      }
      if i :| 0 <= i < |parts| && x in parts[i] {
        if i > 0 {
          assert x in parts[1..][i - 1];
        }
      }
    }
  }

  /** The part, among those from lo to hi, that an element comes from. */
  lemma PartOf<T>(parts: seq<seq<T>>, lo: nat, hi: nat, x: T) returns (i: nat)
    requires lo <= hi <= |parts| && x in Join(parts[lo..hi])
    ensures lo <= i < hi && x in parts[i]
  {
    InJoin(parts[lo..hi], x);
    var j :| 0 <= j < hi - lo && x in parts[lo..hi][j];
    i := lo + j;
  }

  function InsertAt<T>(s: seq<T>, pos: nat, x: T): (r: seq<T>)
    requires pos <= |s|
    ensures |r| == |s| + 1
  {
    s[..pos] + [x] + s[pos..]
  }

  lemma InsertedAt<T>(s: seq<T>, pos: nat, x: T, j: nat)
    requires pos <= |s| && j <= |s|
    ensures InsertAt(s, pos, x)[j] == if j < pos then s[j] else if j == pos then x else s[j - 1]
  {
  }

  lemma InsertInside<T>(a: seq<T>, b: seq<T>, c: seq<T>, p: nat, x: T)
    requires p <= |b|
    ensures InsertAt(a + b + c, |a| + p, x) == a + InsertAt(b, p, x) + c
  {
    var all, q := a + b + c, |a| + p;
    assert all[..q] == a + b[..p];
    assert all[q..] == b[p..] + c;
    assert a + InsertAt(b, p, x) + c == (a + b[..p]) + [x] + (b[p..] + c);
  }

  lemma ReplaceInside<T>(a: seq<T>, b: seq<T>, c: seq<T>, p: nat, x: T)
    requires p < |b|
    ensures (a + b + c)[|a| + p := x] == a + b[p := x] + c
  {
  }

  lemma SliceInside<T>(a: seq<T>, b: seq<T>, c: seq<T>, lo: nat, hi: nat)
    requires lo <= hi <= |b|
    ensures (a + b + c)[|a| + lo..|a| + hi] == b[lo..hi]
  {
  }

  lemma Glue<T>(d: seq<T>, lo: nat, mid: nat, hi: nat)
    requires lo <= mid <= hi <= |d|
    ensures d[lo..mid] + d[mid..hi] == d[lo..hi]
  {
  }

  lemma Regroup<T>(a: seq<T>, b: seq<T>, c: seq<T>, d: seq<T>)
    ensures a + (b + c) + d == a + b + (c + d)
    ensures (a + b) + c + d == a + (b + c) + d
    ensures (a + b) + c + d == a + (b + c + d)
  {
  }
}
