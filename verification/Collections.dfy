/** Facts about sets and sequences that several modules share. */
module Collections {
  lemma SubsetSize<T>(a: set<T>, b: set<T>)
    requires a <= b
    ensures |a| <= |b|
  {
    assert a + (b - a) == b;
  }

  lemma SnocEqual<T>(p: seq<T>, q: seq<T>, a: T, b: T)
    ensures p + [a] == q + [b] <==> p == q && a == b
  {
    if p + [a] == q + [b] {
      assert p == (p + [a])[..|p|] && q == (q + [b])[..|q|];
      assert (p + [a])[|p|] == a && (q + [b])[|q|] == b;
    }
  }

  lemma SliceSnoc<T>(before: seq<T>, s: seq<T>, i: nat)
    requires i < |s|
    ensures before + s[..i + 1] == before + s[..i] + [s[i]]
  {
  }

  lemma TakeSnoc<T>(s: seq<T>, i: nat)
    requires i < |s|
    ensures s[..i + 1] == s[..i] + [s[i]]
  {
  }

  lemma Regroup<T>(a: seq<T>, b: seq<T>, c: seq<T>)
    ensures a + b + c == a + (b + c)
  {
  }

  /** s occurs in data at position off. */
  ghost predicate Holds<T>(data: seq<T>, off: nat, s: seq<T>) {
    off + |s| <= |data| && forall i {:trigger s[i]} :: 0 <= i < |s| ==> data[off + i] == s[i]
  }

  lemma HoldsSplit<T>(data: seq<T>, off: nat, a: seq<T>, b: seq<T>)
    requires Holds(data, off, a + b)
    ensures Holds(data, off, a) && Holds(data, off + |a|, b)
  {
    var s := a + b;
    forall i | 0 <= i < |a| ensures data[off + i] == a[i] {
      assert s[i] == a[i];
    }
    forall i | 0 <= i < |b| ensures data[off + |a| + i] == b[i] {
      assert s[|a| + i] == b[i];
    }
  }

  lemma HoldsOne<T>(data: seq<T>, off: nat, x: T)
    requires Holds(data, off, [x])
    ensures off < |data| && data[off] == x
  {
    assert data[off + 0] == [x][0];
  }
}
