/** Doubly linked rings threaded through the slots of an array.
    Both link families of internal/freelru/lru.go (time order and hash buckets) are
    instances: the successor of slot p is next[p], its predecessor prev[p]. */
module Ring {
  datatype Links = Links(next: seq<nat>, prev: seq<nat>)

  ghost predicate Distinct<T>(c: seq<T>) {
    forall i, j :: 0 <= i < j < |c| ==> c[i] != c[j]
  }

  function After(c: seq<nat>, i: nat): nat
    requires i < |c|
  {
    if i + 1 < |c| then c[i + 1] else c[0]
  }

  function Before(c: seq<nat>, i: nat): nat
    requires i < |c|
  {
    if i > 0 then c[i - 1] else c[|c| - 1]
  }

  /** c lists, in link order and without repetition, the slots of one closed ring of l. */
  ghost predicate IsRing(l: Links, c: seq<nat>) {
    && |l.next| == |l.prev|
    && Distinct(c)
    && (forall i :: 0 <= i < |c| ==> c[i] < |l.next|)
    && (forall i {:trigger l.next[c[i]]} :: 0 <= i < |c| ==> l.next[c[i]] == After(c, i))
    && (forall i {:trigger l.prev[c[i]]} :: 0 <= i < |c| ==> l.prev[c[i]] == Before(c, i))
  }

  /** Every link leads to a slot of the array. */
  ghost predicate Closed(l: Links, n: nat) {
    && |l.next| == |l.prev| == n
    && (forall p :: 0 <= p < n ==> l.next[p] < n)
    && (forall p :: 0 <= p < n ==> l.prev[p] < n)
  }

  /** The two writes that take p out of its ring. */
  function Unlink(l: Links, p: nat): Links
    requires p < |l.next| == |l.prev|
    requires l.next[p] < |l.next| && l.prev[p] < |l.next|
  {
    Links(l.next[l.prev[p] := l.next[p]], l.prev[l.next[p] := l.prev[p]])
  }

  /** The four writes that put p in front of start; p may equal start when its stale prev is itself. */
  function LinkBefore(l: Links, start: nat, p: nat): Links
    requires p < |l.next| == |l.prev|
    requires start < |l.next| && l.prev[start] < |l.next|
  {
    var tail := l.prev[start];
    Links(l.next[p := start][tail := p], l.prev[p := tail][start := p])
  }

  /** The four writes that put p behind tail. */
  function LinkAfter(l: Links, tail: nat, p: nat): Links
    requires p < |l.next| == |l.prev|
    requires tail < |l.next| && l.next[tail] < |l.next|
  {
    var start := l.next[tail];
    Links(l.next[p := start][tail := p], l.prev[p := tail][start := p])
  }

  /** The writes that let slot to take over the ring position of slot from. */
  function Relabel(l: Links, to: nat, from: nat): Links
    requires to < |l.next| == |l.prev|
    requires from < |l.next| && l.next[from] < |l.next| && l.prev[from] < |l.next|
  {
    var next := l.next[l.prev[from] := to];
    var prev := l.prev[l.next[from] := to];
    Links(next[to := next[from]], prev[to := prev[from]])
  }

  function With(c: seq<nat>, j: nat, x: nat): seq<nat>
    requires j < |c|
  {
    c[j := x]
  }

  function Without<T>(c: seq<T>, j: nat): seq<T>
    requires j < |c|
  {
    c[..j] + c[j + 1..]
  }

  /** The ring left after position j went, listed from the successor of the removed slot. */
  function RotatedWithout<T>(c: seq<T>, j: nat): seq<T>
    requires j < |c|
  {
    c[j + 1..] + c[..j]
  }

  /** c re-listed through an injective renumbering is again repetition free. */
  lemma DistinctBy(c: seq<nat>, d: seq<nat>, at: seq<nat>)
    requires Distinct(c) && Distinct(at) && |d| == |at|
    requires forall i :: 0 <= i < |d| ==> at[i] < |c| && d[i] == c[at[i]]
    ensures Distinct(d)
  {
    forall i, j | 0 <= i < j < |d|
      ensures d[i] != d[j]
    {
      var x, y := at[i], at[j];
      assert x != y && d[i] == c[x] && d[j] == c[y];
    }
  }

  lemma RotateRing(l: Links, c: seq<nat>, k: nat)
    requires IsRing(l, c) && k <= |c|
    ensures IsRing(l, c[k..] + c[..k])
  {
    var n := |c|;
    var d := c[k..] + c[..k];
    var at := seq(n, i requires 0 <= i < n => if i + k < n then i + k else i + k - n);
    DistinctBy(c, d, at);
    forall i | 0 <= i < n
      ensures d[i] < |l.next| && l.next[d[i]] == After(d, i) && l.prev[d[i]] == Before(d, i)
    {
      assert d[i] == c[at[i]];
    }
  }

  lemma UnlinkRing(l: Links, c: seq<nat>, j: nat)
    requires IsRing(l, c) && j < |c|
    ensures IsRing(Unlink(l, c[j]), Without(c, j))
  {
    var d := Without(c, j);
    var at := seq(|d|, i requires 0 <= i < |d| => if i < j then i else i + 1);
    DistinctBy(c, d, at);
    forall i | 0 <= i < |d|
      ensures d[i] < |l.next|
      ensures Unlink(l, c[j]).next[d[i]] == After(d, i) && Unlink(l, c[j]).prev[d[i]] == Before(d, i)
    {
      UnlinkAt(l, c, j, i);
    }
  }

  lemma UnlinkAt(l: Links, c: seq<nat>, j: nat, i: nat)
    requires IsRing(l, c) && j < |c| && i < |c| - 1
    ensures var d := Without(c, j); var l' := Unlink(l, c[j]);
            d[i] < |l.next| && l'.next[d[i]] == After(d, i) && l'.prev[d[i]] == Before(d, i)
  {
    UnlinkNextAt(l, c, j, i);
    UnlinkPrevAt(l, c, j, i);
  }

  /** The slot before the removed one gets the removed one's successor, the others keep theirs. */
  lemma UnlinkNextAt(l: Links, c: seq<nat>, j: nat, i: nat)
    requires IsRing(l, c) && j < |c| && i < |c| - 1
    ensures var d := Without(c, j); d[i] < |l.next| && Unlink(l, c[j]).next[d[i]] == After(d, i)
  {
    var n, d := |c|, Without(c, j);
    var x := if i < j then i else i + 1;
    var before := if j > 0 then j - 1 else n - 1;
    assert l.prev[c[j]] == c[before] && d[i] == c[x];
    if x == before {
      assert l.next[c[j]] == After(c, j);
      assert After(d, i) == After(c, j);
    } else {
      assert c[x] != c[before];
      assert l.next[c[x]] == After(c, x);
      assert After(d, i) == After(c, x);
    }
  }

  lemma UnlinkPrevAt(l: Links, c: seq<nat>, j: nat, i: nat)
    requires IsRing(l, c) && j < |c| && i < |c| - 1
    ensures var d := Without(c, j); d[i] < |l.prev| && Unlink(l, c[j]).prev[d[i]] == Before(d, i)
  {
    var n, d := |c|, Without(c, j);
    var x := if i < j then i else i + 1;
    var after := if j + 1 < n then j + 1 else 0;
    assert l.next[c[j]] == c[after] && d[i] == c[x];
    if x == after {
      assert l.prev[c[j]] == Before(c, j);
      assert Before(d, i) == Before(c, j);
    } else {
      assert c[x] != c[after];
      assert l.prev[c[x]] == Before(c, x);
      assert Before(d, i) == Before(c, x);
    }
  }

  lemma LinkRing(l: Links, c: seq<nat>, p: nat)
    requires IsRing(l, c) && |c| > 0 && p < |l.next| && p !in c
    ensures l.prev[c[0]] == c[|c| - 1]
    ensures IsRing(LinkBefore(l, c[0], p), [p] + c)
    ensures IsRing(LinkBefore(l, c[0], p), c + [p])
  {
    var d := [p] + c;
    forall i | 0 <= i < |d|
      ensures d[i] < |l.next|
      ensures LinkBefore(l, c[0], p).next[d[i]] == After(d, i)
      ensures LinkBefore(l, c[0], p).prev[d[i]] == Before(d, i)
    {
      LinkAt(l, c, p, i);
    }
    RotateRing(LinkBefore(l, c[0], p), d, 1);
    assert d[1..] + d[..1] == c + [p];
  }

  lemma LinkAt(l: Links, c: seq<nat>, p: nat, i: nat)
    requires IsRing(l, c) && |c| > 0 && p < |l.next| && p !in c && i <= |c|
    ensures l.prev[c[0]] == c[|c| - 1]
    ensures var d := [p] + c; var l' := LinkBefore(l, c[0], p);
            d[i] < |l.next| && l'.next[d[i]] == After(d, i) && l'.prev[d[i]] == Before(d, i)
  {
    var n := |c|;
    assert c[0] in c && c[n - 1] in c;
    if i > 0 {
      assert c[i - 1] in c;
      assert i - 1 != 0 ==> c[i - 1] != c[0];
      assert i - 1 != n - 1 ==> c[i - 1] != c[n - 1];
    }
  }

  lemma RelabelRing(l: Links, c: seq<nat>, j: nat, to: nat)
    requires IsRing(l, c) && j < |c| && to < |l.next| && to !in c
    ensures IsRing(Relabel(l, to, c[j]), With(c, j, to))
  {
    var d := With(c, j, to);
    forall i | 0 <= i < |d|
      ensures d[i] < |l.next|
      ensures Relabel(l, to, c[j]).next[d[i]] == After(d, i)
      ensures Relabel(l, to, c[j]).prev[d[i]] == Before(d, i)
    {
      RelabelAt(l, c, j, to, i);
    }
  }

  lemma RelabelAt(l: Links, c: seq<nat>, j: nat, to: nat, i: nat)
    requires IsRing(l, c) && j < |c| && to < |l.next| && to !in c && i < |c|
    ensures var d := With(c, j, to); var l' := Relabel(l, to, c[j]);
            d[i] < |l.next| && l'.next[d[i]] == After(d, i) && l'.prev[d[i]] == Before(d, i)
  {
    var n := |c|;
    var before := if j > 0 then j - 1 else n - 1;
    var after := if j + 1 < n then j + 1 else 0;
    assert l.prev[c[j]] == c[before] && l.next[c[j]] == c[after];
    assert c[i] in c;
    assert i != before ==> c[i] != c[before];
    assert i != after ==> c[i] != c[after];
    assert i != j ==> c[i] != c[j];
  }

  /** A ring is untouched by writes to slots outside it. */
  lemma FrameRing(l: Links, l': Links, c: seq<nat>)
    requires IsRing(l, c) && |l'.next| == |l'.prev| == |l.next|
    requires forall p :: p in c ==> p < |l.next| && l'.next[p] == l.next[p] && l'.prev[p] == l.prev[p]
    ensures IsRing(l', c)
  {
  }

  /** Links of a ring never leave it. */
  lemma RingIsClosed(l: Links, c: seq<nat>, j: nat)
    requires IsRing(l, c) && j < |c|
    ensures l.next[c[j]] in c && l.prev[c[j]] in c
    ensures l.next[c[j]] == c[j] <==> |c| == 1
    ensures l.prev[c[j]] == c[j] <==> |c| == 1
  {
  }
}
