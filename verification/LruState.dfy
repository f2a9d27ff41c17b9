/** The state of one LRU of internal/freelru/lru.go as a value, the effect of each of its
    linking steps, and the representation invariant that ties it to a recency list. */
module LruState {
  import opened Ring
  import opened Recency

  const EMPTY_BUCKET: nat := 0xFFFF_FFFF

  /** The part of an element that is not a link. */
  datatype Cell<K, V> = Cell(key: K, value: V, expire: int, bucketPos: nat)

  datatype State<K, V> = State(
    time: Links,           // next, prev
    bucket: Links,         // nextBucket, prevBucket
    cells: seq<Cell<K, V>>,
    buckets: seq<nat>,
    head: nat,
    len: nat)

  /** Every index stored anywhere is one of the n slots. */
  ghost predicate Sound<K, V>(s: State<K, V>, n: nat) {
    && 0 < n < EMPTY_BUCKET
    && Closed(s.time, n) && Closed(s.bucket, n)
    && |s.cells| == |s.buckets| == n
    && (forall p :: 0 <= p < n ==> s.cells[p].bucketPos < n)
    && (forall b :: 0 <= b < n ==> s.buckets[b] < n || s.buckets[b] == EMPTY_BUCKET)
    && s.head < n
  }

  // ---- The steps ------------------------------------------------------------------------

  ghost function SetHead<K, V>(s: State<K, V>, n: nat, pos: nat): State<K, V>
    requires Sound(s, n) && pos < n
  {
    s.(time := LinkAfter(s.time, s.head, pos), head := pos)
  }

  ghost function UnlinkElement<K, V>(s: State<K, V>, n: nat, pos: nat): State<K, V>
    requires Sound(s, n) && pos < n
  {
    s.(time := Unlink(s.time, pos))
  }

  ghost function UnlinkBucket<K, V>(s: State<K, V>, n: nat, pos: nat): State<K, V>
    requires Sound(s, n) && pos < n
  {
    var b := s.cells[pos].bucketPos;
    if s.bucket.prev[pos] == s.bucket.next[pos] == pos then s.(buckets := s.buckets[b := EMPTY_BUCKET])
    else s.(bucket := Unlink(s.bucket, pos), buckets := s.buckets[b := s.bucket.next[pos]])
  }

  ghost function Evict<K, V>(s: State<K, V>, n: nat, pos: nat): State<K, V>
    requires Sound(s, n) && pos < n && s.len > 0
  {
    UnlinkBucket(s, n, pos).(
      head := if pos == s.head then s.time.prev[pos] else s.head,
      time := Unlink(s.time, pos),
      len := s.len - 1)
  }

  ghost function Move<K, V>(s: State<K, V>, n: nat, to: nat, from: nat): State<K, V>
    requires Sound(s, n) && to < n && from < n
  {
    if to == from then s
    else
      var b := s.cells[from].bucketPos;
      s.(head := if from == s.head then to else s.head,
         time := Relabel(s.time, to, from),
         bucket := Relabel(s.bucket, to, from),
         cells := s.cells[to := s.cells[from]],
         buckets := if s.buckets[b] == from then s.buckets[b := to] else s.buckets)
  }

  /** Evicting pos and moving the last element into its place. */
  ghost function TakeOut<K, V>(s: State<K, V>, n: nat, pos: nat): State<K, V>
    requires Sound(s, n) && pos < n && 0 < s.len <= n
  {
    EvictSound(s, n, pos);
    Move(Evict(s, n, pos), n, pos, s.len - 1)
  }

  /** Linking pos into bucket b in front of start. */
  ghost function LinkBucket<K, V>(s: State<K, V>, n: nat, b: nat, pos: nat, start: nat): State<K, V>
    requires Sound(s, n) && b < n && pos < n && start < n
  {
    s.(buckets := s.buckets[b := pos],
       cells := s.cells[pos := s.cells[pos].(bucketPos := b)],
       bucket := LinkBefore(s.bucket, start, pos))
  }

  /** Making pos the only element of bucket b. */
  ghost function StartBucket<K, V>(s: State<K, V>, n: nat, b: nat, pos: nat): State<K, V>
    requires Sound(s, n) && b < n && pos < n
  {
    s.(buckets := s.buckets[b := pos],
       cells := s.cells[pos := s.cells[pos].(bucketPos := b)],
       bucket := Links(s.bucket.next[pos := pos], s.bucket.prev[pos := pos]))
  }

  ghost function Write<K, V>(s: State<K, V>, n: nat, pos: nat, e: Entry<K, V>): State<K, V>
    requires Sound(s, n) && pos < n
  {
    s.(cells := s.cells[pos := Cell(e.key, e.value, e.expire, s.cells[pos].bucketPos)])
  }

  ghost function Insert<K, V>(s: State<K, V>, n: nat, pos: nat, e: Entry<K, V>): State<K, V>
    requires Sound(s, n) && pos < n
  {
    var s1 := Write(s, n, pos, e);
    var s2 := if s.len == 0 then
                s1.(time := Links(s.time.next[pos := pos], s.time.prev[pos := pos]), head := pos)
              else if pos != s.head then SetHead(s1, n, pos)
              else s1;
    s2.(len := s2.len + 1)
  }

  /** Making pos the newest element. */
  ghost function Touch<K, V>(s: State<K, V>, n: nat, pos: nat): State<K, V>
    requires Sound(s, n) && pos < n
  {
    if pos == s.head then s else SetHead(UnlinkElement(s, n, pos), n, pos)
  }

  // ---- The invariant --------------------------------------------------------------------

  ghost predicate TimeLinked<K, V>(s: State<K, V>, order: seq<nat>) {
    && IsRing(s.time, order)
    && (order != [] ==> s.head == order[|order| - 1])
  }

  /** chains[b] lists bucket b; the chains partition the linked slots by bucketPos. */
  ghost predicate BucketsLinked<K, V>(s: State<K, V>, n: nat, order: seq<nat>, chains: seq<seq<nat>>)
    requires Sound(s, n)
  {
    && |chains| == n
    && (forall b :: 0 <= b < n ==> IsRing(s.bucket, chains[b]))
    && (forall b :: 0 <= b < n ==> s.buckets[b] == if chains[b] == [] then EMPTY_BUCKET else chains[b][0])
    && (forall b, p {:trigger p in chains[b]} :: 0 <= b < n && p in chains[b] ==>
          p in order && p < n && s.cells[p].bucketPos == b)
    && (forall p :: p in order ==> p < n && p in chains[s.cells[p].bucketPos])
  }

  ghost predicate KeysPlaced<K, V>(s: State<K, V>, n: nat, order: seq<nat>, bucketOf: K -> nat)
    requires Sound(s, n)
  {
    && (forall p :: p in order ==> p < n && s.cells[p].bucketPos == bucketOf(s.cells[p].key))
    && (forall p, q :: p in order && q in order && p != q ==> p < n && q < n && s.cells[p].key != s.cells[q].key)
  }

  /** order lists the linked slots from oldest to newest. */
  ghost predicate Linked<K, V>(s: State<K, V>, n: nat, order: seq<nat>, chains: seq<seq<nat>>, bucketOf: K -> nat) {
    && Sound(s, n)
    && TimeLinked(s, order)
    && BucketsLinked(s, n, order, chains)
    && KeysPlaced(s, n, order, bucketOf)
    && s.len == |order|
  }

  /** The linked slots are exactly the first len ones. */
  ghost predicate Dense(order: seq<nat>) {
    forall p: nat :: p in order <==> p < |order|
  }

  ghost function EntryAt<K, V>(cells: seq<Cell<K, V>>, p: nat): Entry<K, V>
    requires p < |cells|
  {
    Entry(cells[p].key, cells[p].value, cells[p].expire)
  }

  /** The recency list stored in s. */
  ghost function ListOf<K, V>(cells: seq<Cell<K, V>>, order: seq<nat>): seq<Entry<K, V>>
    requires forall i :: 0 <= i < |order| ==> order[i] < |cells|
  {
    seq(|order|, i requires 0 <= i < |order| => EntryAt(cells, order[i]))
  }

  // ---- Soundness is kept by every step ------------------------------------------------

  lemma SetHeadSound<K, V>(s: State<K, V>, n: nat, pos: nat)
    requires Sound(s, n) && pos < n
    ensures Sound(SetHead(s, n, pos), n)
  {
  }

  lemma UnlinkSound<K, V>(s: State<K, V>, n: nat, pos: nat)
    requires Sound(s, n) && pos < n
    ensures Sound(UnlinkElement(s, n, pos), n) && Sound(UnlinkBucket(s, n, pos), n)
  {
  }

  lemma EvictSound<K, V>(s: State<K, V>, n: nat, pos: nat)
    requires Sound(s, n) && pos < n && s.len > 0
    ensures Sound(Evict(s, n, pos), n)
  {
  }

  lemma MoveSound<K, V>(s: State<K, V>, n: nat, to: nat, from: nat)
    requires Sound(s, n) && to < n && from < n
    ensures Sound(Move(s, n, to, from), n)
  {
  }

  lemma LinkBucketSound<K, V>(s: State<K, V>, n: nat, b: nat, pos: nat, start: nat)
    requires Sound(s, n) && b < n && pos < n && start < n
    ensures Sound(LinkBucket(s, n, b, pos, start), n)
    ensures Sound(StartBucket(s, n, b, pos), n)
  {
  }

  // ---- Time ring ----------------------------------------------------------------------

  lemma EvictTime<K, V>(s: State<K, V>, n: nat, order: seq<nat>, j: nat)
    requires Sound(s, n) && TimeLinked(s, order) && j < |order| && s.len > 0
    ensures TimeLinked(Evict(s, n, order[j]), Without(order, j))
  {
    UnlinkRing(s.time, order, j);
    var d := Without(order, j);
    assert s.time.prev[order[j]] == Before(order, j);
    if d != [] {
      assert j == |order| - 1 || order[j] != order[|order| - 1];
    }
  }

  /** Linking a slot that is in no ring behind the newest one. */
  lemma SetHeadTime<K, V>(s: State<K, V>, n: nat, order: seq<nat>, pos: nat)
    requires Sound(s, n) && TimeLinked(s, order) && order != [] && pos < n && pos !in order
    ensures TimeLinked(SetHead(s, n, pos), order + [pos])
  {
    var last := |order| - 1;
    assert s.time.next[order[last]] == After(order, last) == order[0];
    LinkRing(s.time, order, pos);
  }

  lemma TouchTime<K, V>(s: State<K, V>, n: nat, order: seq<nat>, j: nat)
    requires Sound(s, n) && TimeLinked(s, order) && j < |order|
    ensures TimeLinked(Touch(s, n, order[j]), Without(order, j) + [order[j]])
  {
    var pos := order[j];
    var d := Without(order, j);
    if pos == s.head {
      assert j == |order| - 1;
      assert d + [pos] == order;
    } else {
      UnlinkRing(s.time, order, j);
      UnlinkSound(s, n, pos);
      assert d[|d| - 1] == order[|order| - 1];
      assert pos !in d by {
        forall i | 0 <= i < |d| ensures d[i] != pos {
          assert d[i] == order[if i < j then i else i + 1];
        }
      }
      SetHeadTime(UnlinkElement(s, n, pos), n, d, pos);
    }
  }

  lemma MoveTime<K, V>(s: State<K, V>, n: nat, order: seq<nat>, j: nat, to: nat)
    requires Sound(s, n) && TimeLinked(s, order) && j < |order| && to < n && to !in order
    ensures TimeLinked(Move(s, n, to, order[j]), With(order, j, to))
  {
    RelabelRing(s.time, order, j, to);
    assert order[j] in order;
    if j != |order| - 1 {
      assert order[j] != order[|order| - 1];
    }
  }

  // ---- Bucket rings -------------------------------------------------------------------

  /** In a state whose chains partition order, distinct chains share no slot. */
  lemma ChainsDisjoint<K, V>(s: State<K, V>, n: nat, order: seq<nat>, chains: seq<seq<nat>>, a: nat, b: nat, p: nat)
    requires Sound(s, n) && BucketsLinked(s, n, order, chains)
    requires a < n && b < n && a != b && p in chains[a]
    ensures p !in chains[b]
  {
  }

  lemma MemberWithout(c: seq<nat>, j: nat, p: nat)
    requires Distinct(c) && j < |c|
    ensures p in Without(c, j) <==> p in c && p != c[j]
    ensures p in RotatedWithout(c, j) <==> p in c && p != c[j]
  {
    var d, r := Without(c, j), RotatedWithout(c, j);
    if p in c && p != c[j] {
      var i :| 0 <= i < |c| && c[i] == p;
      assert i < j ==> d[i] == p && r[|c| - j - 1 + i] == p;
      assert i > j ==> d[i - 1] == p && r[i - j - 1] == p;
    }
  }

  lemma UnlinkRotated(l: Links, c: seq<nat>, m: nat)
    requires IsRing(l, c) && m < |c| && |c| > 1
    ensures IsRing(Unlink(l, c[m]), RotatedWithout(c, m))
    ensures l.next[c[m]] == RotatedWithout(c, m)[0]
  {
    var d := Without(c, m);
    UnlinkRing(l, c, m);
    RotateRing(Unlink(l, c[m]), d, m);
    assert d[m..] + d[..m] == RotatedWithout(c, m);
    assert l.next[c[m]] == After(c, m);
  }

  /** The ring that UnlinkBucket leaves in the bucket of chain[m]. */
  lemma UnlinkBucketRing<K, V>(s: State<K, V>, n: nat, c: seq<nat>, m: nat)
    requires Sound(s, n) && IsRing(s.bucket, c) && m < |c|
    ensures var b := s.cells[c[m]].bucketPos; var s' := UnlinkBucket(s, n, c[m]); var r := RotatedWithout(c, m);
            && IsRing(s'.bucket, r)
            && s'.buckets[b] == if r == [] then EMPTY_BUCKET else r[0]
  {
    RingIsClosed(s.bucket, c, m);
    if |c| > 1 {
      UnlinkRotated(s.bucket, c, m);
    }
  }

  lemma UnlinkBucketFrame<K, V>(s: State<K, V>, n: nat, c: seq<nat>, m: nat, other: seq<nat>)
    requires Sound(s, n) && IsRing(s.bucket, c) && m < |c| && IsRing(s.bucket, other)
    requires forall p :: p in c ==> p !in other
    ensures IsRing(UnlinkBucket(s, n, c[m]).bucket, other)
  {
    RingIsClosed(s.bucket, c, m);
    FrameRing(s.bucket, UnlinkBucket(s, n, c[m]).bucket, other);
  }

  /** Bucket b after its ring c lost position m, and every other bucket after that. */
  lemma UnlinkedBucket<K, V>(s: State<K, V>, n: nat, order: seq<nat>, chains: seq<seq<nat>>, b: nat, m: nat, a: nat)
    requires Sound(s, n) && BucketsLinked(s, n, order, chains) && b < n && m < |chains[b]| && a < n
    ensures var c := chains[b]; var s' := UnlinkBucket(s, n, c[m]);
            var c' := if a == b then RotatedWithout(c, m) else chains[a];
            && IsRing(s'.bucket, c')
            && s'.buckets[a] == if c' == [] then EMPTY_BUCKET else c'[0]
  {
    var c := chains[b];
    assert c[m] in c;
    UnlinkBucketRing(s, n, c, m);
    if a != b {
      forall p | p in c ensures p !in chains[a] {
        ChainsDisjoint(s, n, order, chains, b, a, p);
      }
      UnlinkBucketFrame(s, n, c, m, chains[a]);
    }
  }

  lemma EvictBuckets<K, V>(s: State<K, V>, n: nat, order: seq<nat>, chains: seq<seq<nat>>, j: nat, m: nat)
    requires Sound(s, n) && BucketsLinked(s, n, order, chains) && s.len > 0 && Distinct(order)
    requires j < |order| && order[j] in order && m < |chains[s.cells[order[j]].bucketPos]|
    requires chains[s.cells[order[j]].bucketPos][m] == order[j]
    ensures Sound(Evict(s, n, order[j]), n)
    ensures var b := s.cells[order[j]].bucketPos;
            BucketsLinked(Evict(s, n, order[j]), n, Without(order, j), chains[b := RotatedWithout(chains[b], m)])
  {
    var pos := order[j];
    var b := s.cells[pos].bucketPos;
    var c := chains[b];
    var s' := Evict(s, n, pos);
    var chains' := chains[b := RotatedWithout(c, m)];
    EvictSound(s, n, pos);
    var u := UnlinkBucket(s, n, pos);
    assert s'.bucket == u.bucket && s'.cells == s.cells && s'.buckets == u.buckets;
    forall a | 0 <= a < n
      ensures IsRing(s'.bucket, chains'[a])
      ensures s'.buckets[a] == if chains'[a] == [] then EMPTY_BUCKET else chains'[a][0]
    {
      UnlinkedBucket(s, n, order, chains, b, m, a);
    }
    forall p
      ensures p in Without(order, j) <==> p in order && p != pos
      ensures p in chains'[b] <==> p in c && p != pos
    {
      MemberWithout(order, j, p);
      MemberWithout(c, m, p);
    }
  }

  /** The ring made by linking pos into bucket b. A bucket that has just lost its only element
      still offers that element's self reference, so start == pos works as well. */
  lemma LinkBucketRing<K, V>(s: State<K, V>, n: nat, b: nat, pos: nat, c: seq<nat>)
    requires Sound(s, n) && b < n && pos < n && IsRing(s.bucket, c) && pos !in c
    ensures c != [] ==> IsRing(LinkBucket(s, n, b, pos, c[0]).bucket, [pos] + c)
    ensures c == [] && s.bucket.prev[pos] == pos ==> LinkBucket(s, n, b, pos, pos) == StartBucket(s, n, b, pos)
    ensures c == [] ==> IsRing(StartBucket(s, n, b, pos).bucket, [pos] + c)
  {
    if c != [] {
      LinkRing(s.bucket, c, pos);
    } else if s.bucket.prev[pos] == pos {
      assert s.bucket.next[pos := pos][pos := pos] == s.bucket.next[pos := pos];
      assert s.bucket.prev[pos := pos][pos := pos] == s.bucket.prev[pos := pos];
    }
  }

  /** Where a new slot is linked in: in front of the bucket's first element, if it has one. */
  ghost function Attach<K, V>(s: State<K, V>, n: nat, b: nat, pos: nat, c: seq<nat>): State<K, V>
    requires Sound(s, n) && b < n && pos < n && IsRing(s.bucket, c)
  {
    if c == [] then StartBucket(s, n, b, pos)
    else LinkBucketInRange(s, n, c); LinkBucket(s, n, b, pos, c[0])
  }

  lemma LinkBucketInRange<K, V>(s: State<K, V>, n: nat, c: seq<nat>)
    requires Sound(s, n) && IsRing(s.bucket, c) && c != []
    ensures c[0] < n
  {
  }

  lemma AttachBuckets<K, V>(s: State<K, V>, n: nat, order: seq<nat>, chains: seq<seq<nat>>, b: nat, pos: nat)
    requires Sound(s, n) && BucketsLinked(s, n, order, chains)
    requires b < n && pos < n && pos !in order
    ensures var s' := Attach(s, n, b, pos, chains[b]);
            Sound(s', n) && BucketsLinked(s', n, order + [pos], chains[b := [pos] + chains[b]])
  {
    var c := chains[b];
    var s' := Attach(s, n, b, pos, c);
    var chains' := chains[b := [pos] + c];
    LinkBucketSound(s, n, b, pos, if c == [] then pos else c[0]);
    LinkBucketRing(s, n, b, pos, c);
    forall a | 0 <= a < n
      ensures IsRing(s'.bucket, chains'[a])
    {
      if a != b {
        AttachFrame(s, n, b, pos, c, chains[a]);
      }
    }
  }

  lemma AttachFrame<K, V>(s: State<K, V>, n: nat, b: nat, pos: nat, c: seq<nat>, other: seq<nat>)
    requires Sound(s, n) && b < n && pos < n && IsRing(s.bucket, c) && IsRing(s.bucket, other)
    requires pos !in other && forall p :: p in c ==> p !in other
    ensures IsRing(Attach(s, n, b, pos, c).bucket, other)
  {
    if c != [] {
      RingIsClosed(s.bucket, c, 0);
    }
    FrameRing(s.bucket, Attach(s, n, b, pos, c).bucket, other);
  }

  lemma MovedBucket<K, V>(s: State<K, V>, n: nat, order: seq<nat>, chains: seq<seq<nat>>, from: nat, m: nat,
                          to: nat, a: nat)
    requires Sound(s, n) && BucketsLinked(s, n, order, chains) && from in order && from < n
    requires to < n && to !in order && a < n
    requires m < |chains[s.cells[from].bucketPos]| && chains[s.cells[from].bucketPos][m] == from
    ensures var b := s.cells[from].bucketPos;
            var c' := if a == b then With(chains[b], m, to) else chains[a];
            && IsRing(Move(s, n, to, from).bucket, c')
            && Move(s, n, to, from).buckets[a] == if c' == [] then EMPTY_BUCKET else c'[0]
  {
    var b := s.cells[from].bucketPos;
    var c := chains[b];
    RingIsClosed(s.bucket, c, m);
    if a == b {
      RelabelRing(s.bucket, c, m, to);
      if m != 0 {
        assert c[0] != c[m];
      }
    } else {
      FrameRing(s.bucket, Move(s, n, to, from).bucket, chains[a]);
    }
  }

  lemma MoveBuckets<K, V>(s: State<K, V>, n: nat, order: seq<nat>, chains: seq<seq<nat>>, j: nat, m: nat, to: nat)
    requires Sound(s, n) && BucketsLinked(s, n, order, chains) && Distinct(order)
    requires j < |order| && to < n && to !in order
    requires order[j] in order && m < |chains[s.cells[order[j]].bucketPos]|
    requires chains[s.cells[order[j]].bucketPos][m] == order[j]
    ensures Sound(Move(s, n, to, order[j]), n)
    ensures var b := s.cells[order[j]].bucketPos;
            BucketsLinked(Move(s, n, to, order[j]), n, With(order, j, to), chains[b := With(chains[b], m, to)])
  {
    var from := order[j];
    var b := s.cells[from].bucketPos;
    var c := chains[b];
    var s' := Move(s, n, to, from);
    var chains' := chains[b := With(c, m, to)];
    MoveSound(s, n, to, from);
    forall a | 0 <= a < n
      ensures IsRing(s'.bucket, chains'[a])
      ensures s'.buckets[a] == if chains'[a] == [] then EMPTY_BUCKET else chains'[a][0]
    {
      MovedBucket(s, n, order, chains, from, m, to, a);
    }
    forall p
      ensures p in With(order, j, to) <==> p == to || (p in order && p != from)
      ensures p in With(c, m, to) <==> p == to || (p in c && p != from)
    {
      MemberReplaced(order, j, to, p);
      MemberReplaced(c, m, to, p);
    }
  }

  lemma MemberReplaced(c: seq<nat>, j: nat, to: nat, p: nat)
    requires Distinct(c) && j < |c| && to !in c
    ensures p in With(c, j, to) <==> p == to || (p in c && p != c[j])
  {
    var d := With(c, j, to);
    assert d[j] == to;
    if p in c && p != c[j] {
      var i :| 0 <= i < |c| && c[i] == p;
      assert d[i] == p;
    }
  }

  // ---- Whole steps on the linked state and on the list ------------------------------------

  /** The chain of slot order[j] and its place in it. */
  lemma Locate<K, V>(s: State<K, V>, n: nat, order: seq<nat>, chains: seq<seq<nat>>, bucketOf: K -> nat, j: nat)
    returns (m: nat)
    requires Linked(s, n, order, chains, bucketOf) && j < |order|
    ensures order[j] in order && order[j] < n
    ensures m < |chains[s.cells[order[j]].bucketPos]| && chains[s.cells[order[j]].bucketPos][m] == order[j]
  {
    assert order[j] in order;
    m :| 0 <= m < |chains[s.cells[order[j]].bucketPos]| && chains[s.cells[order[j]].bucketPos][m] == order[j];
  }

  lemma ListOfWithout<K, V>(cells: seq<Cell<K, V>>, order: seq<nat>, j: nat)
    requires j < |order| && forall i :: 0 <= i < |order| ==> order[i] < |cells|
    ensures ListOf(cells, Without(order, j)) == Without(ListOf(cells, order), j)
  {
  }

  /** Evicting slot order[j] deletes the j-th list entry. If that empties its bucket, the slot's
      stale prevBucket is the slot itself. */
  lemma EvictLinked<K, V>(s: State<K, V>, n: nat, order: seq<nat>, chains: seq<seq<nat>>, bucketOf: K -> nat, j: nat)
    returns (chains': seq<seq<nat>>)
    requires Linked(s, n, order, chains, bucketOf) && j < |order|
    ensures order[j] < n && order[j] !in Without(order, j)
    ensures Linked(Evict(s, n, order[j]), n, Without(order, j), chains', bucketOf)
    ensures Evict(s, n, order[j]).cells == s.cells
    ensures ListOf(s.cells, Without(order, j)) == Without(ListOf(s.cells, order), j)
    ensures forall b :: 0 <= b < n && chains'[b] == [] && chains[b] != [] ==>
              Evict(s, n, order[j]).bucket.prev[order[j]] == order[j]
    ensures forall b :: 0 <= b < n && chains[b] == [] ==> chains'[b] == []
  {
    var m := Locate(s, n, order, chains, bucketOf, j);
    var b := s.cells[order[j]].bucketPos;
    chains' := chains[b := RotatedWithout(chains[b], m)];
    EvictTime(s, n, order, j);
    EvictBuckets(s, n, order, chains, j, m);
    RingIsClosed(s.bucket, chains[b], m);
    forall p ensures p in Without(order, j) <==> p in order && p != order[j] {
      MemberWithout(order, j, p);
    }
    ListOfWithout(s.cells, order, j);
  }

  /** Making order[j] the newest moves its list entry to the end. */
  lemma TouchLinked<K, V>(s: State<K, V>, n: nat, order: seq<nat>, chains: seq<seq<nat>>, bucketOf: K -> nat, j: nat)
    requires Linked(s, n, order, chains, bucketOf) && j < |order|
    ensures order[j] < n
    ensures Linked(Touch(s, n, order[j]), n, Without(order, j) + [order[j]], chains, bucketOf)
    ensures Touch(s, n, order[j]).cells == s.cells
    ensures ListOf(s.cells, Without(order, j) + [order[j]]) ==
            Without(ListOf(s.cells, order), j) + [EntryAt(s.cells, order[j])]
  {
    var pos := order[j];
    var order' := Without(order, j) + [pos];
    TouchTime(s, n, order, j);
    if pos != s.head {
      UnlinkSound(s, n, pos);
      SetHeadSound(UnlinkElement(s, n, pos), n, pos);
    }
    forall p ensures p in order' <==> p in order {
      MemberWithout(order, j, p);
    }
    ListOfWithout(s.cells, order, j);
  }

  /** Overwriting value and deadline of order[j] overwrites the j-th list entry. */
  lemma UpdateLinked<K, V>(s: State<K, V>, n: nat, order: seq<nat>, chains: seq<seq<nat>>, bucketOf: K -> nat,
                           j: nat, e: Entry<K, V>)
    requires Linked(s, n, order, chains, bucketOf) && j < |order|
    requires order[j] < n && s.cells[order[j]].key == e.key
    ensures Linked(Write(s, n, order[j], e), n, order, chains, bucketOf)
    ensures ListOf(Write(s, n, order[j], e).cells, order) == ListOf(s.cells, order)[j := e]
  {
    var s' := Write(s, n, order[j], e);
    assert forall i :: 0 <= i < |order| && i != j ==> order[i] != order[j];
    assert forall p :: 0 <= p < n ==>
             s'.cells[p].bucketPos == s.cells[p].bucketPos && s'.cells[p].key == s.cells[p].key;
  }

  lemma InsertTime<K, V>(s: State<K, V>, n: nat, order: seq<nat>, pos: nat, e: Entry<K, V>)
    requires Sound(s, n) && TimeLinked(s, order) && s.len == |order| && pos < n && pos !in order
    ensures Sound(Insert(s, n, pos, e), n)
    ensures TimeLinked(Insert(s, n, pos, e), order + [pos])
  {
    var w := Write(s, n, pos, e);
    if order == [] {
      assert IsRing(Insert(s, n, pos, e).time, [pos]);
      assert order + [pos] == [pos];
    } else {
      assert order[|order| - 1] in order;
      SetHeadSound(w, n, pos);
      SetHeadTime(w, n, order, pos);
    }
  }

  lemma InsertBuckets<K, V>(s: State<K, V>, n: nat, order: seq<nat>, chains: seq<seq<nat>>, pos: nat, e: Entry<K, V>)
    requires Sound(s, n) && BucketsLinked(s, n, order, chains) && pos < n
    requires Sound(Insert(s, n, pos, e), n)
    ensures BucketsLinked(Insert(s, n, pos, e), n, order, chains)
  {
    var s' := Insert(s, n, pos, e);
    assert s'.bucket == s.bucket && s'.buckets == s.buckets;
    assert forall p :: 0 <= p < n ==> s'.cells[p].bucketPos == s.cells[p].bucketPos;
  }

  lemma InsertKeys<K, V>(s: State<K, V>, s': State<K, V>, n: nat, order: seq<nat>, bucketOf: K -> nat,
                         pos: nat, e: Entry<K, V>)
    requires Sound(s, n) && Sound(s', n) && KeysPlaced(s, n, order, bucketOf) && pos < n && pos !in order
    requires forall i :: 0 <= i < |order| ==> order[i] < n
    requires forall p :: p in order ==> p < n && s.cells[p].key != e.key
    requires s'.cells == s.cells[pos := Cell(e.key, e.value, e.expire, bucketOf(e.key))]
    ensures KeysPlaced(s', n, order + [pos], bucketOf)
    ensures ListOf(s'.cells, order + [pos]) == ListOf(s.cells, order) + [e]
  {
    assert forall p :: p in order + [pos] <==> p in order || p == pos;
    assert forall i :: 0 <= i < |order| ==> order[i] in order;
  }

  /** Attaching a free slot to the bucket of a new key and inserting there appends to the list. */
  lemma InsertLinked<K, V>(s: State<K, V>, n: nat, order: seq<nat>, chains: seq<seq<nat>>, bucketOf: K -> nat,
                           pos: nat, e: Entry<K, V>)
    requires Linked(s, n, order, chains, bucketOf)
    requires pos < n && pos !in order && bucketOf(e.key) < n
    requires forall p :: p in order ==> p < n && s.cells[p].key != e.key
    ensures var b := bucketOf(e.key);
            var a := Attach(s, n, b, pos, chains[b]);
            && Sound(a, n)
            && Linked(Insert(a, n, pos, e), n, order + [pos], chains[b := [pos] + chains[b]], bucketOf)
            && ListOf(Insert(a, n, pos, e).cells, order + [pos]) == ListOf(s.cells, order) + [e]
  {
    var b := bucketOf(e.key);
    var a := Attach(s, n, b, pos, chains[b]);
    AttachBuckets(s, n, order, chains, b, pos);
    InsertTime(a, n, order, pos, e);
    InsertBuckets(a, n, order + [pos], chains[b := [pos] + chains[b]], pos, e);
    InsertKeys(s, Insert(a, n, pos, e), n, order, bucketOf, pos, e);
  }

  lemma MoveKeys<K, V>(s: State<K, V>, s': State<K, V>, n: nat, order: seq<nat>, bucketOf: K -> nat, j: nat, to: nat)
    requires Sound(s, n) && Sound(s', n) && Distinct(order) && KeysPlaced(s, n, order, bucketOf)
    requires j < |order| && to < n && to !in order && forall i :: 0 <= i < |order| ==> order[i] < n
    requires s'.cells == s.cells[to := s.cells[order[j]]]
    ensures KeysPlaced(s', n, With(order, j, to), bucketOf)
    ensures ListOf(s'.cells, With(order, j, to)) == ListOf(s.cells, order)
  {
    assert order[j] in order;
    forall p ensures p in With(order, j, to) <==> p == to || (p in order && p != order[j]) {
      MemberReplaced(order, j, to, p);
    }
    assert forall i :: 0 <= i < |order| ==> order[i] in order;
  }

  /** Relocating a linked slot leaves the list as it is. */
  lemma MoveLinked<K, V>(s: State<K, V>, n: nat, order: seq<nat>, chains: seq<seq<nat>>, bucketOf: K -> nat,
                         j: nat, to: nat)
    returns (chains': seq<seq<nat>>)
    requires Linked(s, n, order, chains, bucketOf) && j < |order| && to < n && to !in order
    ensures order[j] < n
    ensures Linked(Move(s, n, to, order[j]), n, With(order, j, to), chains', bucketOf)
    ensures ListOf(Move(s, n, to, order[j]).cells, With(order, j, to)) == ListOf(s.cells, order)
  {
    var m := Locate(s, n, order, chains, bucketOf, j);
    var b := s.cells[order[j]].bucketPos;
    chains' := chains[b := With(chains[b], m, to)];
    MoveTime(s, n, order, j, to);
    MoveBuckets(s, n, order, chains, j, m, to);
    MoveKeys(s, Move(s, n, to, order[j]), n, order, bucketOf, j, to);
  }

  // ---- Cache operations on the list -------------------------------------------------------

  lemma ListIsDistinct<K, V>(s: State<K, V>, n: nat, order: seq<nat>, chains: seq<seq<nat>>, bucketOf: K -> nat)
    requires Linked(s, n, order, chains, bucketOf)
    ensures DistinctKeys(ListOf(s.cells, order))
  {
    forall i, j | 0 <= i < j < |order|
      ensures s.cells[order[i]].key != s.cells[order[j]].key
    {
      assert order[i] in order && order[j] in order && order[i] != order[j];
    }
  }

  /** A key that is not in its own bucket is not in the cache. */
  lemma AbsentFromBucket<K, V>(s: State<K, V>, n: nat, order: seq<nat>, chains: seq<seq<nat>>, bucketOf: K -> nat,
                               key: K)
    requires Linked(s, n, order, chains, bucketOf) && bucketOf(key) < n
    requires forall i :: 0 <= i < |chains[bucketOf(key)]| ==>
               chains[bucketOf(key)][i] < n && s.cells[chains[bucketOf(key)][i]].key != key
    ensures forall p :: p in order ==> p < n && s.cells[p].key != key
    ensures !Has(ListOf(s.cells, order), key)
  {
    var c := chains[bucketOf(key)];
    assert forall p :: p in c ==> p < n && s.cells[p].key != key;
    assert forall i :: 0 <= i < |order| ==> order[i] in order;
  }

  lemma DenseReordered(order: seq<nat>, order': seq<nat>)
    requires Dense(order) && |order'| == |order| && forall p :: p in order' <==> p in order
    ensures Dense(order')
  {
  }

  lemma PutAt<K, V>(l: seq<Entry<K, V>>, cap: nat, j: nat, e: Entry<K, V>)
    requires DistinctKeys(l) && j < |l| && l[j].key == e.key && cap > 0
    ensures Put(l, cap, e) == (Without(l, j) + [e], false)
    ensures Without(l[j := e], j) == Without(l, j)
  {
    DropIsWithout(l, j);
    FindIsUnique(l, j);
  }

  lemma LookAt<K, V>(l: seq<Entry<K, V>>, j: nat, now: nat)
    requires DistinctKeys(l) && j < |l| && !Expired(l[j].expire, now)
    ensures Look(l, l[j].key, now) == (Without(l, j) + [l[j]], Hit(l[j].value))
  {
    DropIsWithout(l, j);
    FindIsUnique(l, j);
  }

  /** Moving one slot to the end keeps the same slots. */
  lemma DenseMovedToEnd(order: seq<nat>, j: nat)
    requires Dense(order) && Distinct(order) && j < |order|
    ensures Dense(Without(order, j) + [order[j]])
  {
    var order' := Without(order, j) + [order[j]];
    forall p ensures p in order' <==> p in order {
      MemberWithout(order, j, p);
    }
    DenseReordered(order, order');
  }

  lemma SlotAt<K, V>(s: State<K, V>, n: nat, order: seq<nat>, chains: seq<seq<nat>>, bucketOf: K -> nat, pos: nat)
    returns (j: nat)
    requires Linked(s, n, order, chains, bucketOf) && pos in order && pos < n
    ensures j < |order| && order[j] == pos
    ensures |ListOf(s.cells, order)| == |order| && ListOf(s.cells, order)[j] == EntryAt(s.cells, pos)
    ensures DistinctKeys(ListOf(s.cells, order))
    ensures Distinct(order)
  {
    j :| 0 <= j < |order| && order[j] == pos;
    ListIsDistinct(s, n, order, chains, bucketOf);
  }

  /** Adding a key that is present: overwrite in place, then make it the newest. */
  lemma UpdateIsPut<K, V>(s: State<K, V>, n: nat, order: seq<nat>, chains: seq<seq<nat>>, bucketOf: K -> nat,
                          cap: nat, pos: nat, e: Entry<K, V>)
    returns (order': seq<nat>)
    requires Linked(s, n, order, chains, bucketOf) && Dense(order) && cap > 0
    requires pos in order && pos < n && s.cells[pos].key == e.key
    ensures Sound(Write(s, n, pos, e), n)
    ensures Linked(Touch(Write(s, n, pos, e), n, pos), n, order', chains, bucketOf)
    ensures Dense(order') && |order'| == |order|
    ensures Put(ListOf(s.cells, order), cap, e) == (ListOf(Touch(Write(s, n, pos, e), n, pos).cells, order'), false)
  {
    var j := SlotAt(s, n, order, chains, bucketOf, pos);
    order' := Without(order, j) + [pos];
    UpdateLinked(s, n, order, chains, bucketOf, j, e);
    TouchLinked(Write(s, n, pos, e), n, order, chains, bucketOf, j);
    PutAt(ListOf(s.cells, order), cap, j, e);
    DenseMovedToEnd(order, j);
  }

  /** Looking up an unexpired key: make it the newest. */
  lemma TouchIsLook<K, V>(s: State<K, V>, n: nat, order: seq<nat>, chains: seq<seq<nat>>, bucketOf: K -> nat,
                          pos: nat, now: nat)
    returns (order': seq<nat>)
    requires Linked(s, n, order, chains, bucketOf) && Dense(order)
    requires pos in order && pos < n && !Expired(s.cells[pos].expire, now)
    ensures Touch(s, n, pos).cells == s.cells
    ensures Linked(Touch(s, n, pos), n, order', chains, bucketOf) && Dense(order') && |order'| == |order|
    ensures Look(ListOf(s.cells, order), s.cells[pos].key, now) == (ListOf(s.cells, order'), Hit(s.cells[pos].value))
  {
    var j := SlotAt(s, n, order, chains, bucketOf, pos);
    order' := Without(order, j) + [pos];
    TouchLinked(s, n, order, chains, bucketOf, j);
    LookAt(ListOf(s.cells, order), j, now);
    DenseMovedToEnd(order, j);
  }

  /** The free slot behind a dense prefix. */
  lemma AppendSlot(order: seq<nat>)
    requires Dense(order)
    ensures |order| !in order && Dense(order + [|order|])
  {
    assert forall p :: p in order + [|order|] <==> p in order || p == |order|;
  }

  /** Evicting the oldest element frees its slot for the entry that becomes the newest. */
  lemma EvictOldest<K, V>(s: State<K, V>, n: nat, order: seq<nat>, chains: seq<seq<nat>>, bucketOf: K -> nat)
    returns (chains1: seq<seq<nat>>)
    requires Linked(s, n, order, chains, bucketOf) && Dense(order) && order != []
    ensures s.head < n && s.time.next[s.head] == order[0] < n && s.len > 0
    ensures Linked(Evict(s, n, order[0]), n, order[1..], chains1, bucketOf)
    ensures Evict(s, n, order[0]).cells == s.cells
    ensures ListOf(s.cells, order[1..]) == ListOf(s.cells, order)[1..]
    ensures order[0] !in order[1..] && Dense(order[1..] + [order[0]])
    ensures forall b :: 0 <= b < n && chains[b] == [] ==> chains1[b] == []
    ensures forall b :: 0 <= b < n && chains1[b] == [] && chains[b] != [] ==>
              Evict(s, n, order[0]).bucket.prev[order[0]] == order[0]
  {
    var last := |order| - 1;
    assert s.time.next[order[last]] == After(order, last);
    assert Without(order, 0) == order[1..];
    assert Without(ListOf(s.cells, order), 0) == ListOf(s.cells, order)[1..];
    chains1 := EvictLinked(s, n, order, chains, bucketOf, 0);
    forall p ensures p in order[1..] + [order[0]] <==> p in order {
      MemberWithout(order, 0, p);
    }
    DenseReordered(order, order[1..] + [order[0]]);
  }

  /** Wiping a free slot goes unnoticed. */
  lemma ClearFree<K, V>(s: State<K, V>, s': State<K, V>, n: nat, order: seq<nat>, chains: seq<seq<nat>>,
                        bucketOf: K -> nat, free: nat)
    requires Linked(s, n, order, chains, bucketOf) && free < n && free !in order
    requires |s'.cells| == n && s'.cells[free].bucketPos == s.cells[free].bucketPos
    requires s' == s.(cells := s.cells[free := s'.cells[free]])
    ensures Linked(s', n, order, chains, bucketOf)
    ensures ListOf(s'.cells, order) == ListOf(s.cells, order)
  {
    assert forall p :: 0 <= p < n && p != free ==> s'.cells[p] == s.cells[p];
    assert forall i :: 0 <= i < |order| ==> order[i] in order;
  }

  /** The slots below n taken by order, with a hole at pos unless pos is the last one. */
  ghost predicate DenseButFor(order: seq<nat>, pos: nat) {
    pos !in order && forall p: nat :: p in order || p == pos <==> p <= |order|
  }

  /** Moving the last slot into the hole closes the gap. */
  lemma FillHole<K, V>(s: State<K, V>, n: nat, order: seq<nat>, chains: seq<seq<nat>>, bucketOf: K -> nat, pos: nat)
    returns (order': seq<nat>, chains': seq<seq<nat>>)
    requires Linked(s, n, order, chains, bucketOf) && DenseButFor(order, pos) && pos < n && s.len < n
    ensures Linked(Move(s, n, pos, s.len), n, order', chains', bucketOf)
    ensures ListOf(Move(s, n, pos, s.len).cells, order') == ListOf(s.cells, order)
    ensures Dense(order') && |order'| == |order|
  {
    if pos == s.len {
      order', chains' := order, chains;
    } else {
      assert s.len in order;
      var i :| 0 <= i < |order| && order[i] == s.len;
      order' := With(order, i, pos);
      chains' := MoveLinked(s, n, order, chains, bucketOf, i, pos);
      forall p ensures p in order' <==> p == pos || (p in order && p != s.len) {
        MemberReplaced(order, i, pos, p);
      }
    }
  }

  lemma DenseWithout(order: seq<nat>, n: nat, j: nat)
    requires Dense(order) && Distinct(order) && j < |order| && forall p :: p in order ==> p < n
    ensures DenseButFor(Without(order, j), order[j]) && |order| <= n && order[j] < n
  {
    assert order[j] in order && |order| - 1 in order;
    forall p ensures p in Without(order, j) <==> p in order && p != order[j] {
      MemberWithout(order, j, p);
    }
  }

  /** Evicting a slot and moving the last slot into the hole deletes one entry and leaves no gap. */
  lemma RemoveIsDrop<K, V>(s: State<K, V>, n: nat, order: seq<nat>, chains: seq<seq<nat>>, bucketOf: K -> nat, pos: nat)
    returns (order': seq<nat>, chains': seq<seq<nat>>)
    requires Linked(s, n, order, chains, bucketOf) && Dense(order) && pos in order
    ensures pos < n && 0 < s.len <= n
    ensures Linked(TakeOut(s, n, pos), n, order', chains', bucketOf)
    ensures ListOf(TakeOut(s, n, pos).cells, order') == Drop(ListOf(s.cells, order), s.cells[pos].key)
    ensures Dense(order') && |order'| == |order| - 1
  {
    var j :| 0 <= j < |order| && order[j] == pos;
    var chains1 := EvictLinked(s, n, order, chains, bucketOf, j);
    assert Without(ListOf(s.cells, order), j) == Drop(ListOf(s.cells, order), s.cells[pos].key) by {
      ListIsDistinct(s, n, order, chains, bucketOf);
      DropIsWithout(ListOf(s.cells, order), j);
    }
    DenseWithout(order, n, j);
    order', chains' := FillHole(Evict(s, n, pos), n, Without(order, j), chains1, bucketOf, pos);
  }

  /** A linked slot holds the one list entry for its key. */
  lemma ListAt<K, V>(s: State<K, V>, n: nat, order: seq<nat>, chains: seq<seq<nat>>, bucketOf: K -> nat, pos: nat)
    requires Linked(s, n, order, chains, bucketOf) && pos in order && pos < n
    ensures Has(ListOf(s.cells, order), s.cells[pos].key)
    ensures Find(ListOf(s.cells, order), s.cells[pos].key) == EntryAt(s.cells, pos)
  {
    var j :| 0 <= j < |order| && order[j] == pos;
    ListIsDistinct(s, n, order, chains, bucketOf);
    FindIsUnique(ListOf(s.cells, order), j);
  }
}
