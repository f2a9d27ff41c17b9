/** The LRU cache of internal/freelru/lru.go: two families of rings threaded through one array of
    elements, proved to be a recency list. */
module Lru {
  import opened Bits
  import opened Slices
  import opened Ring
  import opened Recency
  import opened LruState

  datatype Element<K, V> = Element(
    key: K,
    value: V,
    nextBucket: nat,
    prevBucket: nat,
    bucketPos: nat,
    next: nat,
    prev: nat,
    expire: int)

  function Zero<K, V>(emptyKey: K, emptyValue: V): Element<K, V> {
    Element(emptyKey, emptyValue, 0, 0, 0, 0, 0, 0)
  }

  /** Masking when the size is a power of two, a multiply and shift otherwise. */
  function BucketPos(hash: uint32, size: uint32, mask: nat): nat {
    if mask != 0 then And(hash, mask) else FastRange(hash, size)
  }

  function MaskFor(size: nat): nat {
    if OnesCount(size) == 1 then size - 1 else 0
  }

  /** Every hash selects one of the size buckets; for a power of two it is the hash modulo size. */
  lemma BucketPosInRange(hash: uint32, size: uint32)
    requires size > 0
    ensures BucketPos(hash, size, MaskFor(size)) < size
    ensures IsPow2(size) ==> BucketPos(hash, size, MaskFor(size)) == hash % size
  {
    AndBound(hash, MaskFor(size));
    FastRangeBound(hash, size);
    OnesCountOne(size);
    if IsPow2(size) {
      var k: nat :| Pow2(k) == size;
      MaskIsModulo(hash, k);
      if size == 1 {
        assert hash * 1 / TWO32 == 0;
      }
    }
  }

  ghost function Project<K, V>(es: seq<Element<K, V>>, buckets: seq<nat>, head: nat, len: nat): State<K, V> {
    State(
      Links(seq(|es|, i requires 0 <= i < |es| => es[i].next), seq(|es|, i requires 0 <= i < |es| => es[i].prev)),
      Links(seq(|es|, i requires 0 <= i < |es| => es[i].nextBucket),
            seq(|es|, i requires 0 <= i < |es| => es[i].prevBucket)),
      seq(|es|, i requires 0 <= i < |es| => Cell(es[i].key, es[i].value, es[i].expire, es[i].bucketPos)),
      buckets, head, len)
  }

  /** Overwriting one element overwrites one entry of each projection. */
  lemma ProjectUpdate<K, V>(es: seq<Element<K, V>>, buckets: seq<nat>, head: nat, len: nat, p: nat, e: Element<K, V>)
    requires p < |es|
    ensures var s := Project(es, buckets, head, len); var s' := Project(es[p := e], buckets, head, len);
            && s'.time.next == s.time.next[p := e.next] && s'.time.prev == s.time.prev[p := e.prev]
            && s'.bucket.next == s.bucket.next[p := e.nextBucket] && s'.bucket.prev == s.bucket.prev[p := e.prevBucket]
            && s'.cells == s.cells[p := Cell(e.key, e.value, e.expire, e.bucketPos)]
  {
  }

  function NoChains(n: nat): (c: seq<seq<nat>>)
    ensures |c| == n && forall b :: 0 <= b < n ==> c[b] == []
  {
    seq(n, _ => [])
  }

  class LRU<K(==), V> {
    const buckets: Slice<nat>
    const elements: Slice<Element<K, V>>
    const hash: K -> uint32
    const emptyKey: K
    const emptyValue: V
    const cap: nat
    const size: uint32
    const mask: nat
    var head: nat
    var len: nat

    /** The linked slots from oldest to newest, and bucket by bucket. */
    ghost var order: seq<nat>
    ghost var chains: seq<seq<nat>>

    // ---- Abstraction ------------------------------------------------------------------

    ghost predicate Shaped() {
      && buckets.InBounds() && elements.InBounds()
      && buckets.length == elements.length == size
      && (buckets.backing as object) != elements.backing
    }

    ghost function St(): State<K, V>
      requires Shaped()
      reads this, buckets.backing, elements.backing
    {
      Project(elements.Contents(), buckets.Contents(), head, len)
    }

    /** The neighbours' parts of the shared backing arrays. */
    ghost function Elsewhere(): ((seq<nat>, seq<nat>), (seq<Element<K, V>>, seq<Element<K, V>>))
      requires Shaped()
      reads buckets.backing, elements.backing
    {
      (buckets.Outside(), elements.Outside())
    }

    ghost predicate Ready()
      reads this, buckets.backing, elements.backing
    {
      Shaped() && Sound(St(), size)
    }

    ghost function BucketOf(): K -> nat {
      (k: K) => BucketPos(hash(k), size, mask)
    }

    ghost predicate Consistent(s: State<K, V>, order: seq<nat>, chains: seq<seq<nat>>) {
      && 0 < cap <= size < EMPTY_BUCKET && mask == MaskFor(size)
      && Linked(s, size, order, chains, BucketOf())
      && Dense(order) && |order| <= cap
    }

    ghost predicate Valid()
      reads this, buckets.backing, elements.backing
    {
      Shaped() && Consistent(St(), order, chains)
    }

    /** The recency list that this cache stands for, oldest entry first. */
    ghost function Contents(): seq<Entry<K, V>>
      requires Valid()
      reads this, buckets.backing, elements.backing
    {
      ListOf(St().cells, order)
    }

    /** Just initialised: nothing linked, every bucket empty, every element zero. */
    ghost predicate IsNew()
      reads this, buckets.backing, elements.backing
    {
      && Shaped() && 0 < cap <= size < EMPTY_BUCKET && mask == MaskFor(size)
      && head == len == 0 && order == [] && chains == NoChains(size)
      && (forall i :: 0 <= i < size ==> buckets.Contents()[i] == EMPTY_BUCKET)
      && (forall i :: 0 <= i < size ==> elements.Contents()[i] == Zero(emptyKey, emptyValue))
    }

    lemma NewIsValid()
      requires IsNew()
      ensures Valid() && Contents() == []
    {
    }

    /** initLRU, on elements that are still zero. */
    constructor Init(capacity: nat, size: uint32, hash: K -> uint32, buckets: Slice<nat>,
                     elements: Slice<Element<K, V>>, emptyKey: K, emptyValue: V)
      requires 0 < capacity <= size < EMPTY_BUCKET
      requires buckets.InBounds() && elements.InBounds() && buckets.length == elements.length == size
      requires (buckets.backing as object) != elements.backing
      requires forall i :: 0 <= i < size ==> elements.Contents()[i] == Zero(emptyKey, emptyValue)
      modifies buckets.backing
      ensures this.buckets == buckets && this.elements == elements && this.hash == hash
      ensures cap == capacity && this.size == size && this.emptyKey == emptyKey && this.emptyValue == emptyValue
      ensures IsNew() && Valid() && Contents() == []
      ensures Elsewhere() == old((buckets.Outside(), elements.Outside()))
    {
      this.buckets, this.elements, this.hash := buckets, elements, hash;
      this.emptyKey, this.emptyValue := emptyKey, emptyValue;
      this.cap, this.size := capacity, size;
      this.mask := if OnesCount(size) == 1 then size - 1 else 0;
      this.head, this.len := 0, 0;
      this.order, this.chains := [], NoChains(size);
      new;
      for i := 0 to size
        modifies buckets.backing
        invariant buckets.Outside() == old(buckets.Outside()) && elements.Outside() == old(elements.Outside())
        invariant elements.Contents() == old(elements.Contents())
        invariant forall j :: 0 <= j < i ==> buckets.Contents()[j] == EMPTY_BUCKET
      {
        buckets.Put(i, EMPTY_BUCKET);
      }
      NewIsValid();
    }

    // ---- Single reads and assignments ------------------------------------------------------------

    function Next(pos: nat): (x: nat)
      requires Shaped() && pos < size
      reads this, buckets.backing, elements.backing
      ensures x == St().time.next[pos]
    {
      elements.At(pos).next
    }

    function Prev(pos: nat): (x: nat)
      requires Shaped() && pos < size
      reads this, buckets.backing, elements.backing
      ensures x == St().time.prev[pos]
    {
      elements.At(pos).prev
    }

    function NextBucket(pos: nat): (x: nat)
      requires Shaped() && pos < size
      reads this, buckets.backing, elements.backing
      ensures x == St().bucket.next[pos]
    {
      elements.At(pos).nextBucket
    }

    function PrevBucket(pos: nat): (x: nat)
      requires Shaped() && pos < size
      reads this, buckets.backing, elements.backing
      ensures x == St().bucket.prev[pos]
    {
      elements.At(pos).prevBucket
    }

    function PositionOf(pos: nat): (x: nat)
      requires Shaped() && pos < size
      reads this, buckets.backing, elements.backing
      ensures x == St().cells[pos].bucketPos
    {
      elements.At(pos).bucketPos
    }

    function FirstOf(b: nat): (x: nat)
      requires Shaped() && b < size
      reads this, buckets.backing, elements.backing
      ensures x == St().buckets[b]
    {
      buckets.At(b)
    }

    method PutElement(pos: nat, e: Element<K, V>)
      requires Shaped() && pos < size
      modifies elements.backing
      ensures elements.Contents() == old(elements.Contents())[pos := e]
      ensures Elsewhere() == old(Elsewhere()) && buckets.Contents() == old(buckets.Contents())
      ensures var s := old(St());
              St() == s.(time := Links(s.time.next[pos := e.next], s.time.prev[pos := e.prev]),
                         bucket := Links(s.bucket.next[pos := e.nextBucket], s.bucket.prev[pos := e.prevBucket]),
                         cells := s.cells[pos := Cell(e.key, e.value, e.expire, e.bucketPos)])
    {
      ProjectUpdate(elements.Contents(), buckets.Contents(), head, len, pos, e);
      elements.Put(pos, e);
    }

    method SetNext(pos: nat, x: nat)
      requires Shaped() && pos < size
      modifies elements.backing
      ensures Elsewhere() == old(Elsewhere())
      ensures var s := old(St()); St() == s.(time := s.time.(next := s.time.next[pos := x]))
    {
      PutElement(pos, elements.At(pos).(next := x));
    }

    method SetPrev(pos: nat, x: nat)
      requires Shaped() && pos < size
      modifies elements.backing
      ensures Elsewhere() == old(Elsewhere())
      ensures var s := old(St()); St() == s.(time := s.time.(prev := s.time.prev[pos := x]))
    {
      PutElement(pos, elements.At(pos).(prev := x));
    }

    method SetNextBucket(pos: nat, x: nat)
      requires Shaped() && pos < size
      modifies elements.backing
      ensures Elsewhere() == old(Elsewhere())
      ensures var s := old(St()); St() == s.(bucket := s.bucket.(next := s.bucket.next[pos := x]))
    {
      PutElement(pos, elements.At(pos).(nextBucket := x));
    }

    method SetPrevBucket(pos: nat, x: nat)
      requires Shaped() && pos < size
      modifies elements.backing
      ensures Elsewhere() == old(Elsewhere())
      ensures var s := old(St()); St() == s.(bucket := s.bucket.(prev := s.bucket.prev[pos := x]))
    {
      PutElement(pos, elements.At(pos).(prevBucket := x));
    }

    method SetCell(pos: nat, key: K, value: V, expire: int, bucketPos: nat)
      requires Shaped() && pos < size
      modifies elements.backing
      ensures Elsewhere() == old(Elsewhere())
      ensures var s := old(St()); St() == s.(cells := s.cells[pos := Cell(key, value, expire, bucketPos)])
    {
      PutElement(pos, elements.At(pos).(key := key, value := value, expire := expire, bucketPos := bucketPos));
    }

    method SetBucketPos(pos: nat, b: nat)
      requires Shaped() && pos < size
      modifies elements.backing
      ensures Elsewhere() == old(Elsewhere())
      ensures var s := old(St()); St() == s.(cells := s.cells[pos := s.cells[pos].(bucketPos := b)])
    {
      PutElement(pos, elements.At(pos).(bucketPos := b));
    }

    method SetBucket(b: nat, pos: nat)
      requires Shaped() && b < size
      modifies buckets.backing
      ensures Elsewhere() == old(Elsewhere())
      ensures var s := old(St()); St() == s.(buckets := s.buckets[b := pos])
    {
      buckets.Put(b, pos);
    }
  
    // ---- Linking steps -----------------------------------------------------------------

    method SetHead(pos: nat)
      requires Ready() && pos < size && pos != head
      modifies this`head, elements.backing
      ensures Elsewhere() == old(Elsewhere())
      ensures Ready() && St() == LruState.SetHead(old(St()), size, pos)
    {
      SetHeadSound(St(), size, pos);
      SetPrev(pos, head);
      SetNext(pos, Next(head));
      SetPrev(Next(head), pos);
      SetNext(head, pos);
      head := pos;
    }

    method UnlinkElement(pos: nat)
      requires Ready() && pos < size
      modifies elements.backing
      ensures Elsewhere() == old(Elsewhere())
      ensures Ready() && St() == LruState.UnlinkElement(old(St()), size, pos)
    {
      UnlinkSound(St(), size, pos);
      SetNext(Prev(pos), Next(pos));
      SetPrev(Next(pos), Prev(pos));
    }

    method UnlinkBucket(pos: nat)
      requires Ready() && pos < size
      modifies elements.backing, buckets.backing
      ensures Elsewhere() == old(Elsewhere())
      ensures Ready() && St() == LruState.UnlinkBucket(old(St()), size, pos)
    {
      UnlinkSound(St(), size, pos);
      var prevBucket, nextBucket := PrevBucket(pos), NextBucket(pos);
      if prevBucket == nextBucket && prevBucket == pos {
        SetBucket(PositionOf(pos), EMPTY_BUCKET);
        return;
      }
      SetNextBucket(prevBucket, nextBucket);
      SetPrevBucket(nextBucket, prevBucket);
      SetBucket(PositionOf(pos), nextBucket);
    }

    method Evict(pos: nat)
      requires Ready() && pos < size && len > 0
      modifies this`head, this`len, elements.backing, buckets.backing
      ensures Elsewhere() == old(Elsewhere())
      ensures Ready() && St() == LruState.Evict(old(St()), size, pos)
    {
      EvictSound(St(), size, pos);
      if pos == head {
        head := Prev(pos);
      }
      UnlinkElement(pos);
      UnlinkBucket(pos);
      len := len - 1;
    }

    method Move(to: nat, from: nat)
      requires Ready() && to < size && from < size
      modifies this`head, elements.backing, buckets.backing
      ensures Elsewhere() == old(Elsewhere())
      ensures Ready() && St() == LruState.Move(old(St()), size, to, from)
    {
      MoveSound(St(), size, to, from);
      if to == from {
        return;
      }
      if from == head {
        head := to;
      }
      var prev, next := Prev(from), Next(from);
      SetNext(prev, to);
      SetPrev(next, to);

      prev, next := PrevBucket(from), NextBucket(from);
      SetNextBucket(prev, to);
      SetPrevBucket(next, to);

      PutElement(to, elements.At(from));

      if FirstOf(PositionOf(to)) == from {
        SetBucket(PositionOf(to), to);
      }
    }

    method Insert(pos: nat, key: K, value: V, lifetime: nat, now: nat)
      requires Ready() && pos < size
      modifies this`head, this`len, elements.backing
      ensures Elsewhere() == old(Elsewhere())
      ensures St() == LruState.Insert(old(St()), size, pos, Entry(key, value, Deadline(lifetime, now)))
    {
      SetCell(pos, key, value, Deadline(lifetime, now), PositionOf(pos));
      if len == 0 {
        SetPrev(pos, pos);
        SetNext(pos, pos);
        head := pos;
      } else if pos != head {
        SetHead(pos);
      }
      len := len + 1;
    }
  
    /** The writes that make pos the only element of a bucket. */
    method StartBucket(bucketPos: nat, pos: nat)
      requires Ready() && bucketPos < size && pos < size
      modifies elements.backing, buckets.backing
      ensures Elsewhere() == old(Elsewhere())
      ensures Ready() && St() == LruState.StartBucket(old(St()), size, bucketPos, pos)
    {
      LinkBucketSound(St(), size, bucketPos, pos, pos);
      SetBucket(bucketPos, pos);
      SetBucketPos(pos, bucketPos);

      SetNextBucket(pos, pos);
      SetPrevBucket(pos, pos);
    }

    /** The writes that put pos in front of startPos in a bucket. */
    method LinkBucket(bucketPos: nat, pos: nat, startPos: nat)
      requires Ready() && bucketPos < size && pos < size && startPos < size
      modifies elements.backing, buckets.backing
      ensures Elsewhere() == old(Elsewhere())
      ensures Ready() && St() == LruState.LinkBucket(old(St()), size, bucketPos, pos, startPos)
    {
      LinkBucketSound(St(), size, bucketPos, pos, startPos);
      SetBucket(bucketPos, pos);
      SetBucketPos(pos, bucketPos);

      SetNextBucket(pos, startPos);
      SetPrevBucket(pos, PrevBucket(startPos));
      SetNextBucket(PrevBucket(startPos), pos);
      SetPrevBucket(startPos, pos);
    }

    // ---- Operations ----------------------------------------------------------------------

    /** Relinks a linked element as the newest one. */
    method MakeNewest(pos: nat)
      requires Ready() && pos < size
      modifies this`head, elements.backing
      ensures Elsewhere() == old(Elsewhere())
      ensures St() == Touch(old(St()), size, pos)
    {
      if pos != head {
        UnlinkElement(pos);
        SetHead(pos);
      }
    }

    /** Overwrites value and deadline of a key that is present and makes it the newest. */
    method Update(pos: nat, key: K, value: V, lifetime: nat, now: nat)
      requires Valid() && pos in order && pos < size && St().cells[pos].key == key
      modifies this, elements.backing
      ensures Elsewhere() == old(Elsewhere())
      ensures Valid() && (Contents(), false) == Put(old(Contents()), cap, Entry(key, value, Deadline(lifetime, now)))
    {
      ghost var e := Entry(key, value, Deadline(lifetime, now));
      ghost var order' := UpdateIsPut(St(), size, order, chains, BucketOf(), cap, pos, e);
      SetCell(pos, key, value, Deadline(lifetime, now), PositionOf(pos));
      MakeNewest(pos);
      order := order';
    }

    /** The end of an add that found no element for its key. */
    method AddNew(bucketPos: nat, startPos: nat, key: K, value: V, lifetime: nat, now: nat) returns (evicted: bool)
      requires Valid() && bucketPos == BucketOf()(key) < size && startPos == St().buckets[bucketPos]
      requires !Has(Contents(), key)
      requires forall p :: p in order ==> p < size && St().cells[p].key != key
      modifies this, elements.backing, buckets.backing
      ensures Elsewhere() == old(Elsewhere())
      ensures Valid() && (Contents(), evicted) == Put(old(Contents()), cap, Entry(key, value, Deadline(lifetime, now)))
    {
      var pos, start := len, startPos;
      evicted := pos == cap;
      AppendSlot(order);
      if pos == cap {
        pos := FreeOldest();
        if start != EMPTY_BUCKET {
          start := FirstOf(bucketPos);
          if start == EMPTY_BUCKET {
            start := pos;
          }
        }
      }
      Place(bucketPos, pos, start, key, value, lifetime, now);
    }

    /** Evicts the oldest element; its slot is free and its links are stale. */
    method FreeOldest() returns (pos: nat)
      requires Valid() && order != []
      modifies this, elements.backing, buckets.backing
      ensures Elsewhere() == old(Elsewhere())
      ensures Linked(St(), size, order, chains, BucketOf())
      ensures pos == old(order)[0] < size && order == old(order)[1..] && St().cells == old(St().cells)
      ensures ListOf(St().cells, order) == old(Contents())[1..]
      ensures pos !in order && Dense(order + [pos])
      ensures forall b :: 0 <= b < size && old(chains)[b] == [] ==> chains[b] == []
      ensures forall b :: 0 <= b < size && chains[b] == [] && old(chains)[b] != [] ==> St().bucket.prev[pos] == pos
    {
      ghost var chains1 := EvictOldest(St(), size, order, chains, BucketOf());
      pos := Next(head);
      Evict(pos);
      order, chains := order[1..], chains1;
    }

    /** Links a free slot into its bucket; start is the bucket's first element, or, after the eviction
        of the bucket's only element, the slot itself with its stale self reference. */
    method AttachSlot(bucketPos: nat, pos: nat, start: nat, ghost chain: seq<nat>)
      requires Ready() && bucketPos < size && pos < size && IsRing(St().bucket, chain) && pos !in chain
      requires if chain == [] then start == EMPTY_BUCKET || (start == pos && St().bucket.prev[pos] == pos)
               else start == chain[0]
      modifies elements.backing, buckets.backing
      ensures Elsewhere() == old(Elsewhere())
      ensures Ready() && St() == Attach(old(St()), size, bucketPos, pos, chain)
    {
      LinkBucketRing(St(), size, bucketPos, pos, chain);
      if start == EMPTY_BUCKET {
        StartBucket(bucketPos, pos);
      } else {
        LinkBucket(bucketPos, pos, start);
      }
    }

    method AttachAndInsert(bucketPos: nat, pos: nat, start: nat, ghost chain: seq<nat>,
                           key: K, value: V, lifetime: nat, now: nat)
      requires Ready() && bucketPos < size && pos < size && IsRing(St().bucket, chain) && pos !in chain
      requires if chain == [] then start == EMPTY_BUCKET || (start == pos && St().bucket.prev[pos] == pos)
               else start == chain[0]
      modifies this`head, this`len, elements.backing, buckets.backing
      ensures Elsewhere() == old(Elsewhere())
      ensures old(Sound(Attach(St(), size, bucketPos, pos, chain), size))
      ensures St() == LruState.Insert(old(Attach(St(), size, bucketPos, pos, chain)), size, pos,
                                      Entry(key, value, Deadline(lifetime, now)))
    {
      AttachSlot(bucketPos, pos, start, chain);
      Insert(pos, key, value, lifetime, now);
    }

    /** Links and fills a free slot. */
    method Place(bucketPos: nat, pos: nat, start: nat, key: K, value: V, lifetime: nat, now: nat)
      requires Shaped() && Linked(St(), size, order, chains, BucketOf())
      requires bucketPos == BucketOf()(key) < size && pos < size && pos !in order
      requires forall p :: p in order ==> p < size && St().cells[p].key != key
      requires if chains[bucketPos] == [] then start == EMPTY_BUCKET || (start == pos && St().bucket.prev[pos] == pos)
               else start == chains[bucketPos][0]
      modifies this, elements.backing, buckets.backing
      ensures Elsewhere() == old(Elsewhere())
      ensures order == old(order) + [pos]
      ensures Linked(St(), size, order, chains, BucketOf())
      ensures ListOf(St().cells, order) ==
              ListOf(old(St().cells), old(order)) + [Entry(key, value, Deadline(lifetime, now))]
    {
      InsertLinked(St(), size, order, chains, BucketOf(), pos, Entry(key, value, Deadline(lifetime, now)));
      AttachAndInsert(bucketPos, pos, start, chains[bucketPos], key, value, lifetime, now);
      order, chains := order + [pos], chains[bucketPos := [pos] + chains[bucketPos]];
    }
  
    /** addWithLifetime with hash(key): the cache becomes what Put makes of the list. */
    method AddWithLifetime(key: K, value: V, lifetime: nat, now: nat) returns (evicted: bool)
      requires Valid()
      modifies this, elements.backing, buckets.backing
      ensures Elsewhere() == old(Elsewhere())
      ensures Valid() && (Contents(), evicted) == Put(old(Contents()), cap, Entry(key, value, Deadline(lifetime, now)))
    {
      BucketPosInRange(hash(key), size);
      var bucketPos := BucketPos(hash(key), size, mask);
      var startPos := FirstOf(bucketPos);
      if startPos == EMPTY_BUCKET {
        AbsentFromBucket(St(), size, order, chains, BucketOf(), key);
        evicted := AddNew(bucketPos, startPos, key, value, lifetime, now);
        return;
      }

      var pos := startPos;
      ghost var c, m := chains[bucketPos], 0;
      while true
        invariant 0 <= m < |c| && pos == c[m]
        invariant forall i :: 0 <= i < m ==> St().cells[c[i]].key != key
        decreases |c| - m
      {
        assert pos in c;
        if elements.At(pos).key == key {
          Update(pos, key, value, lifetime, now);
          return false;
        }
        pos := NextBucket(pos);
        assert pos == After(c, m);
        if pos == startPos {
          assert m == |c| - 1;
          break;
        }
        m := m + 1;
      }
      AbsentFromBucket(St(), size, order, chains, BucketOf(), key);
      evicted := AddNew(bucketPos, startPos, key, value, lifetime, now);
    }

    method ClearKeyAndValue(pos: nat)
      requires Shaped() && pos < size
      modifies elements.backing
      ensures Elsewhere() == old(Elsewhere())
      ensures var s := old(St());
              St() == s.(cells := s.cells[pos := s.cells[pos].(key := emptyKey, value := emptyValue)])
    {
      PutElement(pos, elements.At(pos).(key := emptyKey, value := emptyValue));
    }

    /** Evicts an element and closes the gap. */
    method EvictAndMove(pos: nat)
      requires Ready() && pos < size && 0 < len <= size
      modifies this`head, this`len, elements.backing, buckets.backing
      ensures Elsewhere() == old(Elsewhere())
      ensures St() == TakeOut(old(St()), size, pos)
    {
      Evict(pos);
      Move(pos, len);
    }

    /** Takes an element out of the list. */
    method Delete(pos: nat)
      requires Valid() && pos in order && pos < size
      modifies this, elements.backing, buckets.backing
      ensures Elsewhere() == old(Elsewhere())
      ensures Valid() && len < size && Contents() == Drop(old(Contents()), old(St().cells[pos].key))
    {
      ghost var order', chains' := RemoveIsDrop(St(), size, order, chains, BucketOf(), pos);
      EvictAndMove(pos);
      order, chains := order', chains';
    }

    method RemoveAt(pos: nat)
      requires Valid() && pos in order && pos < size
      modifies this, elements.backing, buckets.backing
      ensures Elsewhere() == old(Elsewhere())
      ensures Valid() && Contents() == Drop(old(Contents()), old(St().cells[pos].key))
    {
      Delete(pos);
      ghost var s := St();
      AppendSlot(order);
      ClearKeyAndValue(len);
      ClearFree(s, St(), size, order, chains, BucketOf(), len);
    }

    /** The walk of findKey around the ring of the key's bucket. */
    method SearchBucket(key: K) returns (pos: nat, found: bool)
      requires Valid()
      ensures if found then pos in order && pos < size && St().cells[pos].key == key
              else pos == EMPTY_BUCKET && !Has(Contents(), key)
    {
      BucketPosInRange(hash(key), size);
      var startPos := FirstOf(BucketPos(hash(key), size, mask));
      if startPos == EMPTY_BUCKET {
        AbsentFromBucket(St(), size, order, chains, BucketOf(), key);
        return EMPTY_BUCKET, false;
      }

      pos := startPos;
      ghost var c, m := chains[BucketOf()(key)], 0;
      while true
        invariant 0 <= m < |c| && pos == c[m]
        invariant forall i :: 0 <= i < m ==> St().cells[c[i]].key != key
        decreases |c| - m
      {
        assert pos in c;
        if elements.At(pos).key == key {
          return pos, true;
        }
        pos := NextBucket(pos);
        assert pos == After(c, m);
        if pos == startPos {
          assert m == |c| - 1;
          AbsentFromBucket(St(), size, order, chains, BucketOf(), key);
          return EMPTY_BUCKET, false;
        }
        m := m + 1;
      }
    }

    /** findKey with hash(key): an element that is not expired, or none; an expired one is removed. */
    method FindKey(key: K, now: nat) returns (pos: nat, ok: bool)
      requires Valid()
      modifies this, elements.backing, buckets.backing
      ensures Elsewhere() == old(Elsewhere())
      ensures Valid()
      ensures ok ==> unchanged(this) && St() == old(St()) && pos in order && pos < size &&
                     St().cells[pos].key == key && !Expired(St().cells[pos].expire, now)
      ensures !ok ==> pos == EMPTY_BUCKET && (Contents(), Miss) == Look(old(Contents()), key, now)
    {
      var found;
      pos, found := SearchBucket(key);
      if !found {
        return EMPTY_BUCKET, false;
      }
      ListAt(St(), size, order, chains, BucketOf(), pos);
      if elements.At(pos).expire != 0 && elements.At(pos).expire <= now {
        RemoveAt(pos);
        return EMPTY_BUCKET, false;
      }
      return pos, true;
    }

    /** Makes a found element the newest and reads its value. */
    method UseAt(pos: nat, ghost key: K, ghost now: nat) returns (r: Lookup<V>)
      requires Valid() && pos in order && pos < size
      requires St().cells[pos].key == key && !Expired(St().cells[pos].expire, now)
      modifies this, elements.backing
      ensures Elsewhere() == old(Elsewhere())
      ensures Valid() && (Contents(), r) == Look(old(Contents()), key, now)
    {
      ghost var order' := TouchIsLook(St(), size, order, chains, BucketOf(), pos, now);
      r := Hit(elements.At(pos).value);
      MakeNewest(pos);
      order := order';
    }

    /** get with hash(key): the cache and the answer are what Look makes of the list. */
    method Get(key: K, now: nat) returns (r: Lookup<V>)
      requires Valid()
      modifies this, elements.backing, buckets.backing
      ensures Elsewhere() == old(Elsewhere())
      ensures Valid() && (Contents(), r) == Look(old(Contents()), key, now)
    {
      var pos, ok := FindKey(key, now);
      if ok {
        r := UseAt(pos, key, now);
        return;
      }
      return Miss;
    }

    /** One operation of a run. */
    method Apply(op: Op<K, V>) returns (r: Lookup<V>)
      requires Valid()
      modifies this, elements.backing, buckets.backing
      ensures Valid() && Contents() == Step(old(Contents()), cap, op)
      ensures r == if op.Get? then Look(old(Contents()), op.key, op.now).1 else Miss
    {
      match op
      case Add(key, value, lifetime, now) =>
        var _ := AddWithLifetime(key, value, lifetime, now);
        r := Miss;
      case Get(key, now) =>
        r := this.Get(key, now);
    }

    /** A whole run: after any adds and gets the cache is the list that Run makes of them, and the answers
        are those of the list. */
    method Perform(ops: seq<Op<K, V>>) returns (answers: seq<Lookup<V>>)
      requires Valid()
      modifies this, elements.backing, buckets.backing
      ensures Valid() && Contents() == Run(old(Contents()), cap, ops)
      ensures answers == Answers(old(Contents()), cap, ops)
    {
      ghost var start := Contents();
      answers := [];
      assert ops[..0] == [];
      for i := 0 to |ops|
        invariant Valid() && Contents() == Run(start, cap, ops[..i]) && answers == Answers(start, cap, ops[..i])
      {
        assert ops[..i + 1][..i] == ops[..i];
        var r := Apply(ops[i]);
        answers := answers + [r];
      }
      assert ops[..|ops|] == ops;
    }
  }
}
