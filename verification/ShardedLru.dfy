/** internal/freelru/shardedlru.go: a power of two of LRUs over slices of two shared arrays,
    selected by the upper half of the hash. */
module ShardedLru {
  import opened Bits
  import opened Slices
  import opened Recency
  import opened LruState
  import opened Lru

  const MAX_SIZE: nat := 0x8000_0000

  datatype Plan = ZeroCapacity | SizeTooSmall | Plan(shards: nat, cap: nat, size: nat)

  /** The table size before it is divided among the shards. */
  function TableSize(size: uint32): nat {
    if size < MAX_SIZE then NextPowerOfTwo(size) else MAX_SIZE
  }

  lemma TableSizeFacts(size: uint32)
    requires size > 0
    ensures IsPow2(TableSize(size)) && TableSize(size) <= MAX_SIZE
    ensures size <= MAX_SIZE ==> size <= TableSize(size)
    ensures size >= MAX_SIZE ==> TableSize(size) == MAX_SIZE
  {
    TopPower();
    NextPowerOfTwoIsLeast(size);
  }

  lemma Sixteenth(x: nat)
    requires IsPow2(x)
    ensures IsPow2(x / 16) || x / 16 == 0
  {
    var k: nat :| Pow2(k) == x;
    if k >= 4 {
      assert Pow2(k) == 2 * Pow2(k - 1) && Pow2(k - 1) == 2 * Pow2(k - 2);
      assert Pow2(k - 2) == 2 * Pow2(k - 3) && Pow2(k - 3) == 2 * Pow2(k - 4);
      assert Pow2(k - 4) == x / 16;
    } else {
      assert Pow2(3) == 8;
      Pow2Order(3, k);
    }
  }

  lemma SmallPowerDivides(s: nat, x: nat)
    requires IsPow2(s) && IsPow2(x) && s <= x
    ensures s > 0 && x % s == 0 && IsPow2(x / s) && x / s * s == x
  {
    var j: nat :| Pow2(j) == s;
    var k: nat :| Pow2(k) == x;
    Pow2Of(j);
    Pow2Order(k, j);
    Pow2Split(j, k);
  }

  lemma {:induction false} Pow2Split(j: nat, k: nat)
    requires j <= k
    ensures Pow2(j) > 0 && Pow2(k) % Pow2(j) == 0 && Pow2(k) / Pow2(j) == Pow2(k - j)
    ensures Pow2(k - j) * Pow2(j) == Pow2(k)
    decreases k
  {
    Pow2Of(j);
    if j < k {
      Pow2Split(j, k - 1);
      var q, d := Pow2(k - 1 - j), Pow2(j);
      assert 2 * (q * d) == (2 * q) * d;
    }
    MultipleModulo(Pow2(k - j), Pow2(j));
  }

  lemma CeilDiv(x: nat, s: nat)
    requires s > 0
    ensures x <= s * ((x + s - 1) / s) < x + s
  {
    var q, r := (x + s - 1) / s, (x + s - 1) % s;
    assert x + s - 1 == q * s + r;
  }

  lemma CeilDivBound(x: nat, s: nat, n: nat)
    requires s > 0 && x <= n * s
    ensures (x + s - 1) / s <= n
  {
    var q := (x + s - 1) / s;
    CeilDiv(x, s);
    ScaledOrder(n + 1, q, s);
    assert (n + 1) * s == n * s + s;
  }

  /** The next power of two, divided by 16 until every shard has 16 slots or one shard is left. */
  method ShardCount(shardsWanted: uint32, size: nat) returns (shards: nat)
    requires IsPow2(size)
    ensures IsPow2(shards) && 0 < shards <= size
    ensures shards == 1 || shards <= size / 16
    ensures size % shards == 0 && IsPow2(size / shards) && size / shards * shards == size
  {
    NextPowerOfTwoIsLeast(shardsWanted);
    shards := NextPowerOfTwo(shardsWanted);
    while shards > size / 16
      invariant IsPow2(shards) || shards == 0
      decreases shards
    {
      if IsPow2(shards) {
        Sixteenth(shards);
      }
      shards := shards / 16;
    }
    Pow2Positive();
    if shards == 0 {
      shards := 1;
      assert Pow2(0) == 1;
    }
    SmallPowerDivides(shards, size);
  }

  lemma NonZeroFactor(a: nat, b: nat, x: nat)
    requires 0 < x <= b * a
    ensures a > 0
  {
  }

  lemma TooSmall(cap: nat, size: nat, shards: nat)
    ensures cap <= size ==> shards * cap <= size * shards
  {
    ScaledOrder(cap, size, shards);
  }

  /** The capacity of one shard, rounded up in uint32 arithmetic. */
  method ShardCapacity(capacity: uint32, shards: nat, size: nat) returns (cap: nat)
    requires capacity > 0 && 0 < shards <= MAX_SIZE && size * shards <= MAX_SIZE
    requires capacity <= size * shards || (size * shards == MAX_SIZE && capacity > MAX_SIZE)
    ensures cap > 0
    ensures cap <= size <==> capacity <= MAX_SIZE || Wraps(capacity, shards)
    ensures capacity <= MAX_SIZE ==> capacity <= shards * cap < capacity + shards
    ensures Wraps(capacity, shards) ==> cap == 1
  {
    var sum := (capacity + shards - 1) % TWO32;
    cap := sum / shards;
    SumOf(capacity, shards);
    if Wraps(capacity, shards) {
      DivModUnique(sum, shards, 0, sum);
      NonZeroFactor(size, shards, size * shards);
    } else {
      RoundedUp(capacity, shards, size);
    }
    if cap == 0 {
      cap := 1;
    }
  }

  lemma RoundedUp(capacity: nat, shards: nat, size: nat)
    requires capacity > 0 && 0 < shards && size * shards <= MAX_SIZE
    requires capacity <= size * shards || (size * shards == MAX_SIZE && capacity > MAX_SIZE)
    ensures var cap := (capacity + shards - 1) / shards;
            0 < cap && capacity <= shards * cap < capacity + shards && (cap <= size <==> capacity <= MAX_SIZE)
  {
    var cap := (capacity + shards - 1) / shards;
    CeilDiv(capacity, shards);
    NonZeroFactor(cap, shards, capacity);
    if capacity <= MAX_SIZE {
      CeilDivBound(capacity, shards, size);
    } else {
      TooSmall(cap, size, shards);
    }
  }

  /** The sum that rounds the capacity up does not fit 32 bits. */
  predicate Wraps(capacity: uint32, shards: nat) {
    capacity + shards > TWO32
  }

  lemma SumOf(capacity: uint32, shards: nat)
    requires capacity > 0 && 0 < shards <= MAX_SIZE
    ensures (capacity + shards - 1) % TWO32 ==
            if Wraps(capacity, shards) then capacity + shards - 1 - TWO32 else capacity + shards - 1
  {
  }

  lemma SixteenSlots(size: nat, shards: nat, total: nat)
    requires shards > 0 && shards <= total / 16 && size * shards == total
    ensures size >= 16
  {
    ScaledOrder(size + 1, 16, shards);
    assert (size + 1) * shards == total + shards;
  }

  /** The sizes chosen by NewShardedWithSize, in uint32 arithmetic. The capacity asked for is
      available and fits the shards exactly when it is at most 2^31; above, the shards get a capacity larger
      than their size, or, if the rounding wraps, of 1. */
  method ChooseSizes(shardsWanted: uint32, capacity: uint32, sizeWanted: uint32) returns (r: Plan)
    ensures capacity == 0 <==> r.ZeroCapacity?
    ensures capacity > 0 && sizeWanted < capacity <==> r.SizeTooSmall?
    ensures r.Plan? ==>
              && IsPow2(r.shards) && IsPow2(r.size) && 0 < r.shards && 0 < r.cap
              && r.shards * r.size == TableSize(sizeWanted) <= MAX_SIZE
              && (r.shards == 1 || r.size >= 16)
              && (r.cap <= r.size <==> capacity <= MAX_SIZE || Wraps(capacity, r.shards))
              && (capacity <= MAX_SIZE ==> capacity <= r.shards * r.cap < capacity + r.shards)
              && (Wraps(capacity, r.shards) ==> r.cap == 1)
              && (capacity <= MAX_SIZE <==> r.cap <= r.size && capacity <= r.shards * r.cap)
  {
    if capacity == 0 {
      return ZeroCapacity;
    }
    if sizeWanted < capacity {
      return SizeTooSmall;
    }
    TableSizeFacts(sizeWanted);
    var size := if sizeWanted < MAX_SIZE then NextPowerOfTwo(sizeWanted) else MAX_SIZE;
    var shards := ShardCount(shardsWanted, size);
    ghost var total := size;

    size := size / shards;
    assert size > 0;
    if size == 0 {
      size := 1;
    }
    if shards != 1 {
      SixteenSlots(size, shards, total);
    }
    var cap := ShardCapacity(capacity, shards, size);
    TooSmall(cap, size, shards);
    r := Plan(shards, cap, size);
  }

  /** The upper half of the hash, masked. */
  function ShardOf(hash: uint32, mask: nat): nat {
    And(hash / 0x1_0000, mask)
  }

  lemma ShardInRange(hash: uint32, shards: nat)
    requires shards > 0
    ensures ShardOf(hash, shards - 1) < shards
    ensures IsPow2(shards) ==> ShardOf(hash, shards - 1) == hash / 0x1_0000 % shards
  {
    AndBound(hash / 0x1_0000, shards - 1);
    if IsPow2(shards) {
      var k: nat :| Pow2(k) == shards;
      MaskIsModulo(hash / 0x1_0000, k);
    }
  }

  // ---- The sharded cache as a list of recency lists ------------------------------------------

  type Lists<K, V> = seq<seq<Entry<K, V>>>

  function StepShard<K(==), V>(lists: Lists<K, V>, cap: nat, shardOf: K -> nat, op: Op<K, V>): Lists<K, V>
    requires cap > 0 && shardOf(op.key) < |lists|
  {
    lists[shardOf(op.key) := Step(lists[shardOf(op.key)], cap, op)]
  }

  function RunShards<K(==), V>(n: nat, cap: nat, shardOf: K -> nat, ops: seq<Op<K, V>>): (lists: Lists<K, V>)
    requires cap > 0 && forall i :: 0 <= i < |ops| ==> shardOf(ops[i].key) < n
    ensures |lists| == n
  {
    if ops == [] then seq(n, _ => [])
    else StepShard(RunShards(n, cap, shardOf, ops[..|ops| - 1]), cap, shardOf, ops[|ops| - 1])
  }

  function OpsOf<K, V>(ops: seq<Op<K, V>>, shardOf: K -> nat, i: nat): seq<Op<K, V>> {
    if ops == [] then []
    else
      var rest := OpsOf(ops[..|ops| - 1], shardOf, i);
      if shardOf(ops[|ops| - 1].key) == i then rest + [ops[|ops| - 1]] else rest
  }

  /** Isolation over whole runs: a shard is exactly the LRU that sees only its own operations. */
  lemma {:induction false} ShardRunsAlone<K, V>(n: nat, cap: nat, shardOf: K -> nat, ops: seq<Op<K, V>>, i: nat)
    requires cap > 0 && i < n && forall j :: 0 <= j < |ops| ==> shardOf(ops[j].key) < n
    ensures RunShards(n, cap, shardOf, ops)[i] == Run([], cap, OpsOf(ops, shardOf, i))
  {
    if ops != [] {
      var init, op := ops[..|ops| - 1], ops[|ops| - 1];
      ShardRunsAlone(n, cap, shardOf, init, i);
      if shardOf(op.key) == i {
        var mine := OpsOf(init, shardOf, i);
        assert (mine + [op])[..|mine|] == mine;
      }
    }
  }

  /** The answers of a run: every get is answered by the shard of its key. */
  function ShardAnswers<K(==), V>(n: nat, cap: nat, shardOf: K -> nat, ops: seq<Op<K, V>>): (answers: seq<Lookup<V>>)
    requires cap > 0 && forall i :: 0 <= i < |ops| ==> shardOf(ops[i].key) < n
    ensures |answers| == |ops|
  {
    if ops == [] then []
    else
      var init, op := ops[..|ops| - 1], ops[|ops| - 1];
      ShardAnswers(n, cap, shardOf, init) +
      [if op.Get? then Look(RunShards(n, cap, shardOf, init)[shardOf(op.key)], op.key, op.now).1 else Miss]
  }

  lemma {:induction false} ShardAnswersAt<K, V>(n: nat, cap: nat, shardOf: K -> nat, ops: seq<Op<K, V>>, i: nat)
    requires cap > 0 && i < |ops| && forall j :: 0 <= j < |ops| ==> shardOf(ops[j].key) < n
    ensures ShardAnswers(n, cap, shardOf, ops)[i] ==
            if ops[i].Get? then
              Look(RunShards(n, cap, shardOf, ops[..i])[shardOf(ops[i].key)], ops[i].key, ops[i].now).1
            else Miss
  {
    var init := ops[..|ops| - 1];
    if i < |init| {
      ShardAnswersAt(n, cap, shardOf, init, i);
      assert init[..i] == ops[..i];
    }
  }

  /** The latest add of a key is among the operations of its shard. */
  lemma {:induction false} LatestAddOfShard<K, V>(ops: seq<Op<K, V>>, shardOf: K -> nat, key: K)
    ensures LatestAdd(OpsOf(ops, shardOf, shardOf(key)), key) == LatestAdd(ops, key)
  {
    if ops != [] {
      var init, op := ops[..|ops| - 1], ops[|ops| - 1];
      LatestAddOfShard(init, shardOf, key);
      var mine := OpsOf(init, shardOf, shardOf(key));
      assert (mine + [op])[..|mine|] == mine;
    }
  }

  /** Every hit in a run of a sharded cache that starts empty is the value of the key's latest Add before it,
      in time. */
  lemma ShardAnswersAreLatestAdds<K, V>(n: nat, cap: nat, shardOf: K -> nat, ops: seq<Op<K, V>>, i: nat)
    requires cap > 0 && i < |ops| && forall j :: 0 <= j < |ops| ==> shardOf(ops[j].key) < n
    requires ShardAnswers(n, cap, shardOf, ops)[i].Hit?
    ensures LatestAdd(ops[..i], ops[i].key).Hit?
    ensures var e := LatestAdd(ops[..i], ops[i].key).value;
            ShardAnswers(n, cap, shardOf, ops)[i] == Hit(e.value) && (e.expire == 0 || ops[i].now < e.expire)
  {
    var shard := shardOf(ops[i].key);
    ShardAnswersAt(n, cap, shardOf, ops, i);
    ShardRunsAlone(n, cap, shardOf, ops[..i], shard);
    LatestAddOfShard(ops[..i], shardOf, ops[i].key);
    HitIsLatestAdd(cap, OpsOf(ops[..i], shardOf, shard), ops[i].key, ops[i].now);
  }

  /** An entry never leaves the shard of its key. */
  ghost predicate Placed<K, V>(lists: Lists<K, V>, shardOf: K -> nat) {
    forall i, e :: 0 <= i < |lists| && e in lists[i] ==> shardOf(e.key) == i
  }

  lemma StepKeepsPlaced<K, V>(lists: Lists<K, V>, cap: nat, shardOf: K -> nat, op: Op<K, V>)
    requires cap > 0 && shardOf(op.key) < |lists| && Placed(lists, shardOf)
    requires WellFormed(lists[shardOf(op.key)], cap)
    ensures Placed(StepShard(lists, cap, shardOf, op), shardOf)
  {
    var i := shardOf(op.key);
    forall e | e in Step(lists[i], cap, op)
      ensures shardOf(e.key) == i
    {
      StepMembers(lists[i], cap, op, e);
    }
  }

  /** What lies outside the i-th of n stretches contains every other stretch. */
  lemma StretchKept<T>(before: seq<T>, after: seq<T>, size: nat, n: nat, i: nat, j: nat)
    requires i < n && j < n && i != j && |before| == |after| == size * n
    requires i * size + size <= size * n
    requires before[..i * size] == after[..i * size] && before[i * size + size..] == after[i * size + size..]
    ensures j * size + size <= size * n
    ensures before[j * size..j * size + size] == after[j * size..j * size + size]
  {
    var f, g := i * size, j * size;
    StretchesApart(size, n, i, j);
    DisjointWindows(before, after, f, size, g, size);
  }

  lemma StretchesFit(size: nat, n: nat, i: nat)
    requires i < n
    ensures i * size + size <= size * n
  {
    ScaledOrder(i + 1, n, size);
  }

  lemma StretchesApart(size: nat, n: nat, i: nat, j: nat)
    requires i < n && j < n && i != j
    ensures i * size + size <= size * n && j * size + size <= size * n
    ensures j * size + size <= i * size || i * size + size <= j * size
  {
    ScaledOrder(i + 1, j, size);
    ScaledOrder(j + 1, i, size);
    ScaledOrder(i + 1, n, size);
    ScaledOrder(j + 1, n, size);
  }

  // ---- The class ---------------------------------------------------------------------------

  class ShardedLRU<K(==), V> {
    const lrus: seq<LRU<K, V>>
    const hash: K -> uint32
    const shards: nat
    const mask: nat
    const cap: nat
    const size: nat
    const buckets: array<nat>
    const elements: array<Element<K, V>>

    constructor Assemble(lrus: seq<LRU<K, V>>, hash: K -> uint32, cap: nat, size: nat,
                         buckets: array<nat>, elements: array<Element<K, V>>)
      requires 0 < |lrus| && 0 < cap <= size < EMPTY_BUCKET && (buckets as object) != elements
      requires buckets.Length == elements.Length == size * |lrus|
      requires forall i, j :: 0 <= i < j < |lrus| ==> lrus[i] != lrus[j]
      requires forall i :: 0 <= i < |lrus| ==>
                 && lrus[i].buckets == Slice(buckets, i * size, size)
                 && lrus[i].elements == Slice(elements, i * size, size)
                 && lrus[i].hash == hash && lrus[i].cap == cap && lrus[i].size == size
      ensures Laid()
      ensures this.lrus == lrus && this.hash == hash && this.cap == cap && this.size == size
      ensures this.buckets == buckets && this.elements == elements
      ensures shards == |lrus| && mask == shards - 1
    {
      this.lrus, this.hash, this.cap, this.size := lrus, hash, cap, size;
      this.buckets, this.elements := buckets, elements;
      this.shards, this.mask := |lrus|, |lrus| - 1;
    }

    /** Shard i owns the i-th stretch of the two shared arrays. */
    ghost predicate Laid() {
      && 0 < shards == |lrus| && mask == shards - 1 && 0 < cap <= size < EMPTY_BUCKET
      && (buckets as object) != elements
      && buckets.Length == elements.Length == size * shards
      && (forall i, j :: 0 <= i < j < |lrus| ==> lrus[i] != lrus[j])
      && (forall i :: 0 <= i < |lrus| ==>
            && lrus[i].buckets == Slice(buckets, i * size, size)
            && lrus[i].elements == Slice(elements, i * size, size)
            && lrus[i].hash == hash && lrus[i].cap == cap && lrus[i].size == size)
    }

    ghost predicate Valid()
      reads lrus, buckets, elements
    {
      Laid() && forall i :: 0 <= i < |lrus| ==> lrus[i].Valid()
    }

    ghost function Contents(): Lists<K, V>
      requires Valid()
      reads lrus, buckets, elements
    {
      seq(|lrus|, i requires 0 <= i < |lrus| && lrus[i].Valid() reads lrus, buckets, elements => lrus[i].Contents())
    }

    function ShardOfKey(): K -> nat {
      (k: K) => ShardOf(hash(k), mask)
    }

    /** The state of shard j, read off the shared arrays. */
    ghost function StateIn(bs: seq<nat>, es: seq<Element<K, V>>, j: nat, head: nat, len: nat): State<K, V>
      requires |bs| == |es| == size * shards && j < shards
    {
      StretchesFit(size, shards, j);
      Project(es[j * size..j * size + size], bs[j * size..j * size + size], head, len)
    }

    ghost function OutsideOf(bs: seq<nat>, es: seq<Element<K, V>>, i: nat)
      : ((seq<nat>, seq<nat>), (seq<Element<K, V>>, seq<Element<K, V>>))
      requires |bs| == |es| == size * shards && i < shards
    {
      StretchesFit(size, shards, i);
      ((bs[..i * size], bs[i * size + size..]), (es[..i * size], es[i * size + size..]))
    }

    lemma ReadOff(j: nat)
      requires Laid() && j < shards
      ensures lrus[j].Shaped()
      ensures lrus[j].St() == StateIn(buckets[..], elements[..], j, lrus[j].head, lrus[j].len)
      ensures lrus[j].Elsewhere() == OutsideOf(buckets[..], elements[..], j)
    {
      StretchesFit(size, shards, j);
      var f, t := j * size, j * size + size;
      assert buckets[f..t] == buckets[..][f..t] && elements[f..t] == elements[..][f..t];
      assert buckets[..f] == buckets[..][..f] && buckets[t..] == buckets[..][t..];
      assert elements[..f] == elements[..][..f] && elements[t..] == elements[..][t..];
    }

    /** A write through shard i leaves the state of shard j as it was. */
    lemma OutsideKeepsState(bs: seq<nat>, es: seq<Element<K, V>>, bs': seq<nat>, es': seq<Element<K, V>>,
                            i: nat, j: nat, head: nat, len: nat)
      requires |bs| == |es| == |bs'| == |es'| == size * shards && i < shards && j < shards && i != j
      requires OutsideOf(bs, es, i) == OutsideOf(bs', es', i)
      ensures StateIn(bs, es, j, head, len) == StateIn(bs', es', j, head, len)
    {
      StretchesFit(size, shards, i);
      StretchKept(bs, bs', size, shards, i, j);
      StretchKept(es, es', size, shards, i, j);
    }

    /** After a step of shard i the other shards still are what they were before it. */
    lemma OthersKept(bs: seq<nat>, es: seq<Element<K, V>>, i: nat)
      requires Laid() && |bs| == |es| == size * shards && i < shards
      requires lrus[i].Shaped() ==> lrus[i].Elsewhere() == OutsideOf(bs, es, i)
      ensures forall j :: 0 <= j < shards && j != i ==>
                lrus[j].Shaped() && lrus[j].St() == StateIn(bs, es, j, lrus[j].head, lrus[j].len)
    {
      ReadOff(i);
      forall j | 0 <= j < shards && j != i
        ensures lrus[j].Shaped() && lrus[j].St() == StateIn(bs, es, j, lrus[j].head, lrus[j].len)
      {
        ReadOff(j);
        OutsideKeepsState(bs, es, buckets[..], elements[..], i, j, lrus[j].head, lrus[j].len);
      }
    }

    lemma AllReadOff()
      requires Laid()
      ensures forall j :: 0 <= j < shards ==>
                && lrus[j].Shaped() && lrus[j].Elsewhere() == OutsideOf(buckets[..], elements[..], j)
                && lrus[j].St() == StateIn(buckets[..], elements[..], j, lrus[j].head, lrus[j].len)
    {
      forall j | 0 <= j < shards
        ensures lrus[j].Shaped() && lrus[j].Elsewhere() == OutsideOf(buckets[..], elements[..], j)
        ensures lrus[j].St() == StateIn(buckets[..], elements[..], j, lrus[j].head, lrus[j].len)
      {
        ReadOff(j);
      }
    }

    method AddTo(shard: nat, key: K, value: V, lifetime: nat, now: nat) returns (evicted: bool)
      requires Valid() && shard < shards
      modifies lrus, buckets, elements
      ensures Valid()
      ensures (lrus[shard].Contents(), evicted) ==
              Put(old(lrus[shard].Contents()), cap, Entry(key, value, Deadline(lifetime, now)))
      ensures forall j :: 0 <= j < shards && j != shard ==> lrus[j].Contents() == old(lrus[j].Contents())
    {
      AllReadOff();
      ghost var bs, es := buckets[..], elements[..];
      evicted := lrus[shard].AddWithLifetime(key, value, lifetime, now);
      OthersKept(bs, es, shard);
    }

    method GetFrom(shard: nat, key: K, now: nat) returns (r: Lookup<V>)
      requires Valid() && shard < shards
      modifies lrus, buckets, elements
      ensures Valid()
      ensures (lrus[shard].Contents(), r) == Look(old(lrus[shard].Contents()), key, now)
      ensures forall j :: 0 <= j < shards && j != shard ==> lrus[j].Contents() == old(lrus[j].Contents())
    {
      AllReadOff();
      ghost var bs, es := buckets[..], elements[..];
      r := lrus[shard].Get(key, now);
      OthersKept(bs, es, shard);
    }

    /** Adding goes to the shard of the key and leaves every other shard's list alone. */
    method AddWithLifetime(key: K, value: V, lifetime: nat, now: nat) returns (evicted: bool)
      requires Valid()
      modifies lrus, buckets, elements
      ensures Valid()
      ensures ShardOfKey()(key) < |old(Contents())|
      ensures Contents() == StepShard(old(Contents()), cap, ShardOfKey(), Add(key, value, lifetime, now))
      ensures evicted == Put(old(Contents())[ShardOfKey()(key)], cap, Entry(key, value, Deadline(lifetime, now))).1
    {
      ShardInRange(hash(key), shards);
      evicted := AddTo(ShardOf(hash(key), mask), key, value, lifetime, now);
    }

    /** A lookup touches no shard but the key's. */
    method Get(key: K, now: nat) returns (r: Lookup<V>)
      requires Valid()
      modifies lrus, buckets, elements
      ensures Valid()
      ensures ShardOfKey()(key) < |old(Contents())|
      ensures Contents() == StepShard(old(Contents()), cap, ShardOfKey(), Op.Get(key, now))
      ensures r == Look(old(Contents())[ShardOfKey()(key)], key, now).1
    {
      ShardInRange(hash(key), shards);
      r := GetFrom(ShardOf(hash(key), mask), key, now);
    }

    /** Any operations select shards that exist. */
    lemma KeysInRange(ops: seq<Op<K, V>>)
      requires Laid()
      ensures forall i :: 0 <= i < |ops| ==> ShardOfKey()(ops[i].key) < shards
    {
      forall i | 0 <= i < |ops| ensures ShardOfKey()(ops[i].key) < shards {
        ShardInRange(hash(ops[i].key), shards);
      }
    }

    /** One operation of a run. */
    method Apply(op: Op<K, V>) returns (r: Lookup<V>)
      requires Valid()
      modifies lrus, buckets, elements
      ensures Valid()
      ensures ShardOfKey()(op.key) < |old(Contents())|
      ensures Contents() == StepShard(old(Contents()), cap, ShardOfKey(), op)
      ensures r == if op.Get? then Look(old(Contents())[ShardOfKey()(op.key)], op.key, op.now).1 else Miss
    {
      match op
      case Add(key, value, lifetime, now) =>
        var _ := AddWithLifetime(key, value, lifetime, now);
        r := Miss;
      case Get(key, now) =>
        r := this.Get(key, now);
    }

    /** A whole run on an empty cache: every shard is the LRU that has seen its own operations only, and the
        answers are those of the shards. */
    method Perform(ops: seq<Op<K, V>>) returns (answers: seq<Lookup<V>>)
      requires Valid() && Contents() == seq(shards, _ => [])
      modifies lrus, buckets, elements
      ensures Valid() && forall i :: 0 <= i < shards ==> lrus[i].Contents() == Run([], cap, OpsOf(ops, ShardOfKey(), i))
      ensures forall i :: 0 <= i < |ops| ==> ShardOfKey()(ops[i].key) < shards
      ensures answers == ShardAnswers(shards, cap, ShardOfKey(), ops)
    {
      KeysInRange(ops);
      assert ops[..0] == [];
      answers := [];
      for i := 0 to |ops|
        invariant Valid() && Contents() == RunShards(shards, cap, ShardOfKey(), ops[..i])
        invariant answers == ShardAnswers(shards, cap, ShardOfKey(), ops[..i])
      {
        assert ops[..i + 1][..i] == ops[..i];
        var r := Apply(ops[i]);
        answers := answers + [r];
      }
      assert ops[..|ops|] == ops;
      forall i | 0 <= i < shards ensures lrus[i].Contents() == Run([], cap, OpsOf(ops, ShardOfKey(), i)) {
        ShardRunsAlone(shards, cap, ShardOfKey(), ops, i);
        assert Contents()[i] == lrus[i].Contents();
      }
    }
  }

  /** The i-th shard, just carved. */
  ghost predicate Carved<K, V>(lru: LRU<K, V>, i: nat, cap: nat, size: nat, hash: K -> uint32, buckets: array<nat>,
                               elements: array<Element<K, V>>, emptyKey: K, emptyValue: V)
    reads lru
  {
    && lru.buckets == Slice(buckets, i * size, size) && lru.elements == Slice(elements, i * size, size)
    && lru.hash == hash && lru.cap == cap && lru.size == size && lru.mask == MaskFor(size)
    && lru.emptyKey == emptyKey && lru.emptyValue == emptyValue
    && lru.head == lru.len == 0 && lru.order == [] && lru.chains == NoChains(size)
  }

  lemma CarvedIsValid<K, V>(lru: LRU<K, V>, i: nat, shards: nat, cap: nat, size: nat, hash: K -> uint32,
                            buckets: array<nat>, elements: array<Element<K, V>>, emptyKey: K, emptyValue: V)
    requires Carved(lru, i, cap, size, hash, buckets, elements, emptyKey, emptyValue)
    requires i < shards && 0 < cap <= size < EMPTY_BUCKET && (buckets as object) != elements
    requires buckets.Length == elements.Length == size * shards
    requires forall p :: 0 <= p < elements.Length ==> elements[p] == Zero(emptyKey, emptyValue)
    requires forall p :: 0 <= p < buckets.Length ==> buckets[p] == EMPTY_BUCKET
    ensures lru.Valid() && lru.Contents() == []
  {
    StretchesFit(size, shards, i);
    forall p | 0 <= p < size
      ensures lru.elements.Contents()[p] == Zero(emptyKey, emptyValue) && lru.buckets.Contents()[p] == EMPTY_BUCKET
    {
      assert lru.elements.Contents()[p] == elements[i * size + p];
      assert lru.buckets.Contents()[p] == buckets[i * size + p];
    }
    lru.NewIsValid();
  }

  /** Carving the shards out of two arrays. */
  method CarveShards<K(==), V>(shards: nat, cap: nat, size: nat, hash: K -> uint32,
                               buckets: array<nat>, elements: array<Element<K, V>>, emptyKey: K, emptyValue: V)
    returns (lrus: seq<LRU<K, V>>)
    requires 0 < cap <= size < EMPTY_BUCKET && (buckets as object) != elements
    requires buckets.Length == elements.Length == size * shards
    requires forall p :: 0 <= p < elements.Length ==> elements[p] == Zero(emptyKey, emptyValue)
    modifies buckets
    ensures |lrus| == shards
    ensures forall i, j :: 0 <= i < j < |lrus| ==> lrus[i] != lrus[j]
    ensures forall i :: 0 <= i < shards ==>
              Carved(lrus[i], i, cap, size, hash, buckets, elements, emptyKey, emptyValue)
    ensures elements[..] == old(elements[..])
    ensures forall p :: 0 <= p < buckets.Length ==> buckets[p] == EMPTY_BUCKET
  {
    lrus := [];
    var from := 0;
    for i := 0 to shards
      invariant from == i * size && |lrus| == i
      invariant forall j, k :: 0 <= j < k < i ==> lrus[j] != lrus[k]
      invariant elements[..] == old(elements[..])
      invariant forall j :: 0 <= j < i ==>
                  fresh(lrus[j]) && Carved(lrus[j], j, cap, size, hash, buckets, elements, emptyKey, emptyValue)
      invariant forall p :: 0 <= p < from && p < buckets.Length ==> buckets[p] == EMPTY_BUCKET
    {
      StretchesFit(size, shards, i);
      var lru := CarveOne(i, shards, cap, size, hash, buckets, elements, emptyKey, emptyValue);
      lrus := lrus + [lru];
      from := from + size;
      assert from == (i + 1) * size;
    }
  }

  method CarveOne<K(==), V>(i: nat, shards: nat, cap: nat, size: nat, hash: K -> uint32,
                            buckets: array<nat>, elements: array<Element<K, V>>, emptyKey: K, emptyValue: V)
    returns (lru: LRU<K, V>)
    requires i < shards && 0 < cap <= size < EMPTY_BUCKET && (buckets as object) != elements
    requires buckets.Length == elements.Length == size * shards && i * size + size <= size * shards
    requires forall p :: 0 <= p < elements.Length ==> elements[p] == Zero(emptyKey, emptyValue)
    modifies buckets
    ensures fresh(lru) && Carved(lru, i, cap, size, hash, buckets, elements, emptyKey, emptyValue)
    ensures forall p :: 0 <= p < i * size ==> buckets[p] == old(buckets[p])
    ensures forall p :: i * size <= p < i * size + size ==> buckets[p] == EMPTY_BUCKET
  {
    var from := i * size;
    lru := new LRU<K, V>.Init(cap, size, hash, Slice(buckets, from, size), Slice(elements, from, size),
                              emptyKey, emptyValue);
    assert buckets[..from] == old(buckets[..from]);
    forall p | from <= p < from + size ensures buckets[p] == EMPTY_BUCKET {
      assert lru.buckets.Contents()[p - from] == buckets[p];
    }
  }

  /** Oversized stands for a cache whose shards may hold more entries than they have slots. */
  datatype Created<K(==), V> = Rejected(why: Plan) | Oversized(sizes: Plan) | Created(cache: ShardedLRU<K, V>)

  method Build<K(==), V>(shards: nat, cap: nat, size: nat, hash: K -> uint32, emptyKey: K, emptyValue: V)
    returns (c: ShardedLRU<K, V>)
    requires 0 < cap <= size < EMPTY_BUCKET && 0 < shards
    ensures c.Valid() && c.shards == shards && c.cap == cap && c.size == size && c.hash == hash
    ensures forall i :: 0 <= i < shards ==> c.lrus[i].Contents() == []
  {
    var buckets := new nat[size * shards](_ => 0);
    var elements := new Element<K, V>[size * shards](_ => Zero(emptyKey, emptyValue));
    var lrus := CarveShards(shards, cap, size, hash, buckets, elements, emptyKey, emptyValue);
    c := new ShardedLRU.Assemble(lrus, hash, cap, size, buckets, elements);
    forall i | 0 <= i < shards
      ensures c.lrus[i].Valid() && c.lrus[i].Contents() == []
    {
      CarvedIsValid(c.lrus[i], i, shards, cap, size, hash, buckets, elements, emptyKey, emptyValue);
    }
  }

  /** Empty shards whose joint capacity covers the one asked for, up to 2^31, and exceeds it by less than the
      number of shards. Above 2^31 the shards do not fit, unless the rounding wraps and leaves them one entry
      each. */
  method NewShardedWithSize<K(==), V>(shards: uint32, capacity: uint32, size: uint32, hash: K -> uint32,
                                      emptyKey: K, emptyValue: V)
    returns (r: Created<K, V>)
    ensures r.Rejected? <==> capacity == 0 || size < capacity
    ensures r.Oversized? ==>
              && r.sizes.Plan? && r.sizes.cap > r.sizes.size
              && capacity > MAX_SIZE && !Wraps(capacity, r.sizes.shards)
    ensures r.Created? ==>
              && var c := r.cache;
              && c.Valid() && IsPow2(c.shards) && IsPow2(c.size)
              && c.shards * c.size == TableSize(size)
              && (capacity <= MAX_SIZE ==> capacity <= c.shards * c.cap < capacity + c.shards)
              && (capacity > MAX_SIZE ==> Wraps(capacity, c.shards) && c.cap == 1)
              && forall i :: 0 <= i < c.shards ==> c.Contents()[i] == []
  {
    var p := ChooseSizes(shards, capacity, size);
    if !p.Plan? {
      return Rejected(p);
    }
    if p.cap > p.size {
      return Oversized(p);
    }
    ScaledOrder(1, p.shards, p.size);
    var c := Build(p.shards, p.cap, p.size, hash, emptyKey, emptyValue);
    r := Created(c);
  }
}
