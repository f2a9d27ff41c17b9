/** The recency list that internal/freelru/lru.go is meant to implement: entries with
    distinct keys, oldest first, at most cap of them. Times are Unix milliseconds,
    lifetimes are nanoseconds (Go's time.Duration). */
module Recency {
  import opened Collections

  datatype Entry<K, V> = Entry(key: K, value: V, expire: int)

  datatype Lookup<V> = Miss | Hit(value: V)

  datatype Op<K, V> =
    | Add(key: K, value: V, lifetime: nat, now: nat)
    | Get(key: K, now: nat)

  const NANOS_PER_MILLI: nat := 1_000_000

  /** Zero means that the entry never expires. */
  function Deadline(lifetime: nat, now: nat): int {
    if lifetime == 0 then 0 else now + lifetime / NANOS_PER_MILLI
  }

  predicate Expired(expire: int, now: nat) {
    expire != 0 && expire <= now
  }

  /** The list without its entry for key. */
  function Drop<K(==), V>(l: seq<Entry<K, V>>, key: K): seq<Entry<K, V>> {
    if l == [] then []
    else
      var rest := Drop(l[..|l| - 1], key);
      if l[|l| - 1].key == key then rest else rest + [l[|l| - 1]]
  }

  predicate Has<K(==), V>(l: seq<Entry<K, V>>, key: K) {
    exists i :: 0 <= i < |l| && l[i].key == key
  }

  function Find<K(==), V>(l: seq<Entry<K, V>>, key: K): (e: Entry<K, V>)
    requires Has(l, key)
    ensures e in l && e.key == key
  {
    if l[|l| - 1].key == key then l[|l| - 1] else Find(l[..|l| - 1], key)
  }

  /** The new list and whether the oldest entry had to go. */
  function Put<K(==), V>(l: seq<Entry<K, V>>, cap: nat, e: Entry<K, V>): (seq<Entry<K, V>>, bool)
    requires cap > 0
  {
    if Has(l, e.key) then (Drop(l, e.key) + [e], false)
    else if |l| == cap then (l[1..] + [e], true)
    else (l + [e], false)
  }

  function Look<K(==), V>(l: seq<Entry<K, V>>, key: K, now: nat): (seq<Entry<K, V>>, Lookup<V>) {
    if !Has(l, key) then (l, Miss)
    else
      var e := Find(l, key);
      if Expired(e.expire, now) then (Drop(l, key), Miss)
      else (Drop(l, key) + [e], Hit(e.value))
  }

  function Step<K(==), V>(l: seq<Entry<K, V>>, cap: nat, op: Op<K, V>): seq<Entry<K, V>>
    requires cap > 0
  {
    match op
    case Add(k, v, lifetime, now) => Put(l, cap, Entry(k, v, Deadline(lifetime, now))).0
    case Get(k, now) => Look(l, k, now).0
  }

  function Run<K(==), V>(l: seq<Entry<K, V>>, cap: nat, ops: seq<Op<K, V>>): seq<Entry<K, V>>
    requires cap > 0
  {
    if ops == [] then l
    else Step(Run(l, cap, ops[..|ops| - 1]), cap, ops[|ops| - 1])
  }

  /** What a run answers: the result of every get, a miss in the place of an add. */
  function Answers<K(==), V>(l: seq<Entry<K, V>>, cap: nat, ops: seq<Op<K, V>>): (answers: seq<Lookup<V>>)
    requires cap > 0
    ensures |answers| == |ops|
  {
    if ops == [] then []
    else
      var init, op := ops[..|ops| - 1], ops[|ops| - 1];
      Answers(l, cap, init) + [if op.Get? then Look(Run(l, cap, init), op.key, op.now).1 else Miss]
  }

  ghost predicate DistinctKeys<K, V>(l: seq<Entry<K, V>>) {
    forall i, j :: 0 <= i < j < |l| ==> l[i].key != l[j].key
  }

  ghost predicate WellFormed<K, V>(l: seq<Entry<K, V>>, cap: nat) {
    DistinctKeys(l) && |l| <= cap
  }

  // ---- Elementary facts -------------------------------------------------------------

  lemma {:induction false} DropAbsent<K, V>(l: seq<Entry<K, V>>, key: K)
    requires !Has(l, key)
    ensures Drop(l, key) == l
  {
    if l != [] {
      DropAbsent(l[..|l| - 1], key);
    }
  }

  /** Drop cuts out exactly one position. */
  lemma {:induction false} DropIsWithout<K, V>(l: seq<Entry<K, V>>, j: nat)
    requires DistinctKeys(l) && j < |l|
    ensures Drop(l, l[j].key) == l[..j] + l[j + 1..]
  {
    var init, last := l[..|l| - 1], l[|l| - 1];
    if j == |l| - 1 {
      DropAbsent(init, last.key);
      assert l[..j] + l[j + 1..] == init;
    } else {
      DropIsWithout(init, j);
      assert init[j] == l[j] && l[j].key != last.key;
      assert l[..j] + l[j + 1..] == init[..j] + init[j + 1..] + [last];
    }
  }

  lemma CutFacts<K, V>(l: seq<Entry<K, V>>, j: nat)
    requires DistinctKeys(l) && j < |l|
    ensures var d := l[..j] + l[j + 1..];
            && DistinctKeys(d) && !Has(d, l[j].key)
            && forall e :: e in d <==> e in l && e.key != l[j].key
  {
    var d := l[..j] + l[j + 1..];
    assert forall i :: 0 <= i < |d| ==> d[i] == l[if i < j then i else i + 1];
    forall e | e in l && e.key != l[j].key
      ensures e in d
    {
      var i :| 0 <= i < |l| && l[i] == e;
      assert if i < j then d[i] == e else d[i - 1] == e;
    }
  }

  lemma DropFacts<K, V>(l: seq<Entry<K, V>>, key: K)
    requires DistinctKeys(l)
    ensures DistinctKeys(Drop(l, key)) && !Has(Drop(l, key), key)
    ensures forall e :: e in Drop(l, key) <==> e in l && e.key != key
    ensures |Drop(l, key)| == if Has(l, key) then |l| - 1 else |l|
    ensures !Has(l, key) ==> Drop(l, key) == l
  {
    if Has(l, key) {
      var j :| 0 <= j < |l| && l[j].key == key;
      DropIsWithout(l, j);
      CutFacts(l, j);
    } else {
      DropAbsent(l, key);
    }
  }

  lemma FindIsUnique<K, V>(l: seq<Entry<K, V>>, j: nat)
    requires DistinctKeys(l) && j < |l|
    ensures Has(l, l[j].key) && Find(l, l[j].key) == l[j]
  {
    var e := Find(l, l[j].key);
    var i :| 0 <= i < |l| && l[i] == e;
    assert i == j;
  }

  lemma AppendKeepsDistinct<K, V>(l: seq<Entry<K, V>>, e: Entry<K, V>)
    requires DistinctKeys(l) && !Has(l, e.key)
    ensures DistinctKeys(l + [e])
  {
  }

  lemma PutKeepsWellFormed<K, V>(l: seq<Entry<K, V>>, cap: nat, e: Entry<K, V>)
    requires cap > 0 && WellFormed(l, cap)
    ensures WellFormed(Put(l, cap, e).0, cap)
  {
    DropFacts(l, e.key);
    if Has(l, e.key) {
      AppendKeepsDistinct(Drop(l, e.key), e);
    } else if |l| == cap {
      assert forall i :: 0 <= i < |l| - 1 ==> l[1..][i] == l[i + 1];
      AppendKeepsDistinct(l[1..], e);
    } else {
      AppendKeepsDistinct(l, e);
    }
  }

  lemma LookKeepsWellFormed<K, V>(l: seq<Entry<K, V>>, cap: nat, key: K, now: nat)
    requires WellFormed(l, cap)
    ensures WellFormed(Look(l, key, now).0, cap)
  {
    DropFacts(l, key);
    if Has(l, key) {
      AppendKeepsDistinct(Drop(l, key), Find(l, key));
    }
  }

  /** Every operation keeps the keys distinct and the capacity. */
  lemma StepKeepsWellFormed<K, V>(l: seq<Entry<K, V>>, cap: nat, op: Op<K, V>)
    requires cap > 0 && WellFormed(l, cap)
    ensures WellFormed(Step(l, cap, op), cap)
  {
    match op
    case Add(key, value, lifetime, now) => PutKeepsWellFormed(l, cap, Entry(key, value, Deadline(lifetime, now)));
    case Get(key, now) => LookKeepsWellFormed(l, cap, key, now);
  }

  lemma {:induction false} RunKeepsWellFormed<K, V>(l: seq<Entry<K, V>>, cap: nat, ops: seq<Op<K, V>>)
    requires cap > 0 && WellFormed(l, cap)
    ensures WellFormed(Run(l, cap, ops), cap)
  {
    if ops != [] {
      RunKeepsWellFormed(l, cap, ops[..|ops| - 1]);
      StepKeepsWellFormed(Run(l, cap, ops[..|ops| - 1]), cap, ops[|ops| - 1]);
    }
  }

  // ---- A hit returns the latest add, before its deadline -------------------------------

  /** The entry made by the latest Add of key, if there was one. */
  function LatestAdd<K(==), V>(ops: seq<Op<K, V>>, key: K): Lookup<Entry<K, V>> {
    if ops == [] then Miss
    else
      var op := ops[|ops| - 1];
      if op.Add? && op.key == key then Hit(Entry(key, op.value, Deadline(op.lifetime, op.now)))
      else LatestAdd(ops[..|ops| - 1], key)
  }

  lemma {:induction false} EntriesAreLatestAdds<K, V>(cap: nat, ops: seq<Op<K, V>>)
    requires cap > 0
    ensures WellFormed(Run([], cap, ops), cap)
    ensures forall e :: e in Run([], cap, ops) ==> LatestAdd(ops, e.key) == Hit(e)
  {
    RunKeepsWellFormed([], cap, ops);
    if ops != [] {
      var init, op := ops[..|ops| - 1], ops[|ops| - 1];
      EntriesAreLatestAdds(cap, init);
      forall e | e in Run([], cap, ops)
        ensures LatestAdd(ops, e.key) == Hit(e)
      {
        StepMembers(Run([], cap, init), cap, op, e);
      }
    }
  }

  function Added<K, V>(op: Op<K, V>): Entry<K, V>
    requires op.Add?
  {
    Entry(op.key, op.value, Deadline(op.lifetime, op.now))
  }

  lemma StepMembers<K, V>(l: seq<Entry<K, V>>, cap: nat, op: Op<K, V>, e: Entry<K, V>)
    requires cap > 0 && WellFormed(l, cap) && e in Step(l, cap, op)
    ensures if op.Add? && e.key == op.key then e == Added(op) else e in l
  {
    DropFacts(l, op.key);
    if op.Get? && Has(l, op.key) {
      var f := Find(l, op.key);
    } else if op.Add? && !Has(l, op.key) {
      assert e != Added(op) ==> e in l;
    }
  }

  /** Safety over whole runs: a hit carries the value of the key's latest Add and comes strictly
      before the deadline of that Add. */
  lemma HitIsLatestAdd<K, V>(cap: nat, ops: seq<Op<K, V>>, key: K, now: nat)
    requires cap > 0
    requires Look(Run([], cap, ops), key, now).1.Hit?
    ensures LatestAdd(ops, key).Hit?
    ensures var e := LatestAdd(ops, key).value;
            Look(Run([], cap, ops), key, now).1 == Hit(e.value) && (e.expire == 0 || now < e.expire)
  {
    EntriesAreLatestAdds(cap, ops);
    var e := Find(Run([], cap, ops), key);
  }

  // ---- A recently touched key stays ---------------------------------------------------

  lemma {:induction false} AnswersAt<K, V>(l: seq<Entry<K, V>>, cap: nat, ops: seq<Op<K, V>>, i: nat)
    requires cap > 0 && i < |ops|
    ensures Answers(l, cap, ops)[i] ==
            if ops[i].Get? then Look(Run(l, cap, ops[..i]), ops[i].key, ops[i].now).1 else Miss
  {
    var init := ops[..|ops| - 1];
    if i < |init| {
      AnswersAt(l, cap, init, i);
      assert init[..i] == ops[..i];
    }
  }

  /** Every hit in a run that starts empty is the value of the key's latest Add before it, in time. */
  lemma AnswersAreLatestAdds<K, V>(cap: nat, ops: seq<Op<K, V>>, i: nat)
    requires cap > 0 && i < |ops| && Answers([], cap, ops)[i].Hit?
    ensures LatestAdd(ops[..i], ops[i].key).Hit?
    ensures var e := LatestAdd(ops[..i], ops[i].key).value;
            Answers([], cap, ops)[i] == Hit(e.value) && (e.expire == 0 || ops[i].now < e.expire)
  {
    AnswersAt([], cap, ops, i);
    HitIsLatestAdd(cap, ops[..i], ops[i].key, ops[i].now);
  }

  /** An operation touches its key when it is an Add or a Get that hits. */
  predicate TouchesKey<K(==), V>(l: seq<Entry<K, V>>, op: Op<K, V>) {
    op.Add? || Look(l, op.key, op.now).1.Hit?
  }

  /** The keys touched by a run that starts from l, in time order. */
  function Touches<K(==), V>(l: seq<Entry<K, V>>, cap: nat, ops: seq<Op<K, V>>): seq<K>
    requires cap > 0
  {
    if ops == [] then []
    else
      var init, op := ops[..|ops| - 1], ops[|ops| - 1];
      Touches(l, cap, init) + if TouchesKey(Run(l, cap, init), op) then [op.key] else []
  }

  ghost function Elems<T>(s: seq<T>): set<T> {
    set x | x in s
  }

  ghost predicate Mentions<K, V>(ops: seq<Op<K, V>>, key: K) {
    exists i :: 0 <= i < |ops| && ops[i].key == key
  }

  ghost function ListKeys<K, V>(l: seq<Entry<K, V>>): set<K> {
    set e | e in l :: e.key
  }

  lemma {:induction false} DistinctKeysBound<K, V>(l: seq<Entry<K, V>>)
    requires DistinctKeys(l)
    ensures |ListKeys(l)| == |l|
  {
    if l != [] {
      var init, last := l[..|l| - 1], l[|l| - 1];
      assert l == init + [last];
      DistinctKeysBound(init);
      assert ListKeys(l) == ListKeys(init) + {last.key};
      assert forall i :: 0 <= i < |init| ==> init[i] == l[i];
      assert last.key !in ListKeys(init);
    }
  }

  /** e sits somewhere in l and everything newer has its key in touched. */
  ghost predicate OnlyTouchedAreNewer<K, V>(l: seq<Entry<K, V>>, e: Entry<K, V>, touched: set<K>) {
    exists i :: 0 <= i < |l| && l[i] == e && ListKeys(l[i + 1..]) <= touched
  }

  lemma {:induction false} RecentEntryStays<K, V>(l: seq<Entry<K, V>>, cap: nat, ops: seq<Op<K, V>>)
    requires cap > 0 && WellFormed(l, cap) && l != []
    requires !Mentions(ops, l[|l| - 1].key)
    requires |Elems(Touches(l, cap, ops))| < cap
    ensures OnlyTouchedAreNewer(Run(l, cap, ops), l[|l| - 1], Elems(Touches(l, cap, ops)))
  {
    var e := l[|l| - 1];
    if ops == [] {
      assert l[|l| - 1] == e && ListKeys(l[|l|..]) <= Elems(Touches(l, cap, ops));
    } else {
      var init, op := ops[..|ops| - 1], ops[|ops| - 1];
      var t, l' := Elems(Touches(l, cap, init)), Run(l, cap, init);
      assert Elems(Touches(l, cap, ops)) == t + if TouchesKey(l', op) then {op.key} else {};
      SubsetSize(t, Elems(Touches(l, cap, ops)));
      RecentEntryStays(l, cap, init);
      RunKeepsWellFormed(l, cap, init);
      StepKeepsEntry(l', cap, op, e, t);
    }
  }

  lemma StepKeepsEntry<K, V>(l: seq<Entry<K, V>>, cap: nat, op: Op<K, V>, e: Entry<K, V>, touched: set<K>)
    requires cap > 0 && WellFormed(l, cap) && op.key != e.key
    requires OnlyTouchedAreNewer(l, e, touched)
    requires |touched + if TouchesKey(l, op) then {op.key} else {}| < cap
    ensures OnlyTouchedAreNewer(Step(l, cap, op), e, touched + if TouchesKey(l, op) then {op.key} else {})
  {
    var more := touched + if TouchesKey(l, op) then {op.key} else {};
    if Has(l, op.key) {
      DropKeepsEntry(l, op.key, e, touched, more);
      if op.Add? {
        NewerAfterAppend(Drop(l, op.key), e, Added(op), more);
      } else if TouchesKey(l, op) {
        NewerAfterAppend(Drop(l, op.key), e, Find(l, op.key), more);
      }
    } else if op.Add? {
      AppendKeepsEntry(l, cap, Added(op), e, touched);
    } else {
      MoreTouched(l, e, touched, more);
    }
  }

  lemma MoreTouched<K, V>(l: seq<Entry<K, V>>, e: Entry<K, V>, touched: set<K>, more: set<K>)
    requires OnlyTouchedAreNewer(l, e, touched) && touched <= more
    ensures OnlyTouchedAreNewer(l, e, more)
  {
    var i :| 0 <= i < |l| && l[i] == e && ListKeys(l[i + 1..]) <= touched;
    assert ListKeys(l[i + 1..]) <= more;
  }

  /** Taking another key out of the list. */
  lemma DropKeepsEntry<K, V>(l: seq<Entry<K, V>>, key: K, e: Entry<K, V>, touched: set<K>, more: set<K>)
    requires DistinctKeys(l) && key != e.key && Has(l, key) && touched <= more
    requires OnlyTouchedAreNewer(l, e, touched)
    ensures OnlyTouchedAreNewer(Drop(l, key), e, more)
  {
    var i :| 0 <= i < |l| && l[i] == e && ListKeys(l[i + 1..]) <= touched;
    var j :| 0 <= j < |l| && l[j].key == key;
    DropIsWithout(l, j);
    NewerAfterWithout(l, i, j, more);
  }

  /** Adding an absent key, which may cost the oldest entry. */
  lemma AppendKeepsEntry<K, V>(l: seq<Entry<K, V>>, cap: nat, x: Entry<K, V>, e: Entry<K, V>, touched: set<K>)
    requires cap > 0 && WellFormed(l, cap) && !Has(l, x.key) && OnlyTouchedAreNewer(l, e, touched)
    requires |touched + {x.key}| < cap
    ensures OnlyTouchedAreNewer(Put(l, cap, x).0, e, touched + {x.key})
  {
    var more := touched + {x.key};
    if |l| == cap {
      var i :| 0 <= i < |l| && l[i] == e && ListKeys(l[i + 1..]) <= touched;
      OldestIsOlder(l, i, x.key, touched);
      NewerAfterWithout(l, i, 0, more);
      assert l[..0] + l[1..] == l[1..];
      NewerAfterAppend(l[1..], e, x, more);
    } else {
      MoreTouched(l, e, touched, more);
      NewerAfterAppend(l, e, x, more);
    }
  }

  lemma NewerAfterWithout<K, V>(l: seq<Entry<K, V>>, i: nat, j: nat, touched: set<K>)
    requires i < |l| && j < |l| && i != j && ListKeys(l[i + 1..]) <= touched
    ensures OnlyTouchedAreNewer(l[..j] + l[j + 1..], l[i], touched)
  {
    var d := l[..j] + l[j + 1..];
    var i' := if j < i then i - 1 else i;
    assert d[i'] == l[i];
    forall x | x in d[i' + 1..]
      ensures x.key in touched
    {
      assert x in l[i + 1..];
      assert x.key in ListKeys(l[i + 1..]);
    }
    assert ListKeys(d[i' + 1..]) <= touched;
  }

  lemma NewerAfterAppend<K, V>(l: seq<Entry<K, V>>, e: Entry<K, V>, x: Entry<K, V>, touched: set<K>)
    requires OnlyTouchedAreNewer(l, e, touched) && x.key in touched
    ensures OnlyTouchedAreNewer(l + [x], e, touched)
    ensures OnlyTouchedAreNewer(l, e, touched)
  {
    var i :| 0 <= i < |l| && l[i] == e && ListKeys(l[i + 1..]) <= touched;
    var d := l + [x];
    assert d[i + 1..] == l[i + 1..] + [x];
    assert ListKeys(d[i + 1..]) <= ListKeys(l[i + 1..]) + {x.key};
    assert d[i] == e && ListKeys(d[i + 1..]) <= touched;
  }

  /** In a full list an entry with fewer than cap - 1 newer keys is not the oldest. */
  lemma OldestIsOlder<K, V>(l: seq<Entry<K, V>>, i: nat, k: K, touched: set<K>)
    requires DistinctKeys(l) && i < |l| && !Has(l, k)
    requires ListKeys(l[i + 1..]) <= touched && |touched + {k}| < |l|
    ensures i != 0
  {
    if i == 0 {
      var newer := l[1..];
      DistinctKeysBound(newer);
      forall x | x in newer
        ensures x.key != k
      {
        var j :| 0 <= j < |newer| && newer[j] == x;
        assert l[j + 1] == x;
      }
      assert k !in ListKeys(newer);
      SubsetSize(ListKeys(newer) + {k}, touched + {k});
    }
  }

  /** Liveness over whole runs: after a touch of key (an Add, or a Get that hits), as long as
      fewer than cap distinct other keys are touched, an unexpired Get of key hits with the value
      of its latest Add. */
  lemma UnexpiredKeyHits<K, V>(cap: nat, before: seq<Op<K, V>>, touch: Op<K, V>, after: seq<Op<K, V>>, now: nat)
    requires cap > 0
    requires TouchesKey(Run([], cap, before), touch) && !Mentions(after, touch.key)
    requires |Elems(Touches(Run([], cap, before + [touch]), cap, after))| < cap
    ensures LatestAdd(before + [touch], touch.key).Hit?
    ensures var e := LatestAdd(before + [touch], touch.key).value;
            !Expired(e.expire, now) ==>
              Look(Run(Run([], cap, before + [touch]), cap, after), touch.key, now).1 == Hit(e.value)
  {
    var ops := before + [touch];
    assert ops[..|ops| - 1] == before;
    var l := Run([], cap, ops);
    EntriesAreLatestAdds(cap, ops);
    if touch.Get? {
      var f := Find(Run([], cap, before), touch.key);
    }
    var e := l[|l| - 1];
    assert e in l && e.key == touch.key;
    RecentEntryStays(l, cap, after);
    RunKeepsWellFormed(l, cap, after);
    var l' := Run(l, cap, after);
    var i :| 0 <= i < |l'| && l'[i] == e;
    FindIsUnique(l', i);
  }

  // ---- A larger cache holds a superset, for any lifetimes --------------------------------

  /** a is obtained from b by leaving out entries. */
  ghost predicate SubList<T>(a: seq<T>, b: seq<T>) {
    if a == [] then true
    else if b == [] then false
    else if a[|a| - 1] == b[|b| - 1] then SubList(a[..|a| - 1], b[..|b| - 1])
    else SubList(a, b[..|b| - 1])
  }

  lemma {:induction false} SubListMembers<T>(a: seq<T>, b: seq<T>)
    requires SubList(a, b)
    ensures |a| <= |b|
    ensures forall x :: x in a ==> x in b
  {
    if a != [] {
      var a', b' := a[..|a| - 1], b[..|b| - 1];
      assert a == a' + [a[|a| - 1]] && b == b' + [b[|b| - 1]];
      if a[|a| - 1] == b[|b| - 1] {
        SubListMembers(a', b');
      } else {
        SubListMembers(a, b');
      }
    }
  }

  lemma {:induction false} SubListTail<T>(a: seq<T>, b: seq<T>)
    requires SubList(a, b) && a != []
    ensures SubList(a[1..], b)
  {
    if |a| > 1 {
      var a', b' := a[..|a| - 1], b[..|b| - 1];
      if a[|a| - 1] == b[|b| - 1] {
        SubListTail(a', b');
        assert a'[1..] == a[1..][..|a[1..]| - 1];
      } else {
        SubListTail(a, b');
      }
    }
  }

  /** Cutting b's first entry is harmless when it is not the first of a, and costs a at most that one. */
  lemma {:induction false} SubListCut<K, V>(a: seq<Entry<K, V>>, b: seq<Entry<K, V>>)
    requires SubList(a, b) && DistinctKeys(b) && b != []
    ensures a == [] || a[0] != b[0] ==> SubList(a, b[1..])
    ensures a != [] && a[0] == b[0] ==> SubList(a[1..], b[1..])
  {
    if a != [] {
      var a', b' := a[..|a| - 1], b[..|b| - 1];
      if |b| == 1 {
        SubListMembers(a, b);
        assert a[0] in b;
      } else {
        assert b[1..][..|b[1..]| - 1] == b'[1..];
        if a[|a| - 1] == b[|b| - 1] {
          SubListCut(a', b');
          if |a| == 1 {
            assert a[0] == b[|b| - 1] != b[0];
          } else {
            assert a[1..][..|a[1..]| - 1] == a'[1..];
          }
        } else {
          SubListCut(a, b');
          if a[0] == b[0] && |a| > 1 {
            assert a[1..][|a[1..]| - 1] == a[|a| - 1];
          }
        }
      }
    }
  }

  lemma {:induction false} SubListDrop<K, V>(a: seq<Entry<K, V>>, b: seq<Entry<K, V>>, key: K)
    requires SubList(a, b)
    ensures SubList(Drop(a, key), Drop(b, key))
  {
    if a != [] {
      var a', b' := a[..|a| - 1], b[..|b| - 1];
      var x, y := a[|a| - 1], b[|b| - 1];
      if x == y {
        SubListDrop(a', b', key);
        if x.key != key {
          assert (Drop(a', key) + [x])[..|Drop(a', key)|] == Drop(a', key);
          assert (Drop(b', key) + [x])[..|Drop(b', key)|] == Drop(b', key);
        }
      } else {
        SubListDrop(a, b', key);
        if y.key != key {
          SubListWiden(Drop(a, key), Drop(b', key), y);
        }
      }
    }
  }

  lemma {:induction false} SubListWiden<T>(a: seq<T>, b: seq<T>, y: T)
    requires SubList(a, b)
    ensures SubList(a, b + [y])
    decreases |b|, 1
  {
    assert (b + [y])[..|b|] == b;
    if a != [] && a[|a| - 1] == y {
      var a', b' := a[..|a| - 1], b[..|b| - 1];
      if b[|b| - 1] == y {
        SubListWiden(a', b', y);
        assert b == b' + [y];
      } else {
        SubListInit(a, b);
      }
    }
  }

  lemma {:induction false} SubListInit<T>(a: seq<T>, b: seq<T>)
    requires SubList(a, b) && a != []
    ensures SubList(a[..|a| - 1], b)
    decreases |b|, 0
  {
    var a', b' := a[..|a| - 1], b[..|b| - 1];
    assert b == b' + [b[|b| - 1]];
    if a[|a| - 1] == b[|b| - 1] {
      SubListWiden(a', b', b[|b| - 1]);
    } else {
      SubListInit(a, b');
      SubListWiden(a', b', b[|b| - 1]);
    }
  }

  lemma SubListExtend<T>(a: seq<T>, b: seq<T>, x: T)
    requires SubList(a, b)
    ensures SubList(a + [x], b + [x])
  {
    assert (a + [x])[..|a|] == a && (b + [x])[..|b|] == b;
  }

  ghost predicate Included<K, V>(small: seq<Entry<K, V>>, capS: nat, large: seq<Entry<K, V>>, capL: nat) {
    && WellFormed(small, capS) && WellFormed(large, capL)
    && SubList(small, large)
    && |large| - |small| <= capL - capS
  }

  /** A new key in both: what each cache keeps before appending the entry. */
  lemma MakeRoomKeepsInclusion<K, V>(small: seq<Entry<K, V>>, capS: nat, large: seq<Entry<K, V>>, capL: nat)
    requires 0 < capS <= capL && Included(small, capS, large, capL)
    ensures var small' := if |small| == capS then small[1..] else small;
            var large' := if |large| == capL then large[1..] else large;
            SubList(small', large') && |large'| - |small'| <= capL - capS
  {
    SubListMembers(small, large);
    if |large| == capL {
      SubListCut(small, large);
      if |small| == capS && SubList(small, large[1..]) {
        SubListTail(small, large[1..]);
      }
    } else if |small| == capS {
      SubListTail(small, large);
    }
  }

  lemma AddKeepsInclusion<K, V>(small: seq<Entry<K, V>>, capS: nat, large: seq<Entry<K, V>>, capL: nat,
                                x: Entry<K, V>)
    requires 0 < capS <= capL && Included(small, capS, large, capL)
    ensures SubList(Put(small, capS, x).0, Put(large, capL, x).0)
    ensures |Put(large, capL, x).0| - |Put(small, capS, x).0| <= capL - capS
  {
    SubListMembers(small, large);
    DropFacts(small, x.key);
    DropFacts(large, x.key);
    SubListDrop(small, large, x.key);
    if Has(small, x.key) {
      var e := Find(small, x.key);
      assert e in large;
      SubListExtend(Drop(small, x.key), Drop(large, x.key), x);
    } else if Has(large, x.key) {
      if |small| == capS {
        SubListTail(small, Drop(large, x.key));
        SubListExtend(small[1..], Drop(large, x.key), x);
      } else {
        SubListExtend(small, Drop(large, x.key), x);
      }
    } else {
      MakeRoomKeepsInclusion(small, capS, large, capL);
      SubListExtend(if |small| == capS then small[1..] else small, if |large| == capL then large[1..] else large, x);
    }
  }

  lemma GetKeepsInclusion<K, V>(small: seq<Entry<K, V>>, capS: nat, large: seq<Entry<K, V>>, capL: nat,
                                key: K, now: nat)
    requires 0 < capS <= capL && Included(small, capS, large, capL)
    ensures SubList(Look(small, key, now).0, Look(large, key, now).0)
    ensures |Look(large, key, now).0| - |Look(small, key, now).0| <= capL - capS
  {
    SubListMembers(small, large);
    DropFacts(small, key);
    DropFacts(large, key);
    SubListDrop(small, large, key);
    if Has(small, key) {
      var e := Find(small, key);
      var j :| 0 <= j < |large| && large[j] == e;
      FindIsUnique(large, j);
      SubListExtend(Drop(small, key), Drop(large, key), e);
    } else if Has(large, key) {
      SubListWiden(Drop(small, key), Drop(large, key), Find(large, key));
    }
  }

  lemma StepKeepsInclusion<K, V>(small: seq<Entry<K, V>>, capS: nat, large: seq<Entry<K, V>>, capL: nat,
                                 op: Op<K, V>)
    requires 0 < capS <= capL && Included(small, capS, large, capL)
    ensures Included(Step(small, capS, op), capS, Step(large, capL, op), capL)
  {
    StepKeepsWellFormed(small, capS, op);
    StepKeepsWellFormed(large, capL, op);
    match op
    case Add(k, v, lifetime, now) => AddKeepsInclusion(small, capS, large, capL, Added(op));
    case Get(k, now) => GetKeepsInclusion(small, capS, large, capL, k, now);
  }

  /** After the same operations a cache with more capacity holds everything a smaller one holds,
      with the same values and deadlines and in the same order; lifetimes may be arbitrary. */
  lemma {:induction false} LargerHoldsMore<K, V>(capS: nat, capL: nat, ops: seq<Op<K, V>>)
    requires 0 < capS <= capL
    ensures Included(Run([], capS, ops), capS, Run([], capL, ops), capL)
    ensures forall e :: e in Run([], capS, ops) ==> e in Run([], capL, ops)
  {
    if ops != [] {
      var init := ops[..|ops| - 1];
      LargerHoldsMore(capS, capL, init);
      StepKeepsInclusion(Run([], capS, init), capS, Run([], capL, init), capL, ops[|ops| - 1]);
    }
    SubListMembers(Run([], capS, ops), Run([], capL, ops));
  }

  // ---- Without lifetimes the contents are the cap most recent keys ------------------------

  function DropKey<K(==)>(s: seq<K>, k: K): seq<K> {
    if s == [] then []
    else
      var rest := DropKey(s[..|s| - 1], k);
      if s[|s| - 1] == k then rest else rest + [s[|s| - 1]]
  }

  /** Distinct keys in the order of their last occurrence. */
  function MostRecent<K(==)>(t: seq<K>): seq<K> {
    if t == [] then []
    else DropKey(MostRecent(t[..|t| - 1]), t[|t| - 1]) + [t[|t| - 1]]
  }

  function Newest<T>(s: seq<T>, n: nat): seq<T> {
    if |s| <= n then s else s[|s| - n..]
  }

  function KeysInOrder<K, V>(l: seq<Entry<K, V>>): seq<K> {
    seq(|l|, i requires 0 <= i < |l| => l[i].key)
  }

  ghost predicate NoRepeats<T>(s: seq<T>) {
    forall i, j :: 0 <= i < j < |s| ==> s[i] != s[j]
  }

  lemma {:induction false} DropKeyAbsent<K>(s: seq<K>, k: K)
    requires k !in s
    ensures DropKey(s, k) == s
  {
    if s != [] {
      DropKeyAbsent(s[..|s| - 1], k);
    }
  }

  lemma {:induction false} DropKeyAt<K>(s: seq<K>, j: nat)
    requires NoRepeats(s) && j < |s|
    ensures DropKey(s, s[j]) == s[..j] + s[j + 1..]
  {
    var init, last := s[..|s| - 1], s[|s| - 1];
    if j < |init| {
      DropKeyAt(init, j);
      assert init[j] == s[j] != last;
      assert s[..j] + s[j + 1..] == init[..j] + init[j + 1..] + [last];
    } else {
      forall i | 0 <= i < |init| ensures init[i] != last {
        assert init[i] == s[i];
      }
      DropKeyAbsent(init, last);
      assert s[..j] + s[j + 1..] == init;
    }
  }

  lemma CutKeepsNoRepeats<K>(s: seq<K>, j: nat)
    requires NoRepeats(s) && j < |s|
    ensures var d := s[..j] + s[j + 1..];
            NoRepeats(d) && s[j] !in d && (forall k :: k in s <==> k in d || k == s[j])
  {
    var d := s[..j] + s[j + 1..];
    assert forall i :: 0 <= i < |d| ==> d[i] == s[if i < j then i else i + 1];
    forall k | k in s
      ensures k in d || k == s[j]
    {
      var i :| 0 <= i < |s| && s[i] == k;
      assert i < j ==> d[i] == k;
      assert i > j ==> d[i - 1] == k;
    }
  }

  lemma {:induction false} MostRecentIsDistinct<K>(t: seq<K>)
    ensures NoRepeats(MostRecent(t))
  {
    if t != [] {
      var init, last := t[..|t| - 1], t[|t| - 1];
      MostRecentIsDistinct(init);
      var m := MostRecent(init);
      if last in m {
        var j :| 0 <= j < |m| && m[j] == last;
        DropKeyAt(m, j);
        CutKeepsNoRepeats(m, j);
      } else {
        DropKeyAbsent(m, last);
      }
      assert last !in DropKey(m, last);
      assert MostRecent(t) == DropKey(m, last) + [last];
    }
  }

  lemma SuffixNoRepeats<K>(m: seq<K>, off: nat)
    requires NoRepeats(m) && off <= |m|
    ensures NoRepeats(m[off..])
  {
  }

  lemma NotInSuffix<K>(m: seq<K>, off: nat, j: nat)
    requires NoRepeats(m) && j < off <= |m|
    ensures m[j] !in m[off..]
  {
  }

  lemma CutInsideSuffix<K>(m: seq<K>, off: nat, j: nat, k: K)
    requires off <= j < |m|
    ensures (m[..j] + m[j + 1..] + [k])[off..] == m[off..][..j - off] + m[off..][j - off + 1..] + [k]
  {
  }

  lemma CutBeforeSuffix<K>(m: seq<K>, off: nat, j: nat, k: K)
    requires j < off < |m|
    ensures (m[..j] + m[j + 1..] + [k])[off..] == m[off..][1..] + [k]
  {
  }

  lemma NewestIsSuffix<T>(m: seq<T>, d: seq<T>, n: nat)
    requires |d| == |m|
    ensures |Newest(m, n)| <= |m| && Newest(m, n) == m[|m| - |Newest(m, n)|..]
    ensures Newest(d, n) == d[|m| - |Newest(m, n)|..]
  {
  }

  lemma TouchHeld<K>(m: seq<K>, n: nat, off: nat, j: nat)
    requires n > 0 && NoRepeats(m) && off <= j < |m| && off == |m| - |Newest(m, n)|
    ensures m[j] in Newest(m, n)
    ensures Newest(DropKey(m, m[j]) + [m[j]], n) == DropKey(Newest(m, n), m[j]) + [m[j]]
  {
    var s := m[off..];
    NewestIsSuffix(m, m[..j] + m[j + 1..] + [m[j]], n);
    assert s[j - off] == m[j];
    DropKeyAt(m, j);
    CutInsideSuffix(m, off, j, m[j]);
    assert DropKey(s, m[j]) == s[..j - off] + s[j - off + 1..] by {
      SuffixNoRepeats(m, off);
      DropKeyAt(s, j - off);
    }
  }

  lemma TouchForgotten<K>(m: seq<K>, n: nat, off: nat, j: nat)
    requires n > 0 && NoRepeats(m) && j < off <= |m| && off == |m| - |Newest(m, n)|
    ensures m[j] !in Newest(m, n) && |Newest(m, n)| == n
    ensures Newest(DropKey(m, m[j]) + [m[j]], n) == Newest(m, n)[1..] + [m[j]]
  {
    NewestIsSuffix(m, m[..j] + m[j + 1..] + [m[j]], n);
    NotInSuffix(m, off, j);
    DropKeyAt(m, j);
    CutBeforeSuffix(m, off, j, m[j]);
  }

  /** Touching k moves it to the end of the newest n keys, or pushes the oldest of them out. */
  lemma NewestAfterTouch<K>(m: seq<K>, n: nat, k: K)
    requires n > 0 && NoRepeats(m)
    ensures var s := Newest(m, n);
            Newest(DropKey(m, k) + [k], n) ==
            if k in s then DropKey(s, k) + [k]
            else if |s| == n then s[1..] + [k] else s + [k]
  {
    if k in m {
      var j :| 0 <= j < |m| && m[j] == k;
      var off := |m| - |Newest(m, n)|;
      if off <= j {
        TouchHeld(m, n, off, j);
      } else {
        TouchForgotten(m, n, off, j);
      }
    } else {
      NewestAfterNew(m, n, k);
    }
  }

  lemma NewestAfterNew<K>(m: seq<K>, n: nat, k: K)
    requires n > 0 && k !in m
    ensures k !in Newest(m, n)
    ensures Newest(DropKey(m, k) + [k], n) ==
            if |Newest(m, n)| == n then Newest(m, n)[1..] + [k] else Newest(m, n) + [k]
  {
    DropKeyAbsent(m, k);
    var d := m + [k];
    if |m| >= n {
      assert d[|d| - n..] == m[|m| - n..][1..] + [k];
      assert Newest(m, n) == m[|m| - n..];
    }
  }

  lemma {:induction false} KeysOfDrop<K, V>(l: seq<Entry<K, V>>, k: K)
    ensures KeysInOrder(Drop(l, k)) == DropKey(KeysInOrder(l), k)
  {
    if l != [] {
      var init := l[..|l| - 1];
      KeysOfDrop(init, k);
      assert KeysInOrder(l)[..|l| - 1] == KeysInOrder(init);
      assert forall e :: KeysInOrder(Drop(init, k) + [e]) == KeysInOrder(Drop(init, k)) + [e.key];
    }
  }

  ghost predicate Immortal<K, V>(ops: seq<Op<K, V>>) {
    forall i :: 0 <= i < |ops| && ops[i].Add? ==> ops[i].lifetime == 0
  }

  lemma KeysInOrderHas<K, V>(l: seq<Entry<K, V>>, k: K)
    ensures k in KeysInOrder(l) <==> Has(l, k)
  {
    if Has(l, k) {
      var j :| 0 <= j < |l| && l[j].key == k;
      assert KeysInOrder(l)[j] == k;
    }
  }

  /** One operation on immortal entries, seen on the keys alone. */
  lemma KeysAfterStep<K, V>(l: seq<Entry<K, V>>, cap: nat, op: Op<K, V>)
    requires cap > 0 && WellFormed(l, cap)
    requires forall e :: e in l ==> e.expire == 0
    ensures var s := KeysInOrder(l);
            KeysInOrder(Step(l, cap, op)) ==
            if Has(l, op.key) then DropKey(s, op.key) + [op.key]
            else if op.Get? then s
            else if |s| == cap then s[1..] + [op.key] else s + [op.key]
    ensures op.Get? ==> (Look(l, op.key, op.now).1.Hit? <==> Has(l, op.key))
  {
    KeysOfDrop(l, op.key);
    if Has(l, op.key) {
      var e := if op.Add? then Added(op) else Find(l, op.key);
      assert KeysInOrder(Drop(l, op.key) + [e]) == KeysInOrder(Drop(l, op.key)) + [op.key];
    } else if op.Add? {
      assert KeysInOrder(l + [Added(op)]) == KeysInOrder(l) + [op.key];
      if |l| == cap {
        assert KeysInOrder(l[1..] + [Added(op)]) == KeysInOrder(l)[1..] + [op.key];
      }
    }
  }

  /** With lifetime 0 throughout, the keys held are exactly the cap most recently touched distinct
      keys, oldest first. */
  lemma {:induction false} HoldsMostRecent<K, V>(cap: nat, ops: seq<Op<K, V>>)
    requires cap > 0 && Immortal(ops)
    ensures KeysInOrder(Run([], cap, ops)) == Newest(MostRecent(Touches([], cap, ops)), cap)
  {
    if ops != [] {
      var init, op := ops[..|ops| - 1], ops[|ops| - 1];
      HoldsMostRecent(cap, init);
      var l := Run([], cap, init);
      var t := Touches([], cap, init);
      EntriesAreLatestAdds(cap, init);
      forall e | e in l ensures e.expire == 0 {
        ImmortalLatest(init, e.key);
      }
      KeysAfterStep(l, cap, op);
      KeysInOrderHas(l, op.key);
      if TouchesKey(l, op) {
        NewestAfterOneMore(t, cap, op.key);
      } else {
        assert Touches([], cap, ops) == t;
      }
    }
  }

  lemma NewestAfterOneMore<K>(t: seq<K>, n: nat, k: K)
    requires n > 0
    ensures var s := Newest(MostRecent(t), n);
            Newest(MostRecent(t + [k]), n) ==
            if k in s then DropKey(s, k) + [k]
            else if |s| == n then s[1..] + [k] else s + [k]
  {
    MostRecentIsDistinct(t);
    NewestAfterTouch(MostRecent(t), n, k);
    assert (t + [k])[..|t|] == t;
  }

  lemma {:induction false} ImmortalLatest<K, V>(ops: seq<Op<K, V>>, k: K)
    requires Immortal(ops)
    ensures LatestAdd(ops, k).Hit? ==> LatestAdd(ops, k).value.expire == 0
  {
    if ops != [] {
      ImmortalLatest(ops[..|ops| - 1], k);
    }
  }
}
