/** The weighted rotation of internal/core/ippool.go: ranking scan results, turning them into weights, and
    handing out addresses by ticket. Weights are computed over exact reals. */
module IpPool {
  import Bits
  import opened Wrappers

  const WEIGHT_SCALE_FACTOR := 10000.0
  const MIN_WEIGHT := 1
  const MAX_WEIGHT := 10000
  const TWO_TO_THE_32 := 0x1_0000_0000

  /** latency in nanoseconds. */
  datatype IpResult = IpResult(ipIndex: nat, latency: nat, loss: real)

  // ---- Ranking -------------------------------------------------------------------------------

  /** The comparison of updateBest: a ranks no worse than b. */
  predicate NoWorse(a: IpResult, b: IpResult) {
    a.loss < b.loss || (a.loss == b.loss && a.latency <= b.latency)
  }

  predicate Sorted(s: seq<IpResult>) {
    forall i, j :: 0 <= i < j < |s| ==> NoWorse(s[i], s[j])
  }

  /** s with x behind everything that ranks no worse. */
  function Place(s: seq<IpResult>, x: IpResult): seq<IpResult> {
    if s == [] || NoWorse(s[|s| - 1], x) then s + [x] else Place(s[..|s| - 1], x) + [s[|s| - 1]]
  }

  /** slices.SortStableFunc with that comparison. */
  function SortStable(s: seq<IpResult>): seq<IpResult> {
    if s == [] then [] else Place(SortStable(s[..|s| - 1]), s[|s| - 1])
  }

  /** The results that tie with key, in order. */
  function Ties(s: seq<IpResult>, key: IpResult): seq<IpResult> {
    if s == [] then []
    else
      var x := s[|s| - 1];
      Ties(s[..|s| - 1], key) + if NoWorse(x, key) && NoWorse(key, x) then [x] else []
  }

  lemma {:induction false} PlaceAdds(s: seq<IpResult>, x: IpResult)
    ensures multiset(Place(s, x)) == multiset(s) + multiset{x}
  {
    if s != [] && !NoWorse(s[|s| - 1], x) {
      PlaceAdds(s[..|s| - 1], x);
      assert s == s[..|s| - 1] + [s[|s| - 1]];
    }
  }

  lemma PlaceMembers(s: seq<IpResult>, x: IpResult)
    ensures forall y :: y in Place(s, x) ==> y in s || y == x
  {
    PlaceAdds(s, x);
    forall y | y in Place(s, x) ensures y in s || y == x {
      assert y in multiset(Place(s, x));
      assert y in multiset(s) || y == x;
    }
  }

  lemma {:induction false} PlaceSorts(s: seq<IpResult>, x: IpResult)
    requires Sorted(s)
    ensures Sorted(Place(s, x))
  {
    if s != [] && !NoWorse(s[|s| - 1], x) {
      var init, y := s[..|s| - 1], s[|s| - 1];
      PlaceSorts(init, x);
      PlaceMembers(init, x);
      var t := Place(init, x);
      forall i | 0 <= i < |t| ensures NoWorse(t[i], y) {
        assert t[i] in init || t[i] == x;
      }
    }
  }

  lemma {:induction false} PlaceKeepsTies(s: seq<IpResult>, x: IpResult, key: IpResult)
    requires Sorted(s)
    ensures Ties(Place(s, x), key) == Ties(s + [x], key)
  {
    assert (s + [x])[..|s|] == s;
    if s != [] && !NoWorse(s[|s| - 1], x) {
      var init, y := s[..|s| - 1], s[|s| - 1];
      PlaceKeepsTies(init, x, key);
      assert (Place(init, x) + [y])[..|Place(init, x)|] == Place(init, x);
      assert (init + [x])[..|init|] == init;
    }
  }

  lemma {:induction false} SortSorts(s: seq<IpResult>)
    ensures Sorted(SortStable(s)) && multiset(SortStable(s)) == multiset(s)
  {
    if s != [] {
      SortSorts(s[..|s| - 1]);
      PlaceSorts(SortStable(s[..|s| - 1]), s[|s| - 1]);
      PlaceAdds(SortStable(s[..|s| - 1]), s[|s| - 1]);
      assert s == s[..|s| - 1] + [s[|s| - 1]];
    }
  }

  lemma TiesSnoc(s: seq<IpResult>, x: IpResult, key: IpResult)
    ensures Ties(s + [x], key) == Ties(s, key) + if NoWorse(x, key) && NoWorse(key, x) then [x] else []
  {
    assert (s + [x])[..|s|] == s;
  }

  lemma {:induction false} SortKeepsTies(s: seq<IpResult>, key: IpResult)
    ensures Ties(SortStable(s), key) == Ties(s, key)
  {
    if s != [] {
      var init, x := s[..|s| - 1], s[|s| - 1];
      SortKeepsTies(init, key);
      SortSorts(init);
      PlaceKeepsTies(SortStable(init), x, key);
      TiesSnoc(SortStable(init), x, key);
    }
  }

  /** The sort ranks the results, loses none, and leaves ties in the order they came in. */
  lemma SortRanks(s: seq<IpResult>)
    ensures Sorted(SortStable(s)) && multiset(SortStable(s)) == multiset(s)
    ensures forall key :: Ties(SortStable(s), key) == Ties(s, key)
  {
    SortSorts(s);
    forall key ensures Ties(SortStable(s), key) == Ties(s, key) {
      SortKeepsTies(s, key);
    }
  }

  lemma SortMembers(s: seq<IpResult>)
    ensures |SortStable(s)| == |s| && forall i :: 0 <= i < |s| ==> SortStable(s)[i] in s
  {
    SortSorts(s);
    var t := SortStable(s);
    assert |multiset(t)| == |t| && |multiset(s)| == |s|;
    forall i | 0 <= i < |t| ensures t[i] in s {
      assert t[i] in multiset(t);
      assert t[i] in multiset(s);
    }
  }

  /** The first k of the ranking are a top-k: nothing left out ranks better than anything chosen. */
  lemma TopIsBest(s: seq<IpResult>, k: nat)
    requires k <= |SortStable(s)|
    ensures forall a, b :: a in SortStable(s)[..k] && b in SortStable(s)[k..] ==> NoWorse(a, b)
    ensures multiset(SortStable(s)[..k]) + multiset(SortStable(s)[k..]) == multiset(s)
    ensures |SortStable(s)| == |s|
  {
    var t := SortStable(s);
    SortSorts(s);
    SortMembers(s);
    assert t == t[..k] + t[k..];
  }

  // ---- Weights -------------------------------------------------------------------------------

  predicate Measured(r: IpResult) {
    0.0 <= r.loss
  }

  function Cost(r: IpResult): (c: real)
    requires Measured(r)
    ensures c >= 0.00001
  {
    var latencyMs := r.latency as real / 1000000.0;
    Product(latencyMs, 1.0 + r.loss);
    latencyMs * (1.0 + r.loss) + 0.00001
  }

  lemma Product(x: real, y: real)
    requires x >= 0.0 && y >= 0.0
    ensures x * y >= 0.0
  {
  }

  function Clamp(x: real): real {
    if x < MIN_WEIGHT as real then MIN_WEIGHT as real
    else if x > MAX_WEIGHT as real then MAX_WEIGHT as real
    else x
  }

  function Weight(r: IpResult): (w: int)
    requires Measured(r)
    ensures MIN_WEIGHT <= w <= MAX_WEIGHT
  {
    Clamp(WEIGHT_SCALE_FACTOR / Cost(r)).Floor
  }

  lemma ProductOrder(a: real, b: real, c: real, d: real)
    requires 0.0 <= a <= b && 0.0 <= c <= d
    ensures a * c <= b * d
  {
    Product(b - a, c);
    Product(b, d - c);
  }

  lemma QuotientOrder(n: real, c: real, d: real)
    requires n >= 0.0 && 0.0 < c <= d
    ensures n / d <= n / c
  {
    if n / d > n / c {
      Scaled(n / d - n / c, c);
      assert (n / d) * c > n;
      ProductOrder(n / c, n / d, c, d);
      ProductOrder(n / d, n / d, c, d);
    }
  }

  lemma Scaled(x: real, c: real)
    requires x > 0.0 && c > 0.0
    ensures x * c > 0.0
  {
  }

  /** Unless it is clamped, the weight is the greatest integer whose product with the cost is at most the scale. */
  lemma WeightIsGreatest(r: IpResult)
    requires Measured(r)
    ensures Weight(r) > MIN_WEIGHT ==> Weight(r) as real * Cost(r) <= WEIGHT_SCALE_FACTOR
    ensures Weight(r) < MAX_WEIGHT ==> (Weight(r) + 1) as real * Cost(r) > WEIGHT_SCALE_FACTOR
  {
    var c, w := Cost(r), Weight(r);
    var q := WEIGHT_SCALE_FACTOR / c;
    Undivide(WEIGHT_SCALE_FACTOR, c);
    if w > MIN_WEIGHT {
      ProductOrder(w as real, q, c, c);
    }
    if w < MAX_WEIGHT {
      Scaled((w + 1) as real - q, c);
    }
  }

  lemma Undivide(n: real, c: real)
    requires c > 0.0
    ensures n / c * c == n
  {
  }

  /** An address that is no slower and loses no more gets no smaller a weight. */
  lemma WeightMonotone(a: IpResult, b: IpResult)
    requires Measured(a) && Measured(b) && a.latency <= b.latency && a.loss <= b.loss
    ensures Weight(a) >= Weight(b)
  {
    ProductOrder(a.latency as real / 1000000.0, b.latency as real / 1000000.0, 1.0 + a.loss, 1.0 + b.loss);
    QuotientOrder(WEIGHT_SCALE_FACTOR, Cost(a), Cost(b));
  }

  /** The sum of the first n weights. */
  function Acc(w: seq<int>, n: nat): int
    requires n <= |w|
  {
    if n == 0 then 0 else Acc(w, n - 1) + w[n - 1]
  }

  predicate Positive(w: seq<int>) {
    forall i :: 0 <= i < |w| ==> MIN_WEIGHT <= w[i] <= MAX_WEIGHT
  }

  lemma {:induction false} AccGrows(w: seq<int>, i: nat, j: nat)
    requires Positive(w) && i <= j <= |w|
    ensures Acc(w, j) - Acc(w, i) >= j - i
  {
    if i < j {
      AccGrows(w, i, j - 1);
    }
  }

  lemma {:induction false} AccPrefix(w: seq<int>, v: seq<int>, n: nat)
    requires n <= |w| && n <= |v| && w[..n] == v[..n]
    ensures Acc(w, n) == Acc(v, n)
  {
    if n > 0 {
      assert w[..n - 1] == w[..n][..n - 1] && v[..n - 1] == v[..n][..n - 1];
      assert w[..n][n - 1] == v[..n][n - 1];
      AccPrefix(w, v, n - 1);
    }
  }

  lemma AccSnoc(w: seq<int>, x: int)
    ensures Acc(w + [x], |w| + 1) == Acc(w, |w|) + x
  {
    AccPrefix(w + [x], w, |w|);
  }

  // ---- Rotation ------------------------------------------------------------------------------

  /** The first entry from i on whose running sum exceeds the target, or None past the last. */
  function Pick(w: seq<int>, target: int, i: nat): Option<nat>
    requires i <= |w|
    decreases |w| - i
  {
    if i == |w| then None
    else if Acc(w, i + 1) > target then Some(i)
    else Pick(w, target, i + 1)
  }

  /** Entry k is picked exactly for the targets between its two running sums. */
  lemma {:induction false} PickIsRange(w: seq<int>, target: int, i: nat, k: nat)
    requires Positive(w) && i <= k < |w| && Acc(w, i) <= target
    ensures Pick(w, target, i) == Some(k) <==> Acc(w, k) <= target < Acc(w, k + 1)
    decreases |w| - i
  {
    if Acc(w, i + 1) > target {
      if i < k {
        AccGrows(w, i + 1, k);
      }
    } else if i < k {
      PickIsRange(w, target, i + 1, k);
    } else {
      PickIsLater(w, target, i + 1);
    }
  }

  lemma {:induction false} PickIsLater(w: seq<int>, target: int, i: nat)
    requires i <= |w|
    ensures Pick(w, target, i).Some? ==> i <= Pick(w, target, i).value < |w|
    decreases |w| - i
  {
    if i < |w| && Acc(w, i + 1) <= target {
      PickIsLater(w, target, i + 1);
    }
  }

  /** Some entry is picked exactly if the target is below the total. */
  lemma {:induction false} PickIsTotal(w: seq<int>, target: int, i: nat)
    requires Positive(w) && i <= |w| && Acc(w, i) <= target
    ensures Pick(w, target, i).Some? <==> target < Acc(w, |w|)
    decreases |w| - i
  {
    if i < |w| {
      if Acc(w, i + 1) > target {
        AccGrows(w, i + 1, |w|);
      } else {
        PickIsTotal(w, target, i + 1);
      }
    }
  }

  /** How often entry i is picked for the tickets [t, t + n). */
  function Count(w: seq<int>, t: nat, n: nat, i: nat): nat
    requires Acc(w, |w|) > 0
  {
    if n == 0 then 0
    else Count(w, t, n - 1, i) + if Pick(w, (t + n - 1) % Acc(w, |w|), 0) == Some(i) then 1 else 0
  }

  lemma {:induction false} CountFromZero(w: seq<int>, n: nat, i: nat)
    requires Positive(w) && i < |w| && Acc(w, |w|) > 0 && n <= Acc(w, |w|)
    ensures Count(w, 0, n, i) ==
            if n <= Acc(w, i) then 0 else if n <= Acc(w, i + 1) then n - Acc(w, i) else w[i]
  {
    AccGrows(w, 0, i);
    if n > 0 {
      CountFromZero(w, n - 1, i);
      SmallResidue(n - 1, Acc(w, |w|));
      PickIsRange(w, n - 1, 0, i);
      AccGrows(w, i, i + 1);
    }
  }

  lemma {:induction false} CountShift(w: seq<int>, t: nat, n: nat, i: nat)
    requires Acc(w, |w|) > 0
    ensures Count(w, t + 1, n, i) + Count(w, t, 1, i) == Count(w, t, n + 1, i)
  {
    if n > 0 {
      CountShift(w, t, n - 1, i);
      assert t + 1 + n - 1 == t + (n + 1) - 1;
    } else {
      assert Count(w, t + 1, 0, i) == 0;
    }
  }

  lemma SameResidue(t: nat, m: nat)
    requires m > 0
    ensures (t + m) % m == t % m
  {
    assert (t / m + 1) * m == (t / m) * m + m;
    Bits.DivModUnique(t + m, m, t / m + 1, t % m);
  }

  lemma SmallResidue(t: nat, m: nat)
    requires t < m
    ensures t % m == t
  {
    Bits.DivModUnique(t, m, 0, t);
  }

  /** Every window of as many tickets as the weights add up to picks each entry as often as its weight. */
  lemma {:induction false} RotationIsExact(w: seq<int>, t: nat, i: nat)
    requires Positive(w) && i < |w| && Acc(w, |w|) > 0
    ensures Count(w, t, Acc(w, |w|), i) == w[i]
  {
    var total := Acc(w, |w|);
    if t == 0 {
      CountFromZero(w, total, i);
      AccGrows(w, 0, i);
      AccGrows(w, i + 1, |w|);
    } else {
      RotationIsExact(w, t - 1, i);
      CountShift(w, t - 1, total, i);
      SameResidue(t - 1, total);
      assert Count(w, t - 1, 1, i) == if Pick(w, (t - 1) % total, 0) == Some(i) then 1 else 0 by {
        assert Count(w, t - 1, 0, i) == 0;
      }
      assert t - 1 + (total + 1) - 1 == (t - 1) + total;
    }
  }

  // ---- The counter -----------------------------------------------------------------------------

  /** The n-th ticket after the counter stood at c: the 32-bit counter wraps. */
  function Ticket(c: nat, n: nat): nat {
    (c + n) % TWO_TO_THE_32
  }

  /** How often entry i is picked by the next n calls of Get. */
  function Served(w: seq<int>, c: nat, n: nat, i: nat): nat
    requires Acc(w, |w|) > 0
  {
    if n == 0 then 0
    else Served(w, c, n - 1, i) + if Pick(w, Ticket(c, n - 1) % Acc(w, |w|), 0) == Some(i) then 1 else 0
  }

  lemma {:induction false} ServedIsCount(w: seq<int>, c: nat, n: nat, i: nat)
    requires Acc(w, |w|) > 0 && c + n <= TWO_TO_THE_32
    ensures Served(w, c, n, i) == Count(w, c, n, i)
  {
    if n > 0 {
      ServedIsCount(w, c, n - 1, i);
      SmallResidue(c + n - 1, TWO_TO_THE_32);
    }
  }

  /** A full round of calls that does not cross the wrap of the counter serves entry i w[i] times. */
  lemma RoundIsExact(w: seq<int>, c: nat, i: nat)
    requires Positive(w) && i < |w| && Acc(w, |w|) > 0 && c + Acc(w, |w|) <= TWO_TO_THE_32
    ensures Served(w, c, Acc(w, |w|), i) == w[i]
  {
    ServedIsCount(w, c, Acc(w, |w|), i);
    RotationIsExact(w, c, i);
  }

  /** Across the wrap it can be off: with weights 1, 1, 1 the three calls from the last ticket on serve
      entry 0 twice and entry 2 never. */
  lemma WrapIsInexact()
    ensures Positive([1, 1, 1]) && Acc([1, 1, 1], 3) == 3
    ensures Served([1, 1, 1], 0xFFFF_FFFF, 3, 0) == 2 && Served([1, 1, 1], 0xFFFF_FFFF, 3, 2) == 0
  {
    var w := [1, 1, 1];
    assert Acc(w, 1) == 1 && Acc(w, 2) == 2 && Acc(w, 3) == 3;
    var c := 0xFFFF_FFFF;
    assert Ticket(c, 0) % 3 == 0 && Ticket(c, 1) % 3 == 0 && Ticket(c, 2) % 3 == 1;
    assert Pick(w, 0, 0) == Some(0);
    assert Pick(w, 1, 1) == Some(1);
    assert Pick(w, 1, 0) == Some(1);
    forall i | i == 0 || i == 2
      ensures Served(w, c, 3, i) == if i == 0 then 2 else 0
    {
      assert Served(w, c, 0, i) == 0;
      assert Served(w, c, 1, i) == if i == 0 then 1 else 0;
      assert Served(w, c, 2, i) == if i == 0 then 2 else 0;
    }
  }

  /** Every round serves every entry as often as its weight, whatever the counter stands at. */
  ghost predicate AlwaysExact(w: seq<int>)
    requires Acc(w, |w|) > 0
  {
    forall c, i :: 0 <= c < TWO_TO_THE_32 && 0 <= i < |w| ==> Served(w, c, Acc(w, |w|), i) == w[i]
  }

  lemma {:induction false} AccBound(w: seq<int>, n: nat)
    requires Positive(w) && n <= |w|
    ensures Acc(w, n) <= MAX_WEIGHT * n
  {
    if n > 0 {
      AccBound(w, n - 1);
    }
  }

  /** If the total divides 2^32, the wrap does not show in the remainders. */
  lemma DividedResidue(t: nat, m: nat)
    requires m > 0 && TWO_TO_THE_32 % m == 0 && t < 2 * TWO_TO_THE_32
    ensures t % TWO_TO_THE_32 % m == t % m
  {
    if t < TWO_TO_THE_32 {
      SmallResidue(t, TWO_TO_THE_32);
    } else {
      var u, q := t - TWO_TO_THE_32, TWO_TO_THE_32 / m;
      Bits.DivModUnique(t, TWO_TO_THE_32, 1, u);
      AddMultiple(u, m, q);
    }
  }

  lemma AddMultiple(u: nat, m: nat, q: nat)
    requires m > 0
    ensures (q * m + u) % m == u % m
  {
    assert u == (u / m) * m + u % m;
    assert (q + u / m) * m == q * m + (u / m) * m;
    Bits.DivModUnique(q * m + u, m, q + u / m, u % m);
  }

  lemma {:induction false} ServedIfDivided(w: seq<int>, c: nat, n: nat, i: nat)
    requires Acc(w, |w|) > 0 && TWO_TO_THE_32 % Acc(w, |w|) == 0 && c + n <= 2 * TWO_TO_THE_32
    ensures Served(w, c, n, i) == Count(w, c, n, i)
  {
    if n > 0 {
      ServedIfDivided(w, c, n - 1, i);
      DividedResidue(c + n - 1, Acc(w, |w|));
    }
  }

  lemma {:induction false} ServedIfAlone(w: seq<int>, c: nat, n: nat)
    requires |w| == 1 && Positive(w) && Acc(w, 1) > 0
    ensures Served(w, c, n, 0) == n
  {
    if n > 0 {
      ServedIfAlone(w, c, n - 1);
      PickIsRange(w, Ticket(c, n - 1) % Acc(w, 1), 0, 0);
    }
  }

  lemma WrapTicket(m: nat, r: nat, k: nat)
    requires 0 < m <= TWO_TO_THE_32 && r == TWO_TO_THE_32 % m && k < m
    ensures Ticket(TWO_TO_THE_32 - r, k) % m == if k < r then k % m else (k - r) % m
  {
    var c := TWO_TO_THE_32 - r;
    if k < r {
      SmallResidue(c + k, TWO_TO_THE_32);
      AddMultiple(k, m, TWO_TO_THE_32 / m);
      assert c == (TWO_TO_THE_32 / m) * m;
    } else {
      Bits.DivModUnique(c + k, TWO_TO_THE_32, 1, k - r);
    }
  }

  /** From r tickets before the wrap on, where r is what 2^32 leaves, the remainders start over at the wrap. */
  lemma {:induction false} ServedAcrossWrap(w: seq<int>, r: nat, n: nat, i: nat)
    requires var m := Acc(w, |w|); m > 0 && r == TWO_TO_THE_32 % m && n <= m && m <= TWO_TO_THE_32
    ensures Served(w, TWO_TO_THE_32 - r, n, i) ==
            if n <= r then Count(w, 0, n, i) else Count(w, 0, r, i) + Count(w, 0, n - r, i)
  {
    if n > 0 {
      ServedAcrossWrap(w, r, n - 1, i);
      WrapTicket(Acc(w, |w|), r, n - 1);
      assert n > r ==> n - 1 - r == n - r - 1;
    }
  }

  /** The rotation is exact from every counter value if and only if the total divides 2^32 or there is
      nothing to rotate. */
  lemma ExactIff(w: seq<int>)
    requires Positive(w) && 0 < |w| <= 255 && Acc(w, |w|) > 0
    ensures AlwaysExact(w) <==> TWO_TO_THE_32 % Acc(w, |w|) == 0 || |w| == 1
  {
    var m := Acc(w, |w|);
    AccBound(w, |w|);
    if TWO_TO_THE_32 % m == 0 {
      forall c, i | 0 <= c < TWO_TO_THE_32 && 0 <= i < |w| ensures Served(w, c, m, i) == w[i] {
        ServedIfDivided(w, c, m, i);
        RotationIsExact(w, c, i);
      }
    } else if |w| == 1 {
      forall c, i | 0 <= c < TWO_TO_THE_32 && 0 <= i < |w| ensures Served(w, c, m, i) == w[i] {
        ServedIfAlone(w, c, m);
        assert Acc(w, 1) == Acc(w, 0) + w[0];
      }
    } else {
      var r := TWO_TO_THE_32 % m;
      ServedAcrossWrap(w, r, m, 0);
      CountFromZero(w, r, 0);
      CountFromZero(w, m - r, 0);
      AccGrows(w, 1, |w|);
      assert Acc(w, 1) == Acc(w, 0) + w[0];
      assert Served(w, TWO_TO_THE_32 - r, m, 0) > w[0];
    }
  }

  // ---- The pool ------------------------------------------------------------------------------

  datatype Choice = Fallback | All(indexes: seq<int>) | One(index: int)

  class IPPool {
    const multi: bool
    const ipCount: nat
    const topIPCount: nat
    const bestIndexes: array<int>
    const bestWeights: array<int>
    var totalWeight: int
    var curValidIPs: nat
    var counter: nat

    ghost predicate Valid()
      reads this, bestIndexes, bestWeights
    {
      && bestIndexes != bestWeights && bestIndexes.Length == bestWeights.Length == topIPCount
      && curValidIPs <= topIPCount && counter < TWO_TO_THE_32
      && Positive(bestWeights[..curValidIPs])
      && totalWeight == Acc(bestWeights[..curValidIPs], curValidIPs)
      && (forall i :: 0 <= i < curValidIPs ==> 0 <= bestIndexes[i] < ipCount)
    }

    constructor (multi: bool, ipCount: nat, topIPCount: nat)
      ensures Valid() && curValidIPs == 0 && counter == 0 && fresh(bestIndexes) && fresh(bestWeights)
      ensures this.multi == multi && this.ipCount == ipCount && this.topIPCount == topIPCount
    {
      this.multi, this.ipCount, this.topIPCount := multi, ipCount, topIPCount;
      bestIndexes, bestWeights := new int[topIPCount](_ => 0), new int[topIPCount](_ => 0);
      totalWeight, curValidIPs, counter := 0, 0, 0;
    }

    /** What updateBest stores for results in their final order. */
    method Store(sorted: seq<IpResult>)
      requires Valid()
      requires forall i :: 0 <= i < |sorted| ==> Measured(sorted[i]) && sorted[i].ipIndex < ipCount
      modifies this`totalWeight, this`curValidIPs, bestIndexes, bestWeights
      ensures Valid() && curValidIPs == if topIPCount < |sorted| then topIPCount else |sorted|
      ensures forall i :: 0 <= i < curValidIPs ==>
                bestIndexes[i] == sorted[i].ipIndex && bestWeights[i] == Weight(sorted[i])
      ensures forall i :: curValidIPs <= i < topIPCount ==> bestIndexes[i] == old(bestIndexes[i]) && bestWeights[i] == 0
    {
      var validCount, total := FillTop(sorted);
      ghost var live := bestWeights[..validCount];
      ClearRest(validCount);
      assert forall i :: 0 <= i < validCount ==> bestWeights[i] == live[i];
      curValidIPs := validCount;
      totalWeight := total;
    }

    /** The first loop of updateBest. */
    method FillTop(sorted: seq<IpResult>) returns (validCount: nat, total: int)
      requires bestIndexes != bestWeights && bestIndexes.Length == bestWeights.Length == topIPCount
      requires forall i :: 0 <= i < |sorted| ==> Measured(sorted[i])
      modifies bestIndexes, bestWeights
      ensures validCount == if topIPCount < |sorted| then topIPCount else |sorted|
      ensures forall i :: 0 <= i < validCount ==>
                bestIndexes[i] == sorted[i].ipIndex && bestWeights[i] == Weight(sorted[i])
      ensures forall i :: validCount <= i < topIPCount ==> bestIndexes[i] == old(bestIndexes[i])
      ensures total == Acc(bestWeights[..validCount], validCount)
    {
      validCount, total := 0, 0;
      while validCount < topIPCount && validCount < |sorted|
        invariant validCount <= topIPCount && validCount <= |sorted|
        invariant forall i :: 0 <= i < validCount ==>
                    bestIndexes[i] == sorted[i].ipIndex && bestWeights[i] == Weight(sorted[i])
        invariant forall i :: validCount <= i < topIPCount ==> bestIndexes[i] == old(bestIndexes[i])
        invariant total == Acc(bestWeights[..validCount], validCount)
      {
        var res := sorted[validCount];
        ghost var before := bestWeights[..validCount];
        bestIndexes[validCount] := res.ipIndex;
        bestWeights[validCount] := Weight(res);
        total := total + bestWeights[validCount];
        validCount := validCount + 1;
        AccSnoc(before, bestWeights[validCount - 1]);
        assert bestWeights[..validCount] == before + [bestWeights[validCount - 1]];
      }
    }

    /** The second loop of updateBest. */
    method ClearRest(validCount: nat)
      requires validCount <= topIPCount == bestWeights.Length
      modifies bestWeights
      ensures bestWeights[..validCount] == old(bestWeights[..validCount])
      ensures forall i :: validCount <= i < topIPCount ==> bestWeights[i] == 0
    {
      for i := validCount to topIPCount
        invariant bestWeights[..validCount] == old(bestWeights[..validCount])
        invariant forall k :: validCount <= k < i ==> bestWeights[k] == 0
      {
        bestWeights[i] := 0;
      }
    }

    /** updateBest: no results change nothing, else the top of the ranking replaces what was there. */
    method UpdateBest(results: seq<IpResult>)
      requires Valid()
      requires forall r :: r in results ==> Measured(r) && r.ipIndex < ipCount
      modifies this`totalWeight, this`curValidIPs, bestIndexes, bestWeights
      ensures Valid()
      ensures results == [] ==>
                curValidIPs == old(curValidIPs) && totalWeight == old(totalWeight)
                && bestIndexes[..] == old(bestIndexes[..]) && bestWeights[..] == old(bestWeights[..])
      ensures results != [] ==>
                var s := SortStable(results);
                && |s| == |results| && curValidIPs == (if topIPCount < |s| then topIPCount else |s|)
                && (forall i :: 0 <= i < curValidIPs ==> s[i] in results && bestIndexes[i] == s[i].ipIndex)
                && (forall i :: 0 <= i < curValidIPs ==> bestWeights[i] == Weight(s[i]))
                && (forall i :: curValidIPs <= i < topIPCount ==> bestWeights[i] == 0)
                && (forall i :: curValidIPs <= i < topIPCount ==> bestIndexes[i] == old(bestIndexes[i]))
    {
      if |results| == 0 {
        return;
      }
      var sorted := SortStable(results);
      SortMembers(results);
      Store(sorted);
    }

    /** Get: the fallback while no address is known, every best address in multi mode, else the address
        that the next ticket falls to. The fallback behind the loop is never reached. */
    method Get() returns (r: Choice)
      requires Valid()
      modifies this`counter
      ensures Valid()
      ensures curValidIPs == 0 ==> r == Fallback && counter == old(counter)
      ensures curValidIPs > 0 && multi ==> r == All(bestIndexes[..curValidIPs]) && counter == old(counter)
      ensures curValidIPs > 0 && !multi ==>
                && totalWeight > 0 && counter == Ticket(old(counter), 1)
                && Pick(bestWeights[..curValidIPs], old(counter) % totalWeight, 0).Some?
                && Pick(bestWeights[..curValidIPs], old(counter) % totalWeight, 0).value < curValidIPs
                && r == One(bestIndexes[Pick(bestWeights[..curValidIPs], old(counter) % totalWeight, 0).value])
    {
      if curValidIPs == 0 {
        return Fallback;
      }
      var indexes := bestIndexes[..curValidIPs];
      if multi {
        return All(indexes);
      }
      var weights, total := bestWeights[..curValidIPs], totalWeight;
      AccGrows(weights, 0, |weights|);
      var current := counter;  // Add(1) - 1, both in 32 bits
      counter := (counter + 1) % TWO_TO_THE_32;
      var target := current % total;
      PickIsTotal(weights, target, 0);
      PickIsLater(weights, target, 0);
      var acc := 0;
      for i := 0 to |weights|
        invariant acc == Acc(weights, i) && Pick(weights, target, i) == Pick(weights, target, 0)
      {
        acc := acc + weights[i];
        if acc > target {
          return One(indexes[i]);
        }
      }
      assert false;
      r := Fallback;
    }
  }
}
