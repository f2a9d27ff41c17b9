/** probeMinimumReachableTTL of internal/core/desync.go: a binary search over TTLs whose probes may fail and
    are repeated. A dial is an oracle that may answer differently every time it is asked. */
module TtlProbe {
  import Bits

  /** Whether the dial with this TTL succeeds; the second argument counts the dials made before it. */
  type Dial = (int, nat) -> bool

  datatype Search = Search(low: int, high: int, found: int, dials: nat)

  /** At most left tries at one TTL: a failure moves low at once and goes on, a success moves high and stops. */
  function Tries(s: Search, mid: int, left: int, dial: Dial): Search
    decreases left
  {
    if left <= 0 then s
    else if dial(mid, s.dials) then s.(found := mid, high := mid - 1, dials := s.dials + 1)
    else Tries(s.(low := mid + 1, dials := s.dials + 1), mid, left - 1, dial)
  }

  function Mid(s: Search): int {
    (s.low + s.high) / 2
  }

  function Round(s: Search, attempts: int, dial: Dial): Search {
    Tries(s, Mid(s), attempts, dial)
  }

  function Size(s: Search): nat {
    if s.low <= s.high then s.high - s.low + 1 else 0
  }

  lemma {:induction false} TriesMoves(s: Search, mid: int, left: int, dial: Dial)
    ensures var t := Tries(s, mid, left, dial);
            && s.dials <= t.dials <= s.dials + (if left > 0 then left else 0)
            && (t.low == s.low || t.low == mid + 1) && (t.high == s.high || t.high == mid - 1)
            && (left > 0 ==> t.low == mid + 1 || t.high == mid - 1)
            && (t == s <==> left <= 0)
    decreases left
  {
    if left > 0 && !dial(mid, s.dials) {
      TriesMoves(s.(low := mid + 1, dials := s.dials + 1), mid, left - 1, dial);
    }
  }

  /** Every round at least halves what is left to search. */
  lemma RoundHalves(s: Search, attempts: int, dial: Dial)
    requires s.low <= s.high && attempts >= 1
    ensures Size(Round(s, attempts, dial)) <= Size(s) / 2
    ensures Round(s, attempts, dial).dials <= s.dials + attempts
  {
    TriesMoves(s, Mid(s), attempts, dial);
  }

  /** The loop makes progress exactly if there is an attempt to make: without one it would never end. */
  lemma RoundStalls(s: Search, attempts: int, dial: Dial)
    ensures Round(s, attempts, dial) == s <==> attempts <= 0
  {
    TriesMoves(s, Mid(s), attempts, dial);
  }

  /** The whole loop. */
  function Run(s: Search, attempts: int, dial: Dial): Search
    requires attempts >= 1
    decreases Size(s)
  {
    if s.low > s.high then s
    else
      RoundHalves(s, attempts, dial);
      Run(Round(s, attempts, dial), attempts, dial)
  }

  function Probe(maxTTL: int, attempts: int, dial: Dial): Search
    requires attempts >= 1
  {
    Run(Search(1, maxTTL, -1, 0), attempts, dial)
  }

  // ---- Any oracle --------------------------------------------------------------------------

  /** found is -1, or a TTL in range that a dial made before now has answered. */
  ghost predicate Answered(s: Search, maxTTL: int, dial: Dial) {
    s.found != -1 ==> 1 <= s.found <= maxTTL && exists n: nat :: n < s.dials && dial(s.found, n)
  }

  lemma {:induction false} TriesAnswered(s: Search, mid: int, left: int, maxTTL: int, dial: Dial)
    requires Answered(s, maxTTL, dial) && 1 <= mid <= maxTTL
    ensures Answered(Tries(s, mid, left, dial), maxTTL, dial)
    decreases left
  {
    if left > 0 && !dial(mid, s.dials) {
      var t := s.(low := mid + 1, dials := s.dials + 1);
      assert t.found == s.found;
      TriesAnswered(t, mid, left - 1, maxTTL, dial);
    }
  }

  lemma {:induction false} RunAnswered(s: Search, attempts: int, maxTTL: int, dial: Dial)
    requires attempts >= 1 && Answered(s, maxTTL, dial) && 1 <= s.low && s.high <= maxTTL
    ensures Answered(Run(s, attempts, dial), maxTTL, dial)
    decreases Size(s)
  {
    if s.low <= s.high {
      var mid := Mid(s);
      TriesAnswered(s, mid, attempts, maxTTL, dial);
      TriesMoves(s, mid, attempts, dial);
      RoundHalves(s, attempts, dial);
      RunAnswered(Round(s, attempts, dial), attempts, maxTTL, dial);
    }
  }

  lemma {:induction false} LenOrder(a: nat, b: nat)
    requires a <= b
    ensures Bits.Len(a) <= Bits.Len(b)
  {
    if a > 0 {
      LenOrder(a / 2, b / 2);
    }
  }

  lemma Times(a: int, n: int)
    ensures a * n + a == a * (n + 1)
  {
  }

  lemma TimesOrder(a: int, m: int, n: int)
    requires a >= 0 && m <= n
    ensures a * m <= a * n
  {
  }

  lemma {:induction false} RunIsShort(s: Search, attempts: int, dial: Dial)
    requires attempts >= 1
    ensures Run(s, attempts, dial).dials <= s.dials + attempts * Bits.Len(Size(s))
    decreases Size(s)
  {
    if s.low <= s.high {
      var t := Round(s, attempts, dial);
      RoundHalves(s, attempts, dial);
      RunIsShort(t, attempts, dial);
      LenOrder(Size(t), Size(s) / 2);
      TimesOrder(attempts, Bits.Len(Size(t)), Bits.Len(Size(s)) - 1);
      Times(attempts, Bits.Len(Size(s)) - 1);
    }
  }

  /** Whatever the network does: a result other than -1 was answered by some dial, and no more dials are
      made than the attempts for each of the bits of maxTTL. */
  lemma ProbeIsSound(maxTTL: int, attempts: int, dial: Dial)
    requires attempts >= 1
    ensures Answered(Probe(maxTTL, attempts, dial), maxTTL, dial)
    ensures maxTTL < 1 ==> Probe(maxTTL, attempts, dial) == Search(1, maxTTL, -1, 0)
    ensures maxTTL >= 1 ==> Probe(maxTTL, attempts, dial).dials <= attempts * Bits.Len(maxTTL)
  {
    var s := Search(1, maxTTL, -1, 0);
    RunAnswered(s, attempts, maxTTL, dial);
    RunIsShort(s, attempts, dial);
  }

  // ---- An oracle that loses probes ------------------------------------------------------------

  /** No probe below m is ever answered; those from m on may be lost. */
  ghost predicate Unreachable(m: int, dial: Dial) {
    forall ttl: int, n: nat :: 1 <= ttl < m ==> !dial(ttl, n)
  }

  /** The searches at which the rounds of a run begin. */
  function Rounds(s: Search, attempts: int, dial: Dial): seq<Search>
    requires attempts >= 1
    decreases Size(s)
  {
    if s.low > s.high then []
    else
      RoundHalves(s, attempts, dial);
      [s] + Rounds(Round(s, attempts, dial), attempts, dial)
  }

  /** In the round that begins at s nothing is lost that matters: above m the first dial is answered, at m
      some attempt is. */
  ghost predicate Heard(s: Search, m: int, attempts: int, dial: Dial) {
    && (Mid(s) > m ==> dial(Mid(s), s.dials))
    && (Mid(s) == m ==> exists n: nat :: s.dials <= n < s.dials + attempts && dial(m, n))
  }

  ghost predicate AllHeard(rounds: seq<Search>, m: int, attempts: int, dial: Dial) {
    forall i :: 0 <= i < |rounds| ==> Heard(rounds[i], m, attempts, dial)
  }

  /** What the tries at one TTL find. */
  lemma {:induction false} TriesFound(s: Search, mid: int, left: int, dial: Dial)
    ensures var t := Tries(s, mid, left, dial);
            if exists n: nat :: s.dials <= n < s.dials + left && dial(mid, n)
            then t.found == mid && t.high == mid - 1 && (t.low == s.low || t.low == mid + 1)
            else t.found == s.found && t.high == s.high && t.low == if left > 0 then mid + 1 else s.low
    ensures left > 0 && !dial(mid, s.dials) ==> Tries(s, mid, left, dial).low == mid + 1
    decreases left
  {
    if left > 0 && !dial(mid, s.dials) {
      var t := s.(low := mid + 1, dials := s.dials + 1);
      TriesFound(t, mid, left - 1, dial);
      TriesMoves(t, mid, left - 1, dial);
      assert forall n: nat :: s.dials <= n < s.dials + left && dial(mid, n) ==> t.dials <= n < t.dials + (left - 1);
    }
  }

  /** A search that has left m behind never comes back to it. */
  lemma {:induction false} PastMinimum(s: Search, m: int, attempts: int, dial: Dial)
    requires attempts >= 1 && m < s.low && s.found != m
    ensures Run(s, attempts, dial).found != m
    decreases Size(s)
  {
    if s.low <= s.high {
      RoundHalves(s, attempts, dial);
      TriesFound(s, Mid(s), attempts, dial);
      PastMinimum(Round(s, attempts, dial), m, attempts, dial);
    }
  }

  /** Below m nothing is answered any more. */
  lemma {:induction false} BelowMinimum(s: Search, m: int, attempts: int, dial: Dial)
    requires attempts >= 1 && Unreachable(m, dial) && 1 <= s.low && s.high < m
    ensures Run(s, attempts, dial).found == s.found && AllHeard(Rounds(s, attempts, dial), m, attempts, dial)
    decreases Size(s)
  {
    if s.low <= s.high {
      RoundHalves(s, attempts, dial);
      TriesFound(s, Mid(s), attempts, dial);
      BelowMinimum(Round(s, attempts, dial), m, attempts, dial);
      HeardFirst(s, Rounds(Round(s, attempts, dial), attempts, dial), m, attempts, dial);
    }
  }

  lemma HeardFirst(s: Search, rest: seq<Search>, m: int, attempts: int, dial: Dial)
    ensures AllHeard([s] + rest, m, attempts, dial) <==>
            Heard(s, m, attempts, dial) && AllHeard(rest, m, attempts, dial)
  {
    var all := [s] + rest;
    assert all[0] == s && forall i :: 0 <= i < |rest| ==> all[i + 1] == rest[i];
  }

  /** From a search that still has m in range, m is found exactly if every round is heard. */
  lemma {:induction false} AroundMinimum(s: Search, m: int, attempts: int, dial: Dial)
    requires attempts >= 1 && Unreachable(m, dial) && 1 <= s.low <= m <= s.high && s.found != m
    ensures Run(s, attempts, dial).found == m <==> AllHeard(Rounds(s, attempts, dial), m, attempts, dial)
    decreases Size(s)
  {
    var t := Round(s, attempts, dial);
    RoundHalves(s, attempts, dial);
    TriesFound(s, Mid(s), attempts, dial);
    HeardFirst(s, Rounds(t, attempts, dial), m, attempts, dial);
    if Mid(s) < m {
      AroundMinimum(t, m, attempts, dial);
    } else if Mid(s) == m && Heard(s, m, attempts, dial) {
      BelowMinimum(t, m, attempts, dial);
    } else if !Heard(s, m, attempts, dial) {
      PastMinimum(t, m, attempts, dial);
    } else {
      FirstAnswered(s, Mid(s), attempts, dial);
      AroundMinimum(t, m, attempts, dial);
    }
  }

  lemma FirstAnswered(s: Search, mid: int, left: int, dial: Dial)
    requires left >= 1 && dial(mid, s.dials)
    ensures Tries(s, mid, left, dial) == s.(found := mid, high := mid - 1, dials := s.dials + 1)
  {
  }

  /** The result the search is for: the first TTL from which on probes can be answered, if it is in range. */
  function Wanted(m: int, maxTTL: int): int {
    if m <= maxTTL then m else -1
  }

  /** Whatever the network loses, the search finds what it is for if and only if, in each of its rounds, the
      first dial above m is answered and some dial at m is. */
  lemma ProbeIsExactIff(maxTTL: int, attempts: int, m: int, dial: Dial)
    requires attempts >= 1 && m >= 1 && Unreachable(m, dial)
    ensures Probe(maxTTL, attempts, dial).found == Wanted(m, maxTTL) <==>
            AllHeard(Rounds(Search(1, maxTTL, -1, 0), attempts, dial), m, attempts, dial)
  {
    var s := Search(1, maxTTL, -1, 0);
    if m <= maxTTL {
      AroundMinimum(s, m, attempts, dial);
    } else {
      BelowMinimum(s, m, attempts, dial);
    }
  }

  // ---- A steady oracle ---------------------------------------------------------------------

  /** The dials answer always or never, and a longer way is reached whenever a shorter one is. */
  ghost predicate Steady(reach: int -> bool, dial: Dial) {
    && (forall ttl: int, n: nat :: dial(ttl, n) == reach(ttl))
    && (forall a: int, b: int :: 1 <= a <= b && reach(a) ==> reach(b))
  }

  /** The least TTL from ttl on that is reached, or the one after maxTTL. */
  function Least(ttl: int, maxTTL: int, reach: int -> bool): (m: int)
    requires ttl <= maxTTL + 1
    ensures ttl <= m <= maxTTL + 1
    ensures forall t :: ttl <= t < m ==> !reach(t)
    ensures m <= maxTTL ==> reach(m)
    decreases maxTTL - ttl
  {
    if ttl > maxTTL || reach(ttl) then ttl else Least(ttl + 1, maxTTL, reach)
  }

  /** ttl is what the function is named for. */
  ghost predicate IsMinimum(ttl: int, maxTTL: int, reach: int -> bool) {
    if ttl == -1 then forall t :: 1 <= t <= maxTTL ==> !reach(t)
    else 1 <= ttl <= maxTTL && reach(ttl) && forall t :: 1 <= t < ttl ==> !reach(t)
  }

  /** A steady network loses nothing, so the result is the least reachable TTL up to maxTTL, or -1 if there is
      none. */
  lemma ProbeIsMinimum(maxTTL: int, attempts: int, reach: int -> bool, dial: Dial)
    requires attempts >= 1 && Steady(reach, dial)
    ensures IsMinimum(Probe(maxTTL, attempts, dial).found, maxTTL, reach)
  {
    if maxTTL >= 1 {
      var m := Least(1, maxTTL, reach);
      var s := Search(1, maxTTL, -1, 0);
      var rounds := Rounds(s, attempts, dial);
      forall i | 0 <= i < |rounds| ensures Heard(rounds[i], m, attempts, dial) {
        MidsInRange(s, attempts, maxTTL, dial);
        assert Mid(rounds[i]) <= maxTTL;
        assert Mid(rounds[i]) == m ==> dial(m, rounds[i].dials);
      }
      ProbeIsExactIff(maxTTL, attempts, m, dial);
    }
  }

  lemma {:induction false} MidsInRange(s: Search, attempts: int, maxTTL: int, dial: Dial)
    requires attempts >= 1 && s.high <= maxTTL
    ensures forall i :: 0 <= i < |Rounds(s, attempts, dial)| ==> Mid(Rounds(s, attempts, dial)[i]) <= maxTTL
    decreases Size(s)
  {
    if s.low <= s.high {
      RoundHalves(s, attempts, dial);
      TriesMoves(s, Mid(s), attempts, dial);
      MidsInRange(Round(s, attempts, dial), attempts, maxTTL, dial);
    }
  }

  /** One lost probe is enough to miss the minimum, though the second attempt succeeds: the lost one has
      moved low already, so the search ends above TTL 1, which every dial reaches. */
  lemma LostProbeMissesMinimum()
    ensures var dial: Dial := (ttl, n) => n != 0;
            && Probe(3, 2, dial) == Search(3, 1, 2, 2) && (forall n: nat :: n > 0 ==> dial(1, n))
            && !AllHeard(Rounds(Search(1, 3, -1, 0), 2, dial), 1, 2, dial)
  {
    var dial: Dial := (ttl, n) => n != 0;
    var s := Search(1, 3, -1, 0);
    assert Tries(Search(3, 3, -1, 1), 2, 1, dial) == Search(3, 1, 2, 2);
    assert Tries(s, 2, 2, dial) == Search(3, 1, 2, 2);
    assert Run(Search(3, 1, 2, 2), 2, dial) == Search(3, 1, 2, 2);
    ProbeIsExactIff(3, 2, 1, dial);
  }

  // ---- The loop ----------------------------------------------------------------------------

  method ProbeMinimumReachableTTL(maxTTL: int, attempts: int, dial: Dial) returns (found: int, dials: nat)
    requires attempts >= 1
    ensures found == Probe(maxTTL, attempts, dial).found && dials == Probe(maxTTL, attempts, dial).dials
  {
    var low, high := 1, maxTTL;
    found, dials := -1, 0;
    while low <= high
      invariant Run(Search(low, high, found, dials), attempts, dial) == Probe(maxTTL, attempts, dial)
      decreases Size(Search(low, high, found, dials))
    {
      ghost var s := Search(low, high, found, dials);
      RoundHalves(s, attempts, dial);
      var mid := (low + high) / 2;
      var i := 0;
      while i < attempts
        invariant 0 <= i <= attempts && high == s.high && found == s.found
        invariant Tries(Search(low, high, found, dials), mid, attempts - i, dial) == Round(s, attempts, dial)
      {
        dials := dials + 1;
        if !dial(mid, dials - 1) {
          low := mid + 1;
          i := i + 1;
          continue;
        }
        found := mid;
        high := mid - 1;
        break;
      }
      assert Search(low, high, found, dials) == Round(s, attempts, dial);
    }
  }
}
