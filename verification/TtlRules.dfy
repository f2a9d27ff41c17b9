/** The TTL rule language of internal/core/desync.go: "threshold op value" with op '-' or '=', separated by
    optional semicolons. Numbers are unbounded. */
module TtlRules {
  import opened Collections

  datatype Rule = Rule(threshold: nat, op: char, val: nat)

  datatype Error =
    | MissingLeft(offset: nat)
    | MissingOperator(offset: nat)
    | InvalidOperator(offset: nat)
    | MissingRight(offset: nat)
    | Duplicate(threshold: nat, offset: nat)
    | NoMatch

  datatype Result<+T> = Ok(value: T) | Err(error: Error)

  predicate IsDigit(c: char) {
    '0' <= c <= '9'
  }

  function DigitOf(c: char): nat
    requires IsDigit(c)
  {
    c as int - '0' as int
  }

  /** The first index from i on that holds no digit. */
  function DigitsEnd(s: string, i: nat): (j: nat)
    requires i <= |s|
    ensures i <= j <= |s| && (forall k :: i <= k < j ==> IsDigit(s[k])) && (j < |s| ==> !IsDigit(s[j]))
    decreases |s| - i
  {
    if i < |s| && IsDigit(s[i]) then DigitsEnd(s, i + 1) else i
  }

  /** The number that the digits in [i, j) spell. */
  function Number(s: string, i: nat, j: nat): nat
    requires i <= j <= |s| && forall k :: i <= k < j ==> IsDigit(s[k])
    decreases j
  {
    if i == j then 0 else Number(s, i, j - 1) * 10 + DigitOf(s[j - 1])
  }

  /** One rule at offset i, and the offset behind it. */
  function ScanRule(s: string, i: nat): (r: Result<(Rule, nat)>)
    requires i < |s|
    ensures r.Ok? ==> i < r.value.1 <= |s|
  {
    var j := DigitsEnd(s, i);
    if i == j then Err(MissingLeft(i))
    else if j >= |s| then Err(MissingOperator(j))
    else if s[j] != '-' && s[j] != '=' then Err(InvalidOperator(j))
    else
      var k := DigitsEnd(s, j + 1);
      if j + 1 == k then Err(MissingRight(k)) else Ok((Rule(Number(s, i, j), s[j], Number(s, j + 1, k)), k))
  }

  function Thresholds(rules: seq<Rule>): set<nat> {
    set r | r in rules :: r.threshold
  }

  /** The rules from offset i on, behind those read before. */
  function ScanAll(s: string, i: nat, rules: seq<Rule>): Result<seq<Rule>>
    requires i <= |s|
    decreases |s| - i
  {
    if i == |s| then Ok(rules)
    else
      match ScanRule(s, i)
      case Err(e) => Err(e)
      case Ok((r, next)) =>
        if r.threshold in Thresholds(rules) then Err(Duplicate(r.threshold, i))
        else ScanAll(s, if next < |s| && s[next] == ';' then next + 1 else next, rules + [r])
  }

  // ---- Sorting -------------------------------------------------------------------------------

  predicate Distinct(rules: seq<Rule>) {
    forall i, j :: 0 <= i < j < |rules| ==> rules[i].threshold != rules[j].threshold
  }

  predicate Descending(rules: seq<Rule>) {
    forall i, j :: 0 <= i < j < |rules| ==> rules[i].threshold > rules[j].threshold
  }

  function Place(rules: seq<Rule>, r: Rule): seq<Rule> {
    if rules == [] || rules[|rules| - 1].threshold >= r.threshold then rules + [r]
    else Place(rules[..|rules| - 1], r) + [rules[|rules| - 1]]
  }

  /** slices.SortFunc by descending threshold. */
  function Sort(rules: seq<Rule>): seq<Rule> {
    if rules == [] then [] else Place(Sort(rules[..|rules| - 1]), rules[|rules| - 1])
  }

  lemma LastRule(rules: seq<Rule>)
    requires rules != []
    ensures multiset(rules) == multiset(rules[..|rules| - 1]) + multiset{rules[|rules| - 1]}
  {
    assert rules == rules[..|rules| - 1] + [rules[|rules| - 1]];
  }

  lemma {:induction false} PlaceAdds(rules: seq<Rule>, r: Rule)
    ensures multiset(Place(rules, r)) == multiset(rules) + multiset{r}
  {
    if rules != [] && rules[|rules| - 1].threshold < r.threshold {
      PlaceAdds(rules[..|rules| - 1], r);
      LastRule(rules);
    }
  }

  lemma SameMembers(a: seq<Rule>, b: seq<Rule>, r: Rule)
    requires multiset(a) == multiset(b)
    ensures r in a <==> r in b
  {
    assert r in a <==> r in multiset(a);
    assert r in b <==> r in multiset(b);
  }

  lemma PlaceMembers(rules: seq<Rule>, r: Rule)
    ensures forall q :: q in Place(rules, r) ==> q in rules || q == r
  {
    PlaceAdds(rules, r);
    forall q | q in Place(rules, r) ensures q in rules || q == r {
      assert q in multiset(Place(rules, r));
      assert q in multiset(rules) || q == r;
    }
  }

  lemma {:induction false} PlaceSorts(rules: seq<Rule>, r: Rule)
    requires Descending(rules) && forall q :: q in rules ==> q.threshold != r.threshold
    ensures Descending(Place(rules, r))
  {
    if rules != [] && rules[|rules| - 1].threshold < r.threshold {
      var init, last := rules[..|rules| - 1], rules[|rules| - 1];
      assert forall q :: q in init ==> q in rules;
      PlaceSorts(init, r);
      PlaceMembers(init, r);
      var t := Place(init, r);
      forall i | 0 <= i < |t| ensures t[i].threshold > last.threshold {
        assert t[i] in init || t[i] == r;
      }
    }
  }

  lemma {:induction false} SortAdds(rules: seq<Rule>)
    ensures multiset(Sort(rules)) == multiset(rules)
  {
    if rules != [] {
      var init, r := rules[..|rules| - 1], rules[|rules| - 1];
      SortAdds(init);
      PlaceAdds(Sort(init), r);
      LastRule(rules);
    }
  }

  lemma {:induction false} SortSorts(rules: seq<Rule>)
    requires Distinct(rules)
    ensures Descending(Sort(rules))
  {
    if rules != [] {
      var init, r := rules[..|rules| - 1], rules[|rules| - 1];
      SortSorts(init);
      SortAdds(init);
      forall q | q in Sort(init) ensures q.threshold != r.threshold {
        SameMembers(Sort(init), init, q);
        var i :| 0 <= i < |init| && init[i] == q;
        assert rules[i] == q;
      }
      PlaceSorts(Sort(init), r);
    }
  }

  lemma TailRules(a: seq<Rule>)
    requires a != []
    ensures multiset(a[1..]) == multiset(a) - multiset{a[0]}
  {
    assert a == [a[0]] + a[1..];
  }

  /** Both begin with the rule of the greatest threshold. */
  lemma SameHead(a: seq<Rule>, b: seq<Rule>)
    requires Descending(a) && Descending(b) && a != [] && b != [] && a[0] in b && b[0] in a
    ensures a[0] == b[0]
  {
    var i :| 0 <= i < |b| && b[i] == a[0];
    var j :| 0 <= j < |a| && a[j] == b[0];
  }

  /** There is one way to order rules of distinct thresholds, so any sort gives this result. */
  lemma {:induction false} DescendingUnique(a: seq<Rule>, b: seq<Rule>)
    requires Descending(a) && Descending(b) && multiset(a) == multiset(b)
    ensures a == b
  {
    SameLength(a, b);
    if a != [] {
      SameMembers(a, b, a[0]);
      SameMembers(a, b, b[0]);
      SameHead(a, b);
      TailRules(a);
      TailRules(b);
      DescendingUnique(a[1..], b[1..]);
      SameCons(a, b);
    }
  }

  lemma SameLength(a: seq<Rule>, b: seq<Rule>)
    requires multiset(a) == multiset(b)
    ensures |a| == |b|
  {
    assert |multiset(a)| == |a| && |multiset(b)| == |b|;
  }

  lemma SameCons(a: seq<Rule>, b: seq<Rule>)
    requires a != [] && b != [] && a[0] == b[0] && a[1..] == b[1..]
    ensures a == b
  {
    assert a == [a[0]] + a[1..] && b == [b[0]] + b[1..];
  }

  /** parseTTLRules */
  function Parse(s: string): Result<seq<Rule>> {
    match ScanAll(s, 0, [])
    case Ok(rules) => Ok(Sort(rules))
    case Err(e) => Err(e)
  }

  // ---- Printing ------------------------------------------------------------------------------

  function Digit(d: nat): (c: char)
    requires d < 10
    ensures IsDigit(c) && DigitOf(c) == d
  {
    '0' + d as char
  }

  function Show(n: nat): (t: string)
    ensures |t| > 0
  {
    if n < 10 then [Digit(n)] else Show(n / 10) + [Digit(n % 10)]
  }

  predicate Printable(r: Rule) {
    r.op == '-' || r.op == '='
  }

  function ShowRule(r: Rule): (t: string)
    ensures |t| > 0
  {
    Show(r.threshold) + ([r.op] + Show(r.val))
  }

  function Print(rules: seq<Rule>): string {
    if rules == [] then ""
    else if |rules| == 1 then ShowRule(rules[0])
    else ShowRule(rules[0]) + ([';'] + Print(rules[1..]))
  }

  lemma {:induction false} ShownNumber(s: string, i: nat, n: nat)
    requires Holds(s, i, Show(n))
    ensures forall k :: i <= k < i + |Show(n)| ==> IsDigit(s[k])
    ensures Number(s, i, i + |Show(n)|) == n
  {
    if n < 10 {
      HoldsOne(s, i, Digit(n));
      assert Number(s, i, i) == 0;
    } else {
      HoldsSplit(s, i, Show(n / 10), [Digit(n % 10)]);
      ShownNumber(s, i, n / 10);
      HoldsOne(s, i + |Show(n / 10)|, Digit(n % 10));
    }
  }

  lemma {:induction false} DigitsEndAt(s: string, i: nat, j: nat)
    requires i <= j <= |s| && (forall k :: i <= k < j ==> IsDigit(s[k])) && (j < |s| ==> !IsDigit(s[j]))
    ensures DigitsEnd(s, i) == j
    decreases j - i
  {
    if i < j {
      DigitsEndAt(s, i + 1, j);
    }
  }

  lemma ScanShown(s: string, i: nat, r: Rule)
    requires Printable(r) && Holds(s, i, ShowRule(r))
    requires i + |ShowRule(r)| < |s| ==> !IsDigit(s[i + |ShowRule(r)|])
    ensures ScanRule(s, i) == Ok((r, i + |ShowRule(r)|))
  {
    var j, k := i + |Show(r.threshold)|, i + |ShowRule(r)|;
    HoldsSplit(s, i, Show(r.threshold), [r.op] + Show(r.val));
    HoldsSplit(s, j, [r.op], Show(r.val));
    ShownNumber(s, i, r.threshold);
    ShownNumber(s, j + 1, r.val);
    HoldsOne(s, j, r.op);
    DigitsEndAt(s, i, j);
    DigitsEndAt(s, j + 1, k);
  }

  lemma DistinctHead(rules: seq<Rule>, r: Rule, rest: seq<Rule>)
    requires Distinct(rules + ([r] + rest))
    ensures r.threshold !in Thresholds(rules) && rules + [r] + rest == rules + ([r] + rest)
  {
    var all := rules + ([r] + rest);
    assert all[|rules|] == r;
    forall q | q in rules ensures q.threshold != r.threshold {
      var m :| 0 <= m < |rules| && rules[m] == q;
      assert all[m] == q;
    }
  }

  lemma {:induction false} ScanPrinted(s: string, i: nat, rest: seq<Rule>, rules: seq<Rule>)
    requires Holds(s, i, Print(rest)) && i + |Print(rest)| == |s|
    requires Distinct(rules + rest) && forall r :: r in rest ==> Printable(r)
    ensures ScanAll(s, i, rules) == Ok(rules + rest)
    decreases |rest|
  {
    if rest == [] {
      assert rules + rest == rules;
    } else {
      var r, tail := rest[0], rest[1..];
      assert rest == [r] + tail && Printable(r);
      DistinctHead(rules, r, tail);
      if tail == [] {
        ScanShown(s, i, r);
        assert rules + rest == rules + [r];
      } else {
        var k := i + |ShowRule(r)|;
        HoldsSplit(s, i, ShowRule(r), [';'] + Print(tail));
        HoldsSplit(s, k, [';'], Print(tail));
        HoldsOne(s, k, ';');
        ScanShown(s, i, r);
        ScanPrinted(s, k + 1, tail, rules + [r]);
      }
    }
  }

  /** Printing any rules of distinct thresholds and parsing them gives the same rules, sorted. */
  lemma RoundTrip(rules: seq<Rule>)
    requires Distinct(rules) && forall r :: r in rules ==> Printable(r)
    ensures Parse(Print(rules)) == Ok(Sort(rules))
    ensures Descending(Sort(rules)) && multiset(Sort(rules)) == multiset(rules)
  {
    assert [] + rules == rules;
    ScanPrinted(Print(rules), 0, rules, []);
    SortSorts(rules);
    SortAdds(rules);
  }

  /** The order in which the rules are written does not matter. */
  lemma OrderIsFree(a: seq<Rule>, b: seq<Rule>)
    requires Distinct(a) && Distinct(b) && multiset(a) == multiset(b) && forall r :: r in a ==> Printable(r)
    ensures Parse(Print(a)) == Parse(Print(b))
  {
    forall r | r in b ensures Printable(r) {
      SameMembers(a, b, r);
    }
    RoundTrip(a);
    RoundTrip(b);
    DescendingUnique(Sort(a), Sort(b));
  }

  // ---- What is accepted ------------------------------------------------------------------------

  lemma {:induction false} ScannedIsDistinct(s: string, i: nat, rules: seq<Rule>)
    requires i <= |s| && Distinct(rules) && forall r :: r in rules ==> Printable(r)
    ensures var t := ScanAll(s, i, rules);
            t.Ok? ==> Distinct(t.value) && forall r :: r in t.value ==> Printable(r)
    decreases |s| - i
  {
    if i < |s| && ScanRule(s, i).Ok? {
      var (r, next) := ScanRule(s, i).value;
      if r.threshold !in Thresholds(rules) {
        assert forall m :: 0 <= m < |rules| ==> rules[m] in rules && rules[m].threshold in Thresholds(rules);
        ScannedIsDistinct(s, if next < |s| && s[next] == ';' then next + 1 else next, rules + [r]);
      }
    }
  }

  /** Whatever is accepted comes out in strictly descending order, and printing it and parsing it again
      changes nothing: every accepted text means the same as its printed form. */
  lemma ParsedIsNormal(s: string)
    requires Parse(s).Ok?
    ensures Descending(Parse(s).value)
    ensures Parse(Print(Parse(s).value)) == Parse(s)
  {
    ScannedIsDistinct(s, 0, []);
    var rules := ScanAll(s, 0, []).value;
    SortSorts(rules);
    SortAdds(rules);
    var t := Sort(rules);
    forall r | r in t ensures Printable(r) {
      SameMembers(t, rules, r);
    }
    RoundTrip(t);
    DescendingUnique(Sort(t), t);
  }

  // ---- Evaluation --------------------------------------------------------------------------

  /** The function that genTTLCalcFunc returns. */
  datatype Calc = Decrement | Rules(rules: seq<Rule>)

  function Effect(r: Rule, ttl: int): int {
    if r.op == '-' then ttl - r.val else r.val
  }

  /** The first rule whose threshold does not exceed the TTL. */
  function Eval(rules: seq<Rule>, ttl: int): Result<int> {
    if rules == [] then Err(NoMatch)
    else if ttl >= rules[0].threshold then Ok(Effect(rules[0], ttl))
    else Eval(rules[1..], ttl)
  }

  /** r is the rule of rules with the greatest threshold up to ttl. */
  ghost predicate Applies(rules: seq<Rule>, r: Rule, ttl: int) {
    r in rules && r.threshold <= ttl && forall q :: q in rules && q.threshold <= ttl ==> q.threshold <= r.threshold
  }

  /** On sorted rules the first match is the greatest threshold, and there is none only if all exceed ttl. */
  lemma {:induction false} EvalApplies(rules: seq<Rule>, ttl: int)
    requires Descending(rules)
    ensures forall r :: Applies(rules, r, ttl) ==> Eval(rules, ttl) == Ok(Effect(r, ttl))
    ensures Eval(rules, ttl) == Err(NoMatch) <==> forall q :: q in rules ==> q.threshold > ttl
    ensures Eval(rules, ttl).Err? ==> Eval(rules, ttl) == Err(NoMatch)
  {
    if rules != [] {
      assert rules[0] in rules && forall q :: q in rules[1..] ==> q in rules;
      assert forall q :: q in rules ==> q == rules[0] || q in rules[1..];
      if ttl < rules[0].threshold {
        EvalApplies(rules[1..], ttl);
        forall r | Applies(rules, r, ttl) ensures Applies(rules[1..], r, ttl) {
        }
      } else {
        forall r | Applies(rules, r, ttl) ensures r == rules[0] {
          var i :| 0 <= i < |rules| && rules[i] == r;
        }
      }
    }
  }

  /** genTTLCalcFunc and the call of its result, for rules in any order: the rule with the greatest
      threshold up to ttl decides, and there is an error exactly if no threshold is that low. */
  lemma WrittenRulesApply(rules: seq<Rule>, ttl: int)
    requires Distinct(rules) && forall r :: r in rules ==> Printable(r)
    ensures Parse(Print(rules)).Ok?
    ensures forall r :: Applies(rules, r, ttl) ==> Eval(Parse(Print(rules)).value, ttl) == Ok(Effect(r, ttl))
    ensures Eval(Parse(Print(rules)).value, ttl).Err? <==> forall q :: q in rules ==> q.threshold > ttl
  {
    RoundTrip(rules);
    var t := Sort(rules);
    EvalApplies(t, ttl);
    forall r ensures r in rules <==> r in t {
      SameMembers(rules, t, r);
    }
    forall r | Applies(rules, r, ttl) ensures Applies(t, r, ttl) {
    }
  }

  // ---- The loops -------------------------------------------------------------------------------

  method SkipDigits(s: string, start: nat) returns (i: nat, n: nat)
    requires start <= |s|
    ensures i == DigitsEnd(s, start) && n == Number(s, start, i)
  {
    i := start;
    while i < |s| && IsDigit(s[i])
      invariant start <= i <= |s| && DigitsEnd(s, i) == DigitsEnd(s, start)
    {
      i := i + 1;
    }
    n := 0;
    for k := start to i
      invariant n == Number(s, start, k)
    {
      n := n * 10 + DigitOf(s[k]);
    }
  }

  /** One round of the scanner, up to the check for a repeated threshold. */
  method ReadRule(s: string, thresholdStart: nat) returns (r: Result<(Rule, nat)>)
    requires thresholdStart < |s|
    ensures r == ScanRule(s, thresholdStart)
  {
    var i, a := SkipDigits(s, thresholdStart);
    if thresholdStart == i {
      return Err(MissingLeft(thresholdStart));
    }
    if i >= |s| {
      return Err(MissingOperator(i));
    }
    var op := s[i];
    if op != '-' && op != '=' {
      return Err(InvalidOperator(i));
    }
    var valStart := i + 1;
    var k, val := SkipDigits(s, valStart);
    if valStart == k {
      return Err(MissingRight(valStart));
    }
    return Ok((Rule(a, op, val), k));
  }

  method ParseTTLRules(s: string) returns (r: Result<seq<Rule>>)
    ensures r == Parse(s)
  {
    var rules, seen, i: nat := [], {}, 0;
    while i < |s|
      invariant i <= |s| && seen == Thresholds(rules) && ScanAll(s, i, rules) == ScanAll(s, 0, [])
      decreases |s| - i
    {
      var next := ReadRule(s, i);
      if next.Err? {
        return Err(next.error);
      }
      var rule := next.value.0;
      if rule.threshold in seen {
        return Err(Duplicate(rule.threshold, i));
      }
      ThresholdsSnoc(rules, rule);
      seen := seen + {rule.threshold};
      rules := rules + [rule];
      i := next.value.1;
      if i < |s| && s[i] == ';' {
        i := i + 1;
      }
    }
    return Ok(Sort(rules));
  }

  lemma ThresholdsSnoc(rules: seq<Rule>, r: Rule)
    ensures Thresholds(rules + [r]) == Thresholds(rules) + {r.threshold}
  {
    assert forall q :: q in rules + [r] <==> q in rules || q == r;
  }

  method GenTTLCalcFunc(rulesStr: string) returns (r: Result<Calc>)
    ensures rulesStr == "" ==> r == Ok(Decrement)
    ensures rulesStr != "" && Parse(rulesStr).Ok? ==> r == Ok(Rules(Parse(rulesStr).value))
    ensures rulesStr != "" && Parse(rulesStr).Err? ==> r == Err(Parse(rulesStr).error)
  {
    if rulesStr == "" {
      return Ok(Decrement);
    }
    var rules := ParseTTLRules(rulesStr);
    match rules {
      case Ok(rs) => r := Ok(Rules(rs));
      case Err(e) => r := Err(e);
    }
  }

  /** The call of the generated function. */
  method Calculate(fn: Calc, ttl: int) returns (r: Result<int>)
    ensures fn.Decrement? ==> r == Ok(ttl - 1)
    ensures fn.Rules? ==> r == Eval(fn.rules, ttl)
  {
    match fn {
      case Decrement =>
        r := Ok(ttl - 1);
      case Rules(rules) =>
        for i := 0 to |rules|
          invariant Eval(rules[i..], ttl) == Eval(rules, ttl)
        {
          if ttl >= rules[i].threshold {
            if rules[i].op == '-' {
              return Ok(ttl - rules[i].val);
            }
            return Ok(rules[i].val);
          }
          assert rules[i..][1..] == rules[i + 1..];
        }
        r := Err(NoMatch);
    }
  }
}
