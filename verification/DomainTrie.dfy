/** The domain matcher of internal/addrtrie/domain.go: a trie over labels from right to left, proved
    against a list of patterns. */
module DomainTrie {
  import opened Collections
  import opened Wrappers

  const DOT := '.'

  /** strings.LastIndexByte of '.' in the first n characters, or -1. */
  function LastDot(s: string, n: nat): (j: int)
    requires n <= |s|
    ensures -1 <= j < n
  {
    if n == 0 then -1
    else if s[n - 1] == DOT then n - 1
    else LastDot(s, n - 1)
  }

  lemma {:induction false} LastDotFacts(s: string, n: nat)
    requires n <= |s|
    ensures LastDot(s, n) >= 0 ==> s[LastDot(s, n)] == DOT
    ensures forall k :: LastDot(s, n) < k < n ==> s[k] != DOT
  {
    if n > 0 && s[n - 1] != DOT {
      LastDotFacts(s, n - 1);
    }
  }

  /** A list of labels, the rightmost label of a name first. */
  type Path = seq<string>

  /** Without the last label. */
  function Above(p: Path): Path
    requires p != []
  {
    p[..|p| - 1]
  }

  function Leftmost(p: Path): string
    requires p != []
  {
    p[|p| - 1]
  }

  /** The labels in the first n characters as a split at every dot gives them, put below p. */
  function Split(s: string, n: nat, p: Path): (q: Path)
    requires n <= |s|
    ensures q != []
    decreases n
  {
    var j := LastDot(s, n);
    if j == -1 then p + [s[..n]] else Split(s, j, p + [s[j + 1..n]])
  }

  /** The labels that the two loops read: they stop at an empty rest, so a name that begins with a dot
      loses its first, empty label. */
  function Labels(s: string, n: nat, p: Path): Path
    requires n <= |s|
    decreases n
  {
    var j := LastDot(s, n);
    if n == 0 then p
    else if j == -1 then p + [s[..n]]
    else Labels(s, j, p + [s[j + 1..n]])
  }

  /** The whole name, with every label. */
  function Full(name: string): (p: Path)
    ensures p != []
  {
    Split(name, |name|, [])
  }

  function Read(name: string): Path {
    Labels(name, |name|, [])
  }

  /** The labels of p joined by dots. */
  function Join(p: Path): string {
    if p == [] then "" else Leftmost(p) + After(Above(p))
  }

  /** What follows a label: a dot and the labels above it, if there are any. */
  function After(p: Path): string {
    if p == [] then "" else [DOT] + (Leftmost(p) + After(Above(p)))
  }

  predicate DotFree(p: Path) {
    p != [] ==> DOT !in Leftmost(p) && DotFree(Above(p))
  }

  lemma JoinSnoc(p: Path, l: string)
    ensures Join(p + [l]) == l + After(p) && After(p + [l]) == [DOT] + (l + After(p))
    ensures DotFree(p + [l]) <==> DotFree(p) && DOT !in l
  {
    assert Above(p + [l]) == p && Leftmost(p + [l]) == l;
  }

  lemma {:induction false} SplitJoins(s: string, n: nat, p: Path)
    requires n <= |s|
    ensures Join(Split(s, n, p)) == s[..n] + After(p)
    decreases n
  {
    var j := LastDot(s, n);
    if j == -1 {
      JoinSnoc(p, s[..n]);
    } else {
      var l := s[j + 1..n];
      DotAt(s, n);
      JoinSnoc(p, l);
      SplitJoins(s, j, p + [l]);
      CutAt(s, j, n, After(p));
    }
  }

  lemma {:induction false} SplitIsDotFree(s: string, n: nat, p: Path)
    requires n <= |s| && DotFree(p)
    ensures DotFree(Split(s, n, p))
    decreases n
  {
    var j := LastDot(s, n);
    AfterLastDot(s, n);
    if j == -1 {
      JoinSnoc(p, s[..n]);
    } else {
      JoinSnoc(p, s[j + 1..n]);
      SplitIsDotFree(s, j, p + [s[j + 1..n]]);
    }
  }

  lemma AfterLastDot(s: string, n: nat)
    requires n <= |s|
    ensures DOT !in s[LastDot(s, n) + 1..n]
    ensures LastDot(s, n) == -1 ==> DOT !in s[..n]
  {
    LastDotFacts(s, n);
  }

  lemma DotAt(s: string, n: nat)
    requires n <= |s| && LastDot(s, n) >= 0
    ensures s[LastDot(s, n)] == DOT
  {
    LastDotFacts(s, n);
  }

  lemma CutAt(s: string, j: nat, n: nat, tail: string)
    requires j < n <= |s|
    ensures s[..j] + ([s[j]] + (s[j + 1..n] + tail)) == s[..n] + tail
  {
  }

  /** Full takes a name apart: its labels hold no dot and joined by dots they are the name. */
  lemma FullJoins(name: string)
    ensures Join(Full(name)) == name && DotFree(Full(name))
  {
    SplitJoins(name, |name|, []);
    SplitIsDotFree(name, |name|, []);
    assert name[..|name|] == name;
  }

  lemma LeftmostOfSnoc(p: Path, l: string)
    ensures Leftmost(p + [l]) == l && Above(p + [l]) == p
  {
  }

  /** The labels without the leftmost, as the loops come by them. */
  function Parents(s: string, n: nat, p: Path): Path
    requires n <= |s|
    decreases n
  {
    var j := LastDot(s, n);
    if j == -1 then p else Parents(s, j, p + [s[j + 1..n]])
  }

  lemma {:induction false} ParentsAreAbove(s: string, n: nat, p: Path)
    requires n <= |s|
    ensures Above(Split(s, n, p)) == Parents(s, n, p)
    decreases n
  {
    var j := LastDot(s, n);
    if j == -1 {
      LeftmostOfSnoc(p, s[..n]);
    } else {
      ParentsAreAbove(s, j, p + [s[j + 1..n]]);
    }
  }

  /** One round of both loops moves a label from the rest to the path. */
  lemma OneRound(s: string, i: nat, p: Path, j: int, lab: string)
    requires i < |s| && j == LastDot(s, i + 1) && lab == if j == -1 then s[..i + 1] else s[j + 1..i + 1]
    ensures Labels(s, i + 1, p) == Labels(s, if j == -1 then 0 else j, p + [lab])
    ensures Parents(s, i + 1, p) == if j == -1 then p else Parents(s, j, p + [lab])
  {
  }

  /** What is read is the whole name without an empty leftmost label. */
  lemma {:induction false} LabelsAreSplit(s: string, n: nat, p: Path)
    requires n <= |s|
    ensures Labels(s, n, p) == if Leftmost(Split(s, n, p)) == "" then Above(Split(s, n, p)) else Split(s, n, p)
    decreases n
  {
    var j := LastDot(s, n);
    if j == -1 {
      LeftmostOfSnoc(p, s[..n]);
    } else {
      LabelsAreSplit(s, j, p + [s[j + 1..n]]);
    }
  }

  /** An empty leftmost label is there exactly if the name is empty or begins with a dot. */
  lemma {:induction false} LeftmostIsEmpty(s: string, n: nat, p: Path)
    requires n <= |s|
    ensures Leftmost(Split(s, n, p)) == "" <==> n == 0 || s[0] == DOT
    decreases n
  {
    var j := LastDot(s, n);
    if j == -1 {
      LeftmostOfSnoc(p, s[..n]);
      LastDotFacts(s, n);
    } else {
      DotAt(s, n);
      LeftmostIsEmpty(s, j, p + [s[j + 1..n]]);
    }
  }

  // ---- What a list of patterns means -----------------------------------------------------------

  /** What Add makes of a pattern. */
  datatype Pattern = Pattern(labels: Path, wildcard: bool, exact: bool)

  /** None is Add's error. */
  function Parse(pattern: string): Option<Pattern> {
    if pattern == "*" then Some(Pattern([], true, false))
    else if DOT !in pattern then None
    else if "*." <= pattern then Some(Pattern(Read(pattern[2..]), true, false))
    else if "*" <= pattern then Some(Pattern(Read(pattern[1..]), true, true))
    else Some(Pattern(Read(pattern), false, true))
  }

  /** The values for whole names and for everything below a name. */
  datatype Table<T> = Table(exact: map<Path, T>, wild: map<Path, T>)

  function AddTo<T>(t: Table<T>, p: Pattern, v: T): Table<T> {
    Table(if p.exact then t.exact[p.labels := v] else t.exact, if p.wildcard then t.wild[p.labels := v] else t.wild)
  }

  /** The wildcard with the most labels at or above p. */
  function Nearest<T>(wild: map<Path, T>, p: Path): Option<T> {
    if p in wild then Some(wild[p])
    else if p == [] then None
    else Nearest(wild, Above(p))
  }

  /** The exact entry if there is one, else the wildcard with the most labels that leaves at least one
      label of the name uncovered. */
  function Lookup<T>(t: Table<T>, domain: string): Option<T> {
    if Read(domain) in t.exact then Some(t.exact[Read(domain)]) else Nearest(t.wild, Above(Full(domain)))
  }

  // ---- A linear scan over the patterns ------------------------------------------------------------

  datatype Rule<T> = Rule(pattern: Pattern, value: T)

  function Replay<T>(rules: seq<Rule<T>>): Table<T> {
    if rules == [] then Table(map[], map[])
    else AddTo(Replay(rules[..|rules| - 1]), rules[|rules| - 1].pattern, rules[|rules| - 1].value)
  }

  /** The pattern names the domain itself. */
  predicate IsExactly(p: Pattern, domain: string) {
    p.exact && p.labels == Read(domain)
  }

  /** The pattern covers the domain as a proper suffix. */
  predicate IsAbove(p: Pattern, domain: string) {
    p.wildcard && p.labels <= Above(Full(domain))
  }

  /** The last rule that names the domain. */
  function ScanExact<T>(rules: seq<Rule<T>>, domain: string): Option<T> {
    if rules == [] then None
    else
      var r := rules[|rules| - 1];
      if IsExactly(r.pattern, domain) then Some(r.value) else ScanExact(rules[..|rules| - 1], domain)
  }

  /** The last of the wildcard rules above the domain with the most labels. */
  function ScanAbove<T>(rules: seq<Rule<T>>, domain: string): Option<Rule<T>> {
    if rules == [] then None
    else
      var best, r := ScanAbove(rules[..|rules| - 1], domain), rules[|rules| - 1];
      if IsAbove(r.pattern, domain) && (best.None? || |r.pattern.labels| >= |best.value.pattern.labels|)
      then Some(r)
      else best
  }

  function Scan<T>(rules: seq<Rule<T>>, domain: string): Option<T> {
    if ScanExact(rules, domain).Some? then ScanExact(rules, domain)
    else match ScanAbove(rules, domain) case Some(r) => Some(r.value) case None => None
  }

  lemma {:induction false} ExactIsScan<T>(rules: seq<Rule<T>>, domain: string)
    ensures ScanExact(rules, domain) ==
            if Read(domain) in Replay(rules).exact then Some(Replay(rules).exact[Read(domain)]) else None
  {
    if rules != [] {
      ExactIsScan(rules[..|rules| - 1], domain);
    }
  }

  /** best is the wildcard with the most labels at or above p. */
  ghost predicate BestAbove<T>(wild: map<Path, T>, p: Path, best: Option<Rule<T>>) {
    match best
    case None => forall k :: 0 <= k <= |p| ==> p[..k] !in wild
    case Some(r) =>
      var b := r.pattern.labels;
      && b <= p && b in wild && wild[b] == r.value
      && forall k :: |b| < k <= |p| ==> p[..k] !in wild
  }

  lemma {:induction false} AboveIsScan<T>(rules: seq<Rule<T>>, domain: string)
    ensures BestAbove(Replay(rules).wild, Above(Full(domain)), ScanAbove(rules, domain))
  {
    if rules != [] {
      AboveIsScan(rules[..|rules| - 1], domain);
      var p := Above(Full(domain));
      assert forall k :: 0 <= k <= |p| ==> |p[..k]| == k;
    }
  }

  lemma {:induction false} BestIsNearest<T>(wild: map<Path, T>, p: Path, best: Option<Rule<T>>)
    requires BestAbove(wild, p, best)
    ensures Nearest(wild, p) == if best.Some? then Some(best.value.value) else None
  {
    assert p[..|p|] == p;
    if p in wild {
      assert |best.value.pattern.labels| == |p| ==> best.value.pattern.labels == p;
    } else if p != [] {
      assert forall k :: 0 <= k <= |Above(p)| ==> Above(p)[..k] == p[..k];
      if best.Some? {
        var b := best.value.pattern.labels;
        assert |b| == |p| ==> b == p;
        assert |b| < |p| ==> b <= Above(p);
      }
      BestIsNearest(wild, Above(p), best);
    }
  }

  /** Looking up in the tables is scanning the patterns: the last exact one, else the last among the
      proper wildcards with the most labels. */
  lemma LookupIsScan<T>(rules: seq<Rule<T>>, domain: string)
    ensures Lookup(Replay(rules), domain) == Scan(rules, domain)
  {
    ExactIsScan(rules, domain);
    AboveIsScan(rules, domain);
    BestIsNearest(Replay(rules).wild, Above(Full(domain)), ScanAbove(rules, domain));
  }

  /** "*.x" never names x, and covers x exactly if x has an empty first label, which the loops do not read. */
  lemma StarDotCovers(name: string)
    ensures Parse("*." + name) == Some(Pattern(Read(name), true, false))
    ensures !IsExactly(Parse("*." + name).value, name)
    ensures IsAbove(Parse("*." + name).value, name) <==> name == "" || name[0] == DOT
  {
    var p := "*." + name;
    assert p[1] == DOT && p[2..] == name && "*." <= p;
    LabelsAreSplit(name, |name|, []);
    LeftmostIsEmpty(name, |name|, []);
  }

  /** "*x" is both an exact and a wildcard entry for x exactly if x has a dot, and not at its start, where
      "*x" reads as "*." before the rest; without a dot it is refused, and "*" alone covers everything. */
  lemma StarCovers(name: string)
    ensures Parse("*" + name) ==
            if name == "" then Some(Pattern([], true, false))
            else if DOT !in name then None
            else if name[0] == DOT then Some(Pattern(Read(name[1..]), true, false))
            else Some(Pattern(Read(name), true, true))
    ensures DOT in name && name[0] != DOT <==> Parse("*" + name).Some? && IsExactly(Parse("*" + name).value, name)
  {
    var q := "*" + name;
    assert q[0] == '*' && q[1..] == name;
    if name != "" {
      assert q[1] == name[0] && q[2..] == name[1..];
      assert DOT in q <==> DOT in name;
      assert "*." <= q <==> name[0] == DOT;
    }
  }

  // ---- The trie ------------------------------------------------------------------------------

  class LabelNode<T> {
    var children: map<string, LabelNode<T>>
    var exact: Option<T>
    var wild: Option<T>
    ghost const path: Path  // the labels that lead here

    constructor (ghost path: Path)
      ensures children == map[] && exact == None && wild == None && this.path == path
    {
      children, exact, wild := map[], None, None;
      this.path := path;
    }
  }

  class DomainMatcher<T> {
    const root: LabelNode<T>

    /** Every node, and every node by the labels that lead to it. */
    ghost var all: set<LabelNode<T>>
    ghost var nodes: map<Path, LabelNode<T>>

    ghost predicate Valid()
      reads this, all
    {
      && [] in nodes && nodes[[]] == root
      && (forall p :: p in nodes ==> nodes[p] in all && nodes[p].path == p)
      && (forall p, l {:trigger l in nodes[p].children} :: p in nodes && l in nodes[p].children ==>
            p + [l] in nodes && nodes[p].children[l] == nodes[p + [l]])
      && (forall p, l {:trigger p + [l]} :: p + [l] in nodes ==> p in nodes && l in nodes[p].children)
    }

    ghost function Exacts(): map<Path, T>
      requires Valid()
      reads this, all
    {
      map p | p in nodes && nodes[p].exact.Some? :: nodes[p].exact.value
    }

    ghost function Wilds(): map<Path, T>
      requires Valid()
      reads this, all
    {
      map p | p in nodes && nodes[p].wild.Some? :: nodes[p].wild.value
    }

    ghost function Entries(): Table<T>
      requires Valid()
      reads this, all
    {
      Table(Exacts(), Wilds())
    }

    /** The child of a node is the node of the longer path. */
    lemma ChildAt(p: Path, l: string)
      requires Valid() && p in nodes
      ensures l in nodes[p].children <==> p + [l] in nodes
      ensures l in nodes[p].children ==> nodes[p].children[l] == nodes[p + [l]]
    {
    }

    constructor ()
      ensures Valid() && Entries() == Table(map[], map[]) && fresh(all)
    {
      root := new LabelNode<T>([]);
      new;
      nodes, all := map[[] := root], {root};
    }

    /** A new leaf n keeps the tree. */
    twostate lemma LeafAdded(new n: LabelNode<T>)
      requires old(Valid()) && n.path != [] && n.children == map[] && n !in old(all)
      requires var p, l := Above(n.path), Leftmost(n.path);
               && p in old(nodes) && n.path == p + [l] && l !in old(nodes[p].children)
               && nodes == old(nodes)[p + [l] := n] && all == old(all) + {n}
               && nodes[p].children == old(nodes[p].children)[l := n]
               && forall q :: q in old(nodes) && q != p ==> nodes[q].children == old(nodes[q].children)
      ensures Valid()
    {
      var p, l := Above(n.path), Leftmost(n.path);
      assert p + [l] !in old(nodes) && p != p + [l];
      forall q, c | q + [c] == p + [l] ensures q == p && c == l {
        SnocEqual(q, p, c, l);
      }
      forall q, c | q in nodes && c in nodes[q].children
        ensures q + [c] in nodes && nodes[q].children[c] == nodes[q + [c]]
      {
        assert (q == p && c == l) || (q in old(nodes) && c in old(nodes[q].children));
      }
    }

    method Grow(cur: LabelNode<T>, ghost p: Path, l: string)
      requires Valid() && p in nodes && nodes[p] == cur && l !in cur.children
      modifies this, cur`children
      ensures Valid() && nodes.Keys == old(nodes.Keys) + {p + [l]} && fresh(all - old(all))
      ensures forall q :: q in old(nodes) ==> nodes[q] == old(nodes)[q]
      ensures nodes[p + [l]].exact == None && nodes[p + [l]].wild == None
    {
      ChildAt(p, l);
      var n := new LabelNode<T>(p + [l]);
      cur.children := cur.children[l := n];
      nodes, all := nodes[p + [l] := n], all + {n};
      assert Above(n.path) == p && Leftmost(n.path) == l;
      LeafAdded(n);
    }

    /** Adding a node without entries changes neither table. */
    twostate lemma SameEntries()
      requires old(Valid()) && Valid() && old(nodes.Keys) <= nodes.Keys
      requires forall q :: q in old(nodes) ==>
                 nodes[q].exact == old(nodes[q].exact) && nodes[q].wild == old(nodes[q].wild)
      requires forall q :: q in nodes && q !in old(nodes) ==> nodes[q].exact == None && nodes[q].wild == None
      ensures Entries() == old(Entries())
    {
      assert Exacts() == old(Exacts());
      assert Wilds() == old(Wilds());
    }

    /** The node for one more label, made if need be. */
    method Extend(cur: LabelNode<T>, ghost p: Path, l: string) returns (next: LabelNode<T>)
      requires Valid() && p in nodes && nodes[p] == cur
      modifies this, all
      ensures Valid() && p + [l] in nodes && nodes[p + [l]] == next
      ensures Entries() == old(Entries()) && fresh(all - old(all))
    {
      ChildAt(p, l);
      if l !in cur.children {
        Grow(cur, p, l);
        SameEntries();
        ChildAt(p, l);
      }
      next := cur.children[l];
    }

    method SetWild(cur: LabelNode<T>, ghost p: Path, value: T)
      requires Valid() && p in nodes && nodes[p] == cur
      modifies cur`wild
      ensures Valid() && Exacts() == old(Exacts()) && Wilds() == old(Wilds())[p := value]
    {
      cur.wild := Some(value);
      assert Exacts() == old(Exacts());
      assert forall q :: q in nodes && q != p ==> nodes[q].wild == old(nodes[q].wild);
    }

    method SetExact(cur: LabelNode<T>, ghost p: Path, value: T)
      requires Valid() && p in nodes && nodes[p] == cur
      modifies cur`exact
      ensures Valid() && Wilds() == old(Wilds()) && Exacts() == old(Exacts())[p := value]
    {
      cur.exact := Some(value);
      assert Wilds() == old(Wilds());
      assert forall q :: q in nodes && q != p ==> nodes[q].exact == old(nodes[q].exact);
    }

    method SetEntries(cur: LabelNode<T>, ghost p: Pattern, value: T, isWildcard: bool, isExact: bool)
      requires Valid() && p.labels in nodes && nodes[p.labels] == cur
      requires p.wildcard == isWildcard && p.exact == isExact
      modifies cur
      ensures Valid() && Entries() == AddTo(old(Entries()), p, value)
    {
      if isWildcard {
        SetWild(cur, p.labels, value);
      }
      if isExact {
        SetExact(cur, p.labels, value);
      }
    }

    method InsertPattern(pattern: string, value: T, isWildcard: bool, isExact: bool)
      requires Valid()
      modifies this, all
      ensures Valid() && Entries() == AddTo(old(Entries()), Pattern(Read(pattern), isWildcard, isExact), value)
      ensures fresh(all - old(all))
    {
      ghost var path: Path := [];
      var node, i := root, |pattern| - 1;
      while i >= 0
        invariant -1 <= i < |pattern| && Labels(pattern, i + 1, path) == Read(pattern)
        invariant Valid() && path in nodes && nodes[path] == node
        invariant Entries() == old(Entries()) && fresh(all - old(all))
        decreases i
      {
        var j := LastDot(pattern, i + 1);
        var lab := if j == -1 then pattern[..i + 1] else pattern[j + 1..i + 1];
        node := Extend(node, path, lab);
        i, path := if j == -1 then -1 else j - 1, path + [lab];
      }
      SetEntries(node, Pattern(path, isWildcard, isExact), value, isWildcard, isExact);
    }

    /** Add: an error for a pattern without a dot, else what the pattern says. */
    method Add(pattern: string, value: T) returns (ok: bool)
      requires Valid()
      modifies this, all
      ensures Valid() && fresh(all - old(all))
      ensures ok <==> Parse(pattern).Some?
      ensures Entries() == if ok then AddTo(old(Entries()), Parse(pattern).value, value) else old(Entries())
    {
      if pattern == "*" {
        SetEntries(root, Pattern([], true, false), value, true, false);
        return true;
      }
      if DOT !in pattern {
        return false;
      }
      if "*." <= pattern {
        InsertPattern(pattern[2..], value, true, false);
      } else if "*" <= pattern {
        InsertPattern(pattern[1..], value, true, true);
      } else {
        InsertPattern(pattern, value, false, true);
      }
      return true;
    }

    /** Below a missing node there is nothing, so the rest of the name adds no entry. */
    lemma {:induction false} NothingBelow(s: string, n: nat, p: Path, l: string)
      requires Valid() && n <= |s| && p + [l] !in nodes
      ensures Labels(s, n, p + [l]) !in nodes
      ensures BelowRoot(Wilds(), Parents(s, n, p + [l])) == BelowRoot(Wilds(), p)
      decreases n
    {
      var j := LastDot(s, n);
      LeftmostOfSnoc(p, l);
      if j != -1 {
        ChildNeedsParent(p + [l], s[j + 1..n]);
        NothingBelow(s, j, p + [l], s[j + 1..n]);
      } else if n > 0 {
        ChildNeedsParent(p + [l], s[..n]);
      }
    }

    lemma ChildNeedsParent(p: Path, l: string)
      requires Valid() && p !in nodes
      ensures p + [l] !in nodes
    {
    }

    /** The child for a label, if there is one. */
    method ChildOf(node: LabelNode<T>, ghost path: Path, lab: string) returns (child: LabelNode?<T>)
      requires Valid() && path in nodes && nodes[path] == node
      ensures if child == null then path + [lab] !in nodes else path + [lab] in nodes && nodes[path + [lab]] == child
    {
      ChildAt(path, lab);
      if lab !in node.children {
        return null;
      }
      child := node.children[lab];
    }

    /** Where the loop of Find stands: at the node of the labels read, with the best wildcard so far, which the
        leftmost label does not add to. */
    ghost predicate Along(domain: string, i: int, path: Path, last: bool, node: LabelNode<T>, candidate: Option<T>)
      requires Valid()
      reads this, all
    {
      var parents := Parents(domain, |domain|, []);
      && -1 <= i < |domain| && Labels(domain, i + 1, path) == Read(domain)
      && (if last then i == -1 else Parents(domain, i + 1, path) == parents)
      && path in nodes && nodes[path] == node
      && candidate == BelowRoot(Wilds(), if last then parents else path)
    }

    lemma AlongStops(domain: string, i: nat, path: Path, node: LabelNode<T>, candidate: Option<T>, j: int, lab: string)
      requires Valid() && Along(domain, i, path, false, node, candidate) && path + [lab] !in nodes
      requires j == LastDot(domain, i + 1) && lab == if j == -1 then domain[..i + 1] else domain[j + 1..i + 1]
      ensures Read(domain) !in nodes && candidate == BelowRoot(Wilds(), Parents(domain, |domain|, []))
    {
      OneRound(domain, i, path, j, lab);
      NothingBelow(domain, if j == -1 then 0 else j, path, lab);
    }

    lemma AlongGoesOn(domain: string, i: nat, path: Path, node: LabelNode<T>, candidate: Option<T>, j: int, lab: string)
      requires Valid() && Along(domain, i, path, false, node, candidate) && path + [lab] in nodes
      requires j == LastDot(domain, i + 1) && lab == if j == -1 then domain[..i + 1] else domain[j + 1..i + 1]
      ensures var child := nodes[path + [lab]];
              Along(domain, if j == -1 then -1 else j - 1, path + [lab], j == -1, child,
                    if j != -1 && child.wild.Some? then child.wild else candidate)
    {
      OneRound(domain, i, path, j, lab);
      BelowRootStep(Wilds(), path, lab);
    }

    /** One round of the loop of Find. */
    method Descend(domain: string, i: nat, ghost path: Path, node: LabelNode<T>, candidate: Option<T>)
      returns (child: LabelNode?<T>, next: int, ghost longer: Path, ghost last: bool, better: Option<T>)
      requires Valid() && Along(domain, i, path, false, node, candidate)
      ensures if child == null then
                Read(domain) !in nodes && better == BelowRoot(Wilds(), Parents(domain, |domain|, []))
              else next < i && Along(domain, next, longer, last, child, better)
    {
      var j := LastDot(domain, i + 1);
      var lab := if j == -1 then domain[..i + 1] else domain[j + 1..i + 1];
      longer, last, better, next := path + [lab], j == -1, candidate, if j == -1 then -1 else j - 1;
      child := ChildOf(node, path, lab);
      if child == null {
        AlongStops(domain, i, path, node, candidate, j, lab);
        return;
      }
      AlongGoesOn(domain, i, path, node, candidate, j, lab);
      if j != -1 && child.wild.Some? {
        better := child.wild;
      }
    }

    /** The loop of Find: the node of the whole name if there is one, and the best wildcard below the root. */
    method Walk(domain: string) returns (node: LabelNode<T>, candidate: Option<T>, fullyMatched: bool)
      requires Valid()
      ensures if fullyMatched then Read(domain) in nodes && nodes[Read(domain)] == node else Read(domain) !in nodes
      ensures candidate == BelowRoot(Wilds(), Parents(domain, |domain|, []))
    {
      ghost var path: Path, last := [], false;
      node, candidate, fullyMatched := root, None, true;
      var i := |domain| - 1;
      while i >= 0
        invariant fullyMatched && Along(domain, i, path, last, node, candidate)
        decreases i
      {
        var child, next;
        child, next, path, last, candidate := Descend(domain, i, path, node, candidate);
        if child == null {
          fullyMatched := false;
          break;
        }
        node, i := child, next;
      }
    }

    /** Find: the exact entry, else the wildcard with the most labels, else the root wildcard. */
    method Find(domain: string) returns (r: Option<T>)
      requires Valid()
      ensures r == Lookup(Entries(), domain)
    {
      var node, candidate, fullyMatched := Walk(domain);
      ParentsAreAbove(domain, |domain|, []);
      RootLast(Wilds(), Above(Full(domain)));
      if fullyMatched && node.exact.Some? {
        return node.exact;
      }
      if candidate.Some? {
        return candidate;
      }
      if root.wild.Some? {
        return root.wild;
      }
      return None;
    }
  }

  /** The nearest wildcard, the root's left out. */
  function BelowRoot<T>(wild: map<Path, T>, p: Path): Option<T> {
    if p == [] then None
    else if p in wild then Some(wild[p])
    else BelowRoot(wild, Above(p))
  }

  lemma BelowRootStep<T>(wild: map<Path, T>, p: Path, l: string)
    ensures BelowRoot(wild, p + [l]) == if p + [l] in wild then Some(wild[p + [l]]) else BelowRoot(wild, p)
  {
    LeftmostOfSnoc(p, l);
  }

  lemma {:induction false} RootLast<T>(wild: map<Path, T>, p: Path)
    ensures Nearest(wild, p) ==
            if BelowRoot(wild, p).Some? then BelowRoot(wild, p)
            else if [] in wild then Some(wild[[]]) else None
  {
    if p != [] {
      RootLast(wild, Above(p));
    }
  }

  /** The rules that a list of additions leaves; Add refuses a pattern without a dot. */
  function Accepted<T>(adds: seq<(string, T)>): seq<Rule<T>> {
    if adds == [] then []
    else
      var init, a := Accepted(adds[..|adds| - 1]), adds[|adds| - 1];
      match Parse(a.0)
      case Some(p) => init + [Rule(p, a.1)]
      case None => init
  }

  lemma ReplaySnoc<T>(rules: seq<Rule<T>>, r: Rule<T>)
    ensures Replay(rules + [r]) == AddTo(Replay(rules), r.pattern, r.value)
  {
    assert (rules + [r])[..|rules|] == rules;
  }

  /** After any sequence of additions a lookup is the linear scan over the accepted patterns. */
  method FindAfter<T>(adds: seq<(string, T)>, domain: string) returns (r: Option<T>)
    ensures r == Scan(Accepted(adds), domain)
  {
    var m := new DomainMatcher<T>();
    assert adds[..0] == [];
    for i := 0 to |adds|
      invariant m.Valid() && fresh(m) && fresh(m.all)
      invariant m.Entries() == Replay(Accepted(adds[..i]))
    {
      assert adds[..i + 1][..i] == adds[..i];
      var ok := m.Add(adds[i].0, adds[i].1);
      if ok {
        ReplaySnoc(Accepted(adds[..i]), Rule(Parse(adds[i].0).value, adds[i].1));
      }
    }
    assert adds[..|adds|] == adds;
    LookupIsScan(Accepted(adds), domain);
    r := m.Find(domain);
  }
}
