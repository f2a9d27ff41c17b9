/** The IPv4 and IPv6 tries of internal/addrtrie: a mutable bit trie per family, proved to be
    longest-prefix match. Addresses start out as parsed integers. */
module IpTrie {
  import Binary = Bits
  import opened Collections
  import opened Wrappers

  /** An address as the two files hold it: one 32-bit word, or two 64-bit words. */
  datatype Address = V4(v: nat) | V6(hi: nat, lo: nat)

  predicate Proper(a: Address) {
    match a
    case V4(v) => v < Binary.Pow2(32)
    case V6(hi, lo) => hi < Binary.Pow2(64) && lo < Binary.Pow2(64)
  }

  function Width(a: Address): nat {
    if a.V4? then 32 else 128
  }

  /** v >> k */
  function Shr(v: nat, k: nat): nat {
    if k == 0 then v else Shr(v, k - 1) / 2
  }

  /** (v >> k) & 1 */
  function BitOf(v: nat, k: nat): bool {
    Shr(v, k) % 2 == 1
  }

  /** getBit32 and getBit128. */
  function GetBit(a: Address, i: nat): bool
    requires i < Width(a)
  {
    match a
    case V4(v) => BitOf(v, 31 - i)
    case V6(hi, lo) => if i < 64 then BitOf(hi, 63 - i) else BitOf(lo, 63 - (i - 64))
  }

  /** The first n bits of an address. */
  function Bits(a: Address, n: nat): (bs: seq<bool>)
    requires n <= Width(a)
    ensures |bs| == n
  {
    seq(n, i requires 0 <= i < n => GetBit(a, i))
  }

  // ---- Shift and mask ------------------------------------------------------------------------

  /** The usual comparison of the first n bits of w-bit words: what is left after shifting out the rest. */
  predicate SameWordPrefix(x: nat, y: nat, w: nat, n: nat)
    requires n <= w
  {
    Shr(x, w - n) == Shr(y, w - n)
  }

  /** Prefix comparison by shifts, word by word. */
  predicate Matches(addr: Address, ip: Address, n: nat)
    requires n <= Width(ip)
  {
    match ip
    case V4(v) => addr.V4? && SameWordPrefix(addr.v, v, 32, n)
    case V6(hi, lo) =>
      addr.V6? &&
      if n <= 64 then SameWordPrefix(addr.hi, hi, 64, n)
      else addr.hi == hi && SameWordPrefix(addr.lo, lo, 64, n - 64)
  }

  lemma {:induction false} ShrBound(x: nat, w: nat, k: nat)
    requires k <= w && x < Binary.Pow2(w)
    ensures Shr(x, k) < Binary.Pow2(w - k)
  {
    if k > 0 {
      ShrBound(x, w, k - 1);
      assert Binary.Pow2(w - k + 1) == 2 * Binary.Pow2(w - k);
    }
  }

  /** The n highest bits of a w-bit word. */
  function TopBits(v: nat, w: nat, n: nat): (bs: seq<bool>)
    requires n <= w
    ensures |bs| == n
  {
    if n == 0 then [] else TopBits(v, w, n - 1) + [BitOf(v, w - n)]
  }

  lemma {:induction false} TopBitAt(v: nat, w: nat, n: nat, i: nat)
    requires i < n <= w
    ensures TopBits(v, w, n)[i] == BitOf(v, w - 1 - i)
  {
    if i < n - 1 {
      TopBitAt(v, w, n - 1, i);
    }
  }

  /** Equal shifted words mean equal bits, and the other way round. */
  lemma {:induction false} WordPrefixIsBits(x: nat, y: nat, w: nat, n: nat)
    requires n <= w && x < Binary.Pow2(w) && y < Binary.Pow2(w)
    ensures SameWordPrefix(x, y, w, n) <==> TopBits(x, w, n) == TopBits(y, w, n)
  {
    if n == 0 {
      ShrBound(x, w, w);
      ShrBound(y, w, w);
    } else {
      WordPrefixIsBits(x, y, w, n - 1);
      var k := w - n;
      assert Shr(x, k + 1) == Shr(x, k) / 2 && Shr(y, k + 1) == Shr(y, k) / 2;
      SnocEqual(TopBits(x, w, n - 1), TopBits(y, w, n - 1), BitOf(x, k), BitOf(y, k));
    }
  }

  lemma WholeWord(x: nat, y: nat, w: nat)
    ensures SameWordPrefix(x, y, w, w) <==> x == y
  {
    assert w - w == 0;
  }

  lemma V4Bits(v: nat, n: nat)
    requires n <= 32
    ensures Bits(V4(v), n) == TopBits(v, 32, n)
  {
    forall i | 0 <= i < n ensures Bits(V4(v), n)[i] == TopBits(v, 32, n)[i] {
      TopBitAt(v, 32, n, i);
    }
  }

  lemma V6Bits(hi: nat, lo: nat, n: nat)
    requires n <= 128
    ensures Bits(V6(hi, lo), n) == if n <= 64 then TopBits(hi, 64, n) else TopBits(hi, 64, 64) + TopBits(lo, 64, n - 64)
  {
    forall i | 0 <= i < n
      ensures Bits(V6(hi, lo), n)[i] ==
              if n <= 64 then TopBits(hi, 64, n)[i]
              else if i < 64 then TopBits(hi, 64, 64)[i] else TopBits(lo, 64, n - 64)[i - 64]
    {
      if n <= 64 {
        TopBitAt(hi, 64, n, i);
      } else if i < 64 {
        TopBitAt(hi, 64, 64, i);
      } else {
        TopBitAt(lo, 64, n - 64, i - 64);
      }
    }
  }

  lemma JoinEqual(p: seq<bool>, q: seq<bool>, a: seq<bool>, b: seq<bool>)
    requires |p| == |q|
    ensures p + a == q + b <==> p == q && a == b
  {
    if p + a == q + b {
      assert p == (p + a)[..|p|] && q == (q + b)[..|q|];
      assert a == (p + a)[|p|..] && b == (q + b)[|q|..];
    }
  }

  /** Shifting agrees with bit by bit comparison for both representations. */
  lemma MatchesIsBits(addr: Address, ip: Address, n: nat)
    requires Proper(addr) && Proper(ip) && addr.V4? == ip.V4? && n <= Width(ip)
    ensures Matches(addr, ip, n) <==> Bits(ip, n) == Bits(addr, n)
  {
    match ip
    case V4(v) =>
      V4Bits(v, n);
      V4Bits(addr.v, n);
      WordPrefixIsBits(addr.v, v, 32, n);
    case V6(hi, lo) =>
      V6Bits(hi, lo, n);
      V6Bits(addr.hi, addr.lo, n);
      if n <= 64 {
        WordPrefixIsBits(addr.hi, hi, 64, n);
      } else {
        WholeWord(addr.hi, hi, 64);
        WordPrefixIsBits(addr.hi, hi, 64, 64);
        WordPrefixIsBits(addr.lo, lo, 64, n - 64);
        JoinEqual(TopBits(addr.hi, 64, 64), TopBits(hi, 64, 64), TopBits(addr.lo, 64, n - 64), TopBits(lo, 64, n - 64));
      }
  }

  lemma BitsPrefix(a: Address, k: nat, n: nat)
    requires k <= n <= Width(a)
    ensures Bits(a, n)[..k] == Bits(a, k)
  {
  }

  // ---- Longest prefix match --------------------------------------------------------------------

  /** The value at the longest prefix of bits, at most n long, that m maps. */
  function LongestUpto<T>(m: map<seq<bool>, T>, bits: seq<bool>, n: nat): Option<T>
    requires n <= |bits|
  {
    if bits[..n] in m then Some(m[bits[..n]])
    else if n == 0 then None
    else LongestUpto(m, bits, n - 1)
  }

  function Longest<T>(m: map<seq<bool>, T>, bits: seq<bool>): Option<T> {
    LongestUpto(m, bits, |bits|)
  }

  /** One inserted prefix. */
  datatype Rule<T> = Rule(ip: Address, len: nat, value: T)

  predicate RuleOk<T>(r: Rule<T>, v4: bool) {
    Proper(r.ip) && r.ip.V4? == v4 && r.len <= Width(r.ip)
  }

  /** The mapping that a list of insertions leaves. */
  function Replay<T>(rules: seq<Rule<T>>, v4: bool): map<seq<bool>, T>
    requires forall i :: 0 <= i < |rules| ==> RuleOk(rules[i], v4)
  {
    if rules == [] then map[]
    else
      var r := rules[|rules| - 1];
      assert RuleOk(r, v4);
      Replay(rules[..|rules| - 1], v4)[Bits(r.ip, r.len) := r.value]
  }

  /** A linear scan in insertion order with shift comparisons: a match at least as long as the best so
      far replaces it. */
  function Scan<T>(rules: seq<Rule<T>>, addr: Address): Option<Rule<T>>
    requires forall i :: 0 <= i < |rules| ==> RuleOk(rules[i], addr.V4?)
  {
    if rules == [] then None
    else
      var best := Scan(rules[..|rules| - 1], addr);
      var r := rules[|rules| - 1];
      assert RuleOk(r, addr.V4?);
      if Matches(addr, r.ip, r.len) && (best.None? || r.len >= best.value.len) then Some(r) else best
  }

  /** best is the longest prefix of bits in m. */
  ghost predicate BestOf<T>(m: map<seq<bool>, T>, bits: seq<bool>, best: Option<Rule<T>>) {
    match best
    case None => forall k :: 0 <= k <= |bits| ==> bits[..k] !in m
    case Some(r) =>
      && r.len <= |bits| && bits[..r.len] in m && m[bits[..r.len]] == r.value
      && forall k :: r.len < k <= |bits| ==> bits[..k] !in m
  }

  lemma {:induction false} BestIsLongest<T>(m: map<seq<bool>, T>, bits: seq<bool>, best: Option<Rule<T>>, n: nat)
    requires BestOf(m, bits, best) && n <= |bits| && (best.Some? ==> best.value.len <= n)
    ensures LongestUpto(m, bits, n) == if best.Some? then Some(best.value.value) else None
  {
    if bits[..n] !in m && n > 0 {
      BestIsLongest(m, bits, best, n - 1);
    }
  }

  lemma {:induction false} ScanIsBest<T>(rules: seq<Rule<T>>, addr: Address)
    requires Proper(addr) && forall i :: 0 <= i < |rules| ==> RuleOk(rules[i], addr.V4?)
    ensures BestOf(Replay(rules, addr.V4?), Bits(addr, Width(addr)), Scan(rules, addr))
  {
    if rules != [] {
      var init, r := rules[..|rules| - 1], rules[|rules| - 1];
      assert RuleOk(r, addr.V4?);
      ScanIsBest(init, addr);
      var bits := Bits(addr, Width(addr));
      MatchesIsBits(addr, r.ip, r.len);
      BitsPrefix(addr, r.len, Width(addr));
      assert forall k :: 0 <= k <= |bits| ==> |bits[..k]| == k;
    }
  }

  /** Longest-prefix match in the mapping is the linear scan over the insertions; it fails exactly when
      no inserted prefix matches. */
  lemma LongestIsScan<T>(rules: seq<Rule<T>>, addr: Address)
    requires Proper(addr) && forall i :: 0 <= i < |rules| ==> RuleOk(rules[i], addr.V4?)
    ensures Longest(Replay(rules, addr.V4?), Bits(addr, Width(addr))) ==
            match Scan(rules, addr) case Some(r) => Some(r.value) case None => None
    ensures Scan(rules, addr).None? <==>
            forall i :: 0 <= i < |rules| ==> !Matches(addr, rules[i].ip, rules[i].len)
  {
    ScanIsBest(rules, addr);
    BestIsLongest(Replay(rules, addr.V4?), Bits(addr, Width(addr)), Scan(rules, addr), Width(addr));
    ScanFindsAny(rules, addr);
  }

  lemma {:induction false} ScanFindsAny<T>(rules: seq<Rule<T>>, addr: Address)
    requires forall i :: 0 <= i < |rules| ==> RuleOk(rules[i], addr.V4?)
    ensures Scan(rules, addr).None? <==>
            forall i :: 0 <= i < |rules| ==> RuleOk(rules[i], addr.V4?) && !Matches(addr, rules[i].ip, rules[i].len)
  {
    if rules != [] {
      var init, r := rules[..|rules| - 1], rules[|rules| - 1];
      ScanFindsAny(init, addr);
      assert rules == init + [r];
      assert RuleOk(r, addr.V4?);
    }
  }

  // ---- The trie ------------------------------------------------------------------------------

  class BitNode<T> {
    var zero: BitNode?<T>
    var one: BitNode?<T>
    var entry: Option<T>     // value, valueExists

    constructor ()
      ensures zero == null && one == null && entry == None
    {
      zero, one, entry := null, null, None;
    }

    function Child(b: bool): BitNode?<T>
      reads this
    {
      if b then one else zero
    }

    method SetChild(b: bool, n: BitNode<T>)
      modifies this
      ensures Child(b) == n && Child(!b) == old(Child(!b)) && entry == old(entry)
    {
      if b {
        one := n;
      } else {
        zero := n;
      }
    }
  }

  class BitTrie<T> {
    const root: BitNode<T>
    const v4: bool

    /** Every node by the bits that lead to it. */
    ghost var nodes: map<seq<bool>, BitNode<T>>

    ghost predicate Valid()
      reads this, nodes.Values
    {
      && [] in nodes && nodes[[]] == root
      && (forall p, q :: p in nodes && q in nodes && p != q ==> nodes[p] != nodes[q])
      && (forall p {:trigger nodes[p].zero} :: p in nodes ==>
            nodes[p].zero == if p + [false] in nodes then nodes[p + [false]] else null)
      && (forall p {:trigger nodes[p].one} :: p in nodes ==>
            nodes[p].one == if p + [true] in nodes then nodes[p + [true]] else null)
      && (forall p, b {:trigger p + [b]} :: p + [b] in nodes ==> p in nodes)
    }

    /** The prefixes with a value. */
    ghost function Entries(): map<seq<bool>, T>
      reads this, nodes.Values
    {
      map p | p in nodes && nodes[p].entry.Some? :: nodes[p].entry.value
    }

    constructor (v4: bool)
      ensures Valid() && Entries() == map[] && this.v4 == v4 && fresh(nodes.Values)
    {
      this.v4 := v4;
      root := new BitNode<T>();
      new;
      nodes := map[[] := root];
    }

    /** A new node below cur. */
    method Grow(cur: BitNode<T>, ghost p: seq<bool>, b: bool)
      requires Valid() && p in nodes && nodes[p] == cur && p + [b] !in nodes
      modifies this, cur
      ensures Valid() && nodes.Keys == old(nodes.Keys) + {p + [b]}
      ensures fresh(nodes[p + [b]]) && forall q :: q in old(nodes) ==> nodes[q] == old(nodes)[q]
      ensures nodes[p + [b]].entry == None && forall q :: q in old(nodes) ==> nodes[q].entry == old(nodes[q].entry)
    {
      var n := new BitNode<T>();
      cur.SetChild(b, n);
      forall q, c | q + [c] == p + [b] ensures q == p && c == b {
        assert q == (q + [c])[..|q|] && p == (p + [b])[..|p|];
        assert (q + [c])[|q|] == c && (p + [b])[|p|] == b;
      }
      assert forall c :: p + [b] + [c] !in nodes;
      nodes := nodes[p + [b] := n];
    }

    /** The node for one more bit, made if need be. */
    method Extend(cur: BitNode<T>, ghost p: seq<bool>, b: bool) returns (next: BitNode<T>)
      requires Valid() && p in nodes && nodes[p] == cur
      modifies this, nodes.Values
      ensures Valid() && p + [b] in nodes && nodes[p + [b]] == next
      ensures Entries() == old(Entries()) && fresh(nodes.Values - old(nodes.Values))
    {
      assert cur.zero == nodes[p].zero && cur.one == nodes[p].one;
      if cur.Child(b) == null {
        Grow(cur, p, b);
        assert cur.zero == nodes[p].zero && cur.one == nodes[p].one;
      }
      next := cur.Child(b);
    }
  
    method SetEntry(cur: BitNode<T>, ghost p: seq<bool>, value: T)
      requires Valid() && p in nodes && nodes[p] == cur
      modifies cur
      ensures Valid() && Entries() == old(Entries())[p := value]
    {
      cur.entry := Some(value);
      assert forall q :: q in nodes && q != p ==> nodes[q].entry == old(nodes[q].entry);
    }

    /** Insert for a parsed prefix of len bits. */
    method Insert(ip: Address, len: nat, value: T)
      requires Valid() && ip.V4? == v4 && len <= Width(ip)
      modifies this, nodes.Values
      ensures Valid() && Entries() == old(Entries())[Bits(ip, len) := value]
      ensures fresh(nodes.Values - old(nodes.Values))
    {
      var cur := root;
      assert Bits(ip, 0) == [];
      for i := 0 to len
        invariant Valid() && Bits(ip, i) in nodes && nodes[Bits(ip, i)] == cur
        invariant Entries() == old(Entries()) && fresh(nodes.Values - old(nodes.Values))
      {
        var b := GetBit(ip, i);
        cur := Extend(cur, Bits(ip, i), b);
        assert Bits(ip, i + 1) == Bits(ip, i) + [b];
      }
      SetEntry(cur, Bits(ip, len), value);
    }

    /** Insert for "*". */
    method InsertAll(value: T)
      requires Valid()
      modifies this, nodes.Values
      ensures Valid() && Entries() == old(Entries())[[] := value] && nodes == old(nodes)
    {
      SetEntry(root, [], value);
    }

    /** Find returns the value at the longest prefix of the address that has one. */
    method Find(addr: Address) returns (r: Option<T>)
      requires Valid() && addr.V4? == v4
      ensures r == Longest(Entries(), Bits(addr, Width(addr)))
    {
      ghost var bits, m := Bits(addr, Width(addr)), Entries();
      var cur, matched: Option<T>, i := root, None, 0;
      var stopped := false;
      while i < Width(addr) && !stopped
        invariant i <= Width(addr) && bits[..i] in nodes && nodes[bits[..i]] == cur
        invariant !stopped ==> matched == if i == 0 then None else LongestUpto(m, bits, i - 1)
        invariant stopped ==> i < Width(addr) && bits[..i + 1] !in nodes && matched == LongestUpto(m, bits, i)
        decreases Width(addr) - i, !stopped
      {
        if cur.entry.Some? {
          matched := cur.entry;
        }
        assert matched == LongestUpto(m, bits, i);
        var b := GetBit(addr, i);
        assert bits[..i + 1] == bits[..i] + [b];
        assert cur.zero == nodes[bits[..i]].zero && cur.one == nodes[bits[..i]].one;
        if cur.Child(b) == null {
          stopped := true;
        } else {
          cur := cur.Child(b);
          i := i + 1;
        }
      }
      if stopped {
        NothingDeeper(m, bits, i);
      }
      if cur.entry.Some? {
        return cur.entry;
      }
      if matched.None? {
        NoneMeansRootEmpty(m, bits, if stopped then i else i - 1);
        assert bits[..0] == [];
        return root.entry;
      }
      return matched;
    }

    lemma {:induction false} NoLongerPath(bits: seq<bool>, i: nat, k: nat)
      requires Valid() && i < k <= |bits| && bits[..i + 1] !in nodes
      ensures bits[..k] !in nodes
    {
      if k > i + 1 {
        NoLongerPath(bits, i, k - 1);
        var p, b := bits[..k - 1], bits[k - 1];
        assert bits[..k] == p + [b];
        ParentPresent(p, b);
      }
    }

    lemma ParentPresent(p: seq<bool>, b: bool)
      requires Valid()
      ensures p + [b] in nodes ==> p in nodes
    {
    }

    lemma NothingDeeper(m: map<seq<bool>, T>, bits: seq<bool>, i: nat)
      requires Valid() && m == Entries() && i < |bits| && bits[..i + 1] !in nodes
      ensures Longest(m, bits) == LongestUpto(m, bits, i)
    {
      forall k | i < k <= |bits| ensures bits[..k] !in m {
        NoLongerPath(bits, i, k);
      }
      SkipMissing(m, bits, i, |bits|);
    }
  }

  lemma {:induction false} NoneMeansRootEmpty<T>(m: map<seq<bool>, T>, bits: seq<bool>, n: nat)
    requires n <= |bits| && LongestUpto(m, bits, n) == None
    ensures bits[..0] !in m
  {
    if n > 0 {
      NoneMeansRootEmpty(m, bits, n - 1);
    }
  }

  lemma {:induction false} SkipMissing<T>(m: map<seq<bool>, T>, bits: seq<bool>, i: nat, n: nat)
    requires i <= n <= |bits| && forall k :: i < k <= n ==> bits[..k] !in m
    ensures LongestUpto(m, bits, n) == LongestUpto(m, bits, i)
  {
    if i < n {
      SkipMissing(m, bits, i, n - 1);
    }
  }

  /** After any sequence of insertions a lookup is the linear scan over them. */
  method FindAfter<T>(rules: seq<Rule<T>>, addr: Address) returns (r: Option<T>)
    requires Proper(addr) && forall i :: 0 <= i < |rules| ==> RuleOk(rules[i], addr.V4?)
    ensures r == match Scan(rules, addr) case Some(best) => Some(best.value) case None => None
  {
    var trie := new BitTrie<T>(addr.V4?);
    assert rules[..0] == [];
    for i := 0 to |rules|
      invariant trie.Valid() && fresh(trie) && fresh(trie.nodes.Values) && trie.v4 == addr.V4?
      invariant trie.Entries() == Replay(rules[..i], addr.V4?)
    {
      assert RuleOk(rules[i], addr.V4?);
      assert rules[..i + 1][..i] == rules[..i];
      trie.Insert(rules[i].ip, rules[i].len, rules[i].value);
    }
    assert rules[..|rules|] == rules;
    LongestIsScan(rules, addr);
    r := trie.Find(addr);
  }
}
