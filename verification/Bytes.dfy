/** Byte strings and the big-endian numbers in them. */
module Bytes {
  import opened Collections

  type byte = x: nat | x < 256

  type bytes = seq<byte>

  function U16(n: nat): (b: bytes)
    ensures |b| == 2
  {
    [(n / 256) % 256, n % 256]
  }

  function U24(n: nat): (b: bytes)
    ensures |b| == 3
  {
    [(n / 65536) % 256, (n / 256) % 256, n % 256]
  }

  function Get16(s: bytes, i: nat): nat
    requires i + 2 <= |s|
  {
    var hi: nat, lo: nat := s[i], s[i + 1];
    hi * 256 + lo
  }

  function Get24(s: bytes, i: nat): nat
    requires i + 3 <= |s|
  {
    var hi: nat, mid: nat, lo: nat := s[i], s[i + 1], s[i + 2];
    hi * 65536 + mid * 256 + lo
  }

  function Concat(parts: seq<bytes>): bytes {
    if parts == [] then [] else parts[0] + Concat(parts[1..])
  }

  lemma ConcatCons(x: bytes, rest: seq<bytes>)
    ensures Concat([x] + rest) == x + Concat(rest)
  {
    assert ([x] + rest)[1..] == rest;
  }

  lemma {:induction false} ConcatAppend(a: seq<bytes>, b: seq<bytes>)
    ensures Concat(a + b) == Concat(a) + Concat(b)
  {
    if a == [] {
      assert a + b == b;
    } else {
      ConcatAppend(a[1..], b);
      ConcatCons(a[0], a[1..] + b);
      Regroup([a[0]], a[1..], b);
      Regroup(a[0], Concat(a[1..]), Concat(b));
      assert a == [a[0]] + a[1..];
    }
  }

  /** The first i parts, joined. */
  function Upto(parts: seq<bytes>, i: nat): bytes
    requires i <= |parts|
  {
    if i == 0 then [] else Upto(parts, i - 1) + parts[i - 1]
  }

  lemma {:induction false} UptoShift(parts: seq<bytes>, i: nat)
    requires 0 < |parts| && i < |parts|
    ensures Upto(parts, i + 1) == parts[0] + Upto(parts[1..], i)
  {
    if i > 0 {
      UptoShift(parts, i - 1);
      assert parts[1..][i - 1] == parts[i];
    }
  }

  lemma {:induction false} UptoAll(parts: seq<bytes>)
    ensures Upto(parts, |parts|) == Concat(parts)
  {
    if parts != [] {
      UptoAll(parts[1..]);
      UptoShift(parts, |parts| - 1);
    }
  }

  lemma {:induction false} UptoPrefix(parts: seq<bytes>, i: nat, j: nat)
    requires i <= j <= |parts|
    ensures Upto(parts, i) <= Upto(parts, j)
  {
    if i < j {
      UptoPrefix(parts, i, j - 1);
    }
  }

  lemma UptoIsPrefix(parts: seq<bytes>, i: nat)
    requires i <= |parts|
    ensures Upto(parts, i) <= Concat(parts)
  {
    UptoPrefix(parts, i, |parts|);
    UptoAll(parts);
  }

  lemma HoldsSlice(data: bytes, off: nat, s: bytes)
    ensures Holds(data, off, s) <==> off + |s| <= |data| && data[off..off + |s|] == s
  {
    if off + |s| <= |data| {
      var d := data[off..off + |s|];
      assert forall i :: 0 <= i < |s| ==> d[i] == data[off + i];
    }
  }

  lemma Holds16(data: bytes, off: nat, n: nat)
    requires Holds(data, off, U16(n)) && n < 65536
    ensures off + 2 <= |data| && Get16(data, off) == n
  {
    var s := U16(n);
    assert s[0] == data[off + 0] && s[1] == data[off + 1];
  }

  lemma U24Inverse(n: nat)
    requires n < 0x100_0000
    ensures Get24(U24(n), 0) == n
  {
    var q := n / 256;
    assert n / 65536 == q / 256;
    assert q / 256 * 65536 + q % 256 * 256 == q * 256;
  }

  lemma Holds24(data: bytes, off: nat, n: nat)
    requires Holds(data, off, U24(n)) && n < 0x100_0000
    ensures off + 3 <= |data| && Get24(data, off) == n
  {
    U24Inverse(n);
    var s := U24(n);
    assert s[0] == data[off + 0] && s[1] == data[off + 1] && s[2] == data[off + 2];
  }

  /** A field behind its one-byte length. */
  lemma HoldsField8(data: bytes, off: nat, field: bytes, rest: bytes)
    requires |field| < 256 && Holds(data, off, [|field| % 256] + (field + rest))
    ensures off < |data| && data[off] == |field| && Holds(data, off + 1 + |field|, rest)
  {
    HoldsSplit(data, off, [|field| % 256], field + rest);
    HoldsOne(data, off, |field| % 256);
    HoldsSplit(data, off + 1, field, rest);
  }

  /** A field behind its two-byte length. */
  lemma HoldsField16(data: bytes, off: nat, field: bytes, rest: bytes)
    requires |field| < 65536 && Holds(data, off, U16(|field|) + (field + rest))
    ensures off + 2 <= |data| && Get16(data, off) == |field| && Holds(data, off + 2 + |field|, rest)
  {
    HoldsSplit(data, off, U16(|field|), field + rest);
    Holds16(data, off, |field|);
    HoldsSplit(data, off + 2, field, rest);
  }
}
