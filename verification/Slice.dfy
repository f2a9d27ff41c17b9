/** A Go slice: a window onto a backing array that other slices may share. */
module Slices {
  datatype Slice<T> = Slice(backing: array<T>, from: nat, length: nat) {
    ghost predicate InBounds() {
      from + length <= backing.Length
    }

    ghost function Contents(): seq<T>
      requires InBounds()
      reads backing
    {
      backing[from..from + length]
    }

    /** The parts of the backing array that this slice cannot reach. */
    ghost function Outside(): (seq<T>, seq<T>)
      requires InBounds()
      reads backing
    {
      (backing[..from], backing[from + length..])
    }

    function At(i: nat): (x: T)
      requires InBounds() && i < length
      reads backing
      ensures x == Contents()[i]
    {
      backing[from + i]
    }

    method Put(i: nat, x: T)
      requires InBounds() && i < length
      modifies backing
      ensures Contents() == old(Contents())[i := x]
      ensures Outside() == old(Outside())
    {
      backing[from + i] := x;
    }
  }

  /** Two windows of one array that do not overlap: what one cannot reach contains the other. */
  lemma DisjointWindows<T>(s: seq<T>, t: seq<T>, from: nat, length: nat, otherFrom: nat, otherLength: nat)
    requires |s| == |t| && from + length <= |s| && otherFrom + otherLength <= |s|
    requires s[..from] == t[..from] && s[from + length..] == t[from + length..]
    requires otherFrom + otherLength <= from || from + length <= otherFrom
    ensures s[otherFrom..otherFrom + otherLength] == t[otherFrom..otherFrom + otherLength]
  {
    if otherFrom + otherLength <= from {
      assert s[otherFrom..otherFrom + otherLength] == s[..from][otherFrom..otherFrom + otherLength];
      assert t[otherFrom..otherFrom + otherLength] == t[..from][otherFrom..otherFrom + otherLength];
    } else {
      var d := otherFrom - (from + length);
      assert s[otherFrom..otherFrom + otherLength] == s[from + length..][d..d + otherLength];
      assert t[otherFrom..otherFrom + otherLength] == t[from + length..][d..d + otherLength];
    }
  }
}
