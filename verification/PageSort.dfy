/** `nac_mem_sort_ptable`: repeated passes of neighbour swaps, until a pass changes nothing. */
module PageSort {

  /** How many items of `s` are larger than `x`. */
  function Above(s: seq<nat>, x: nat): nat {
    if s == [] then 0 else (if s[0] > x then 1 else 0) + Above(s[1..], x)
  }

  /** Pairs in ascending order, that is, out of place in a descending table. */
  function Inversions(s: seq<nat>): nat {
    if s == [] then 0 else Above(s[1..], s[0]) + Inversions(s[1..])
  }

  function Swap(s: seq<nat>, i: nat): seq<nat>
    requires 1 <= i < |s|
  {
    s[i - 1 := s[i]][i := s[i - 1]]
  }

  lemma {:induction false} SwapAbove(s: seq<nat>, i: nat, x: nat)
    requires 1 <= i < |s|
    ensures Above(Swap(s, i), x) == Above(s, x)
  {
    var t := Swap(s, i);
    if i == 1 {
      assert s[1..][1..] == s[2..];
      assert t[1..][1..] == s[2..];
    } else {
      assert t[1..] == Swap(s[1..], i - 1);
      SwapAbove(s[1..], i - 1, x);
    }
  }

  /** Swapping two ascending neighbours removes exactly one inversion. */
  lemma {:induction false} SwapInversions(s: seq<nat>, i: nat)
    requires 1 <= i < |s| && s[i] > s[i - 1]
    ensures Inversions(Swap(s, i)) == Inversions(s) - 1
  {
    var t := Swap(s, i);
    if i == 1 {
      assert s[1..][1..] == s[2..];
      assert t[1..][1..] == s[2..];
      assert Above(s[1..], s[0]) == 1 + Above(s[2..], s[0]);
      assert Above(t[1..], t[0]) == Above(s[2..], s[1]);
      assert Inversions(s[1..]) == Above(s[2..], s[1]) + Inversions(s[2..]);
      assert Inversions(t[1..]) == Above(s[2..], s[0]) + Inversions(s[2..]);
    } else {
      assert t[1..] == Swap(s[1..], i - 1);
      SwapInversions(s[1..], i - 1);
      SwapAbove(s[1..], i - 1, s[0]);
    }
  }

  lemma SwapPermutes(s: seq<nat>, i: nat)
    requires 1 <= i < |s|
    ensures multiset(Swap(s, i)) == multiset(s)
  {
    assert s == s[..i - 1] + [s[i - 1]] + [s[i]] + s[i + 1..];
    assert Swap(s, i) == s[..i - 1] + [s[i]] + [s[i - 1]] + s[i + 1..];
  }

  ghost predicate Descending(s: seq<nat>) {
    forall i :: 1 <= i < |s| ==> s[i] <= s[i - 1]
  }

  /** Neighbours in order mean that the whole table is. */
  lemma {:induction false} DescendingFar(s: seq<nat>, i: nat, j: nat)
    requires Descending(s) && i <= j < |s|
    ensures s[j] <= s[i]
    decreases j - i
  {
    if i < j {
      DescendingFar(s, i, j - 1);
    }
  }

  /** One pass over the table. */
  method Pass(t: array<nat>) returns (unsorted: bool)
    modifies t
    ensures multiset(t[..]) == multiset(old(t[..]))
    ensures !unsorted ==> t[..] == old(t[..]) && Descending(t[..])
    ensures unsorted ==> Inversions(t[..]) < Inversions(old(t[..]))
  {
    unsorted := false;
    var i := 1;
    while i < t.Length
      invariant 1 <= i
      invariant multiset(t[..]) == multiset(old(t[..]))
      invariant !unsorted ==> t[..] == old(t[..])
      invariant !unsorted ==> forall k :: 1 <= k < i && k < t.Length ==> t[k] <= t[k - 1]
      invariant unsorted ==> Inversions(t[..]) < Inversions(old(t[..]))
    {
      if t[i] > t[i - 1] {
        SwapInversions(t[..], i);
        SwapPermutes(t[..], i);
        ghost var was := t[..];
        var tmp := t[i - 1];
        t[i - 1] := t[i];
        t[i] := tmp;
        assert t[..] == Swap(was, i);
        unsorted := true;
      }
      i := i + 1;
    }
  }

  /** The sort ends for a table of any length: every pass that changes it lowers the number
      of inversions. */
  method SortPtable(t: array<nat>)
    modifies t
    ensures Descending(t[..])
    ensures multiset(t[..]) == multiset(old(t[..]))
  {
    var unsorted := true;
    while unsorted
      invariant multiset(t[..]) == multiset(old(t[..]))
      invariant !unsorted ==> Descending(t[..])
      decreases Inversions(t[..]), unsorted
    {
      unsorted := Pass(t);
    }
  }
}
