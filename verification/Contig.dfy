/** `nac_mem_findcontig`: carving an aligned contiguous area out of the table of page
    blocks, from a cursor that survives between calls. */
module Contig {
  import opened Words
  import opened PageSort

  /** The mask test on an address, for the alignment the module is loaded with. */
  function Misaligned(addr: nat, align: nat): nat
    requires align >= 1
  {
    And(addr, align - 1)
  }

  /** Entries `lo` to `hi` are live and each starts one block below the one before. */
  ghost predicate Run(s: seq<nat>, lo: nat, hi: nat, psize: nat) {
    && lo < hi <= |s|
    && (forall j :: lo <= j < hi ==> s[j] != 0)
    && forall j, k :: lo <= j < k < hi && k == j + 1 ==> s[j] == s[k] + psize
  }

  /** An area of `need` blocks that ends before entry `hi`, which is not the end of the
      table, with no empty entry between the cursor and it. */
  ghost predicate Candidate(s: seq<nat>, cursor: nat, hi: nat, need: nat, psize: nat, align: nat)
    requires align >= 1
  {
    && cursor + need <= hi < |s| && need >= 1
    && (forall j :: cursor <= j < hi ==> s[j] != 0)
    && Run(s, hi - need, hi, psize)
    && Misaligned(s[hi - 1], align) == 0
  }

  /** The earliest area that fits ends at `hi`; no area fits. */
  ghost predicate FirstFit(s: seq<nat>, cursor: nat, hi: nat, need: nat, psize: nat, align: nat)
    requires align >= 1
  {
    && Candidate(s, cursor, hi, need, psize, align)
    && forall h: nat :: h < hi ==> !Candidate(s, cursor, h, need, psize, align)
  }

  ghost predicate NoFit(s: seq<nat>, cursor: nat, need: nat, psize: nat, align: nat)
    requires align >= 1
  {
    forall h: nat :: !Candidate(s, cursor, h, need, psize, align)
  }

  function Zeroed(s: seq<nat>, lo: int, hi: nat): (z: seq<nat>)
    ensures |z| == |s|
    ensures forall j :: 0 <= j < |s| ==> z[j] == if lo <= j < hi then 0 else s[j]
  {
    seq(|s|, j requires 0 <= j < |s| => if lo <= j < hi then 0 else s[j])
  }

  /** Blocks it takes to cover `csize` bytes, and whole blocks in `csize`. */
  function Need(csize: nat, psize: nat): nat
    requires psize >= 1
  {
    (csize + psize - 1) / psize
  }

  function Take(csize: nat, psize: nat): int
    requires psize >= 1
  {
    csize / psize
  }

  lemma OneMore(q: int, p: int)
    ensures (q + 1) * p == q * p + p
  {
  }

  /** The rounded-up quotient is the rounded-down one, or one more if there is a rest. */
  lemma NeedIs(csize: nat, psize: nat)
    requires psize >= 1 && csize >= 1
    ensures 0 <= Take(csize, psize)
    ensures Need(csize, psize) == Take(csize, psize) + if csize % psize == 0 then 0 else 1
    ensures Need(csize, psize) >= 1
  {
    var q, r := csize / psize, csize % psize;
    DivShrinks(csize, psize);
    if r == 0 {
      DivModUnique(csize + psize - 1, psize, q, psize - 1);
    } else {
      OneMore(q, psize);
      DivModUnique(csize + psize - 1, psize, q + 1, r - 1);
    }
  }

  lemma NeedBounds(csize: nat, psize: nat, m: nat)
    requires psize >= 1 && csize >= 1 && m == Need(csize, psize) && m >= 1
    ensures m * psize >= csize > (m - 1) * psize
  {
    DivShrinks(csize + psize - 1, psize);
    OneMore(m - 1, psize);
  }

  lemma NeedCovers(csize: nat, psize: nat, n: nat)
    requires psize >= 1 && csize >= 1
    ensures n * psize >= csize <==> n >= Need(csize, psize)
    ensures Need(csize, psize) >= 1
    ensures 0 <= Take(csize, psize) <= Need(csize, psize) <= Take(csize, psize) + 1
    ensures csize % psize == 0 <==> Need(csize, psize) == Take(csize, psize)
  {
    NeedIs(csize, psize);
    var m := Need(csize, psize);
    NeedBounds(csize, psize, m);
    hide Need, Take;
    if n >= m {
      MulMonotone(psize, m, n);
    } else {
      MulMonotone(psize, n, m - 1);
    }
  }

  /** A run does not reach across a discontinuity. */
  lemma RunEnds(s: seq<nat>, start: nat, hi: nat, psize: nat)
    requires 1 <= start < hi <= |s| && s[start - 1] != s[start] + psize
    ensures forall lo: nat :: lo < start ==> !Run(s, lo, hi, psize)
  {
  }

  /** An area ending at `i` fits exactly when the run that starts at `start` is long enough
      and its last entry is aligned: the run cannot be extended downward. */
  lemma WithinRun(s: seq<nat>, c: nat, start: nat, i: nat, need: nat, psize: nat, align: nat)
    requires align >= 1 && need >= 1 && c <= start < i < |s|
    requires forall j :: c <= j < i ==> s[j] != 0
    requires Run(s, start, i, psize)
    requires start == c || s[start - 1] != s[start] + psize
    ensures Candidate(s, c, i, need, psize, align) <==>
              i - start >= need && Misaligned(s[i - 1], align) == 0
  {
    if start > c {
      RunEnds(s, start, i, psize);
    }
  }

  /** A live entry is a run, and lengthens the run before it when there is no gap. */
  lemma RunGrows(s: seq<nat>, lo: nat, i: nat, psize: nat)
    requires i < |s| && s[i] != 0
    ensures Run(s, i, i + 1, psize)
    ensures lo < i && Run(s, lo, i, psize) && s[i - 1] == s[i] + psize ==> Run(s, lo, i + 1, psize)
  {
  }

  /** No area reaches back before the cursor, across an empty entry or to the table's end. */
  lemma OutOfReach(s: seq<nat>, c: nat, need: nat, psize: nat, align: nat)
    requires align >= 1
    ensures forall h: nat :: h <= c || h >= |s| ==> !Candidate(s, c, h, need, psize, align)
    ensures forall h: nat, j: nat {:trigger Candidate(s, c, h, need, psize, align), s[j]} ::
              c <= j < h && j < |s| && s[j] == 0 ==> !Candidate(s, c, h, need, psize, align)
  {
  }

  // ---- where a failed search leaves the cursor ----

  /** The start of the run that ends before entry `i`, not reaching back before `c`. */
  function RunStart(s: seq<nat>, c: nat, i: nat, psize: nat): (r: nat)
    requires c < i <= |s|
    ensures c <= r < i
    decreases i
  {
    if i - 1 == c || s[i - 2] != s[i - 1] + psize then i - 1 else RunStart(s, c, i - 1, psize)
  }

  /** On an empty entry the cursor stays; an empty entry further on sends it back to the start
      of the table; at the table's end it stays at the start of the last run. */
  ghost function AfterFailure(s: seq<nat>, c: nat, psize: nat): (r: nat)
    requires c < |s|
    ensures r < |s|
  {
    if s[c] == 0 then c
    else if exists j :: c < j < |s| && s[j] == 0 then 0
    else RunStart(s, c, |s|, psize)
  }

  /** On an empty entry every search fails and leaves the cursor there, so all later ones
      fail too, whatever is free elsewhere. */
  lemma EmptyCursorTraps(s: seq<nat>, c: nat, need: nat, psize: nat, align: nat)
    requires c < |s| && s[c] == 0 && need >= 1 && align >= 1
    ensures NoFit(s, c, need, psize, align) && AfterFailure(s, c, psize) == c
  {
    OutOfReach(s, c, need, psize, align);
  }

  // ---- the scan ----

  /** Between two turns of the scan: the entries from the cursor `c` up to `i` are live, the
      last run among them starts at `start`, and no area that fits has ended yet. */
  ghost predicate Scanning(s: seq<nat>, c: nat, start: nat, i: nat, need: nat, psize: nat, align: nat)
    requires align >= 1
  {
    && c <= start < i <= |s|
    && (forall j :: c <= j < i ==> s[j] != 0)
    && Run(s, start, i, psize)
    && (start == c || s[start - 1] != s[start] + psize)
    && start == RunStart(s, c, i, psize)
    && forall h: nat :: h < i ==> !Candidate(s, c, h, need, psize, align)
  }

  lemma ScanBegins(s: seq<nat>, c: nat, need: nat, psize: nat, align: nat)
    requires align >= 1 && need >= 1 && c < |s| && s[c] != 0
    ensures Scanning(s, c, c, c + 1, need, psize, align)
  {
    OutOfReach(s, c, need, psize, align);
  }

  /** The two tests of a turn find the first fit, or show that no area ends here. */
  lemma ScanTests(s: seq<nat>, c: nat, start: nat, i: nat, need: nat, psize: nat, align: nat)
    requires align >= 1 && need >= 1 && Scanning(s, c, start, i, need, psize, align) && i < |s|
    ensures
      var hit := i - start >= need && Misaligned(s[i - 1], align) == 0;
      && (hit ==> FirstFit(s, c, i, need, psize, align))
      && (!hit ==> !Candidate(s, c, i, need, psize, align))
  {
    WithinRun(s, c, start, i, need, psize, align);
  }

  lemma ScanGoesOn(s: seq<nat>, c: nat, start: nat, i: nat, need: nat, psize: nat, align: nat)
    requires align >= 1 && Scanning(s, c, start, i, need, psize, align) && i < |s|
    requires s[i] != 0 && !Candidate(s, c, i, need, psize, align)
    ensures Scanning(s, c, if s[i - 1] == s[i] + psize then start else i, i + 1, need, psize, align)
  {
    hide Candidate, Misaligned;
    RunGrows(s, start, i, psize);
  }

  /** An empty entry, or the end of the table, ends the search for good. */
  lemma ScanFails(s: seq<nat>, c: nat, start: nat, i: nat, need: nat, psize: nat, align: nat)
    requires align >= 1 && Scanning(s, c, start, i, need, psize, align)
    requires i < |s| ==> s[i] == 0 && !Candidate(s, c, i, need, psize, align)
    ensures NoFit(s, c, need, psize, align)
    ensures AfterFailure(s, c, psize) == if i < |s| then 0 else start
  {
    OutOfReach(s, c, need, psize, align);
    hide Candidate;
  }

  class PageTable {
    const t: array<nat>
    const psize: nat
    var cstart: nat

    ghost predicate Valid()
      reads this
    {
      t.Length >= 1 && cstart < t.Length && psize >= 1
    }

    constructor (t: array<nat>, psize: nat)
      requires t.Length >= 1 && psize >= 1
      ensures Valid() && this.t == t && this.psize == psize && cstart == 0
    {
      this.t, this.psize, cstart := t, psize, 0;
    }

    /** The test that a run of `n` blocks is long enough, and the whole blocks in `csize`. */
    method Enough(n: nat, csize: nat) returns (enough: bool, take: nat)
      requires psize >= 1 && csize >= 1
      ensures enough <==> n >= Need(csize, psize)
      ensures 0 <= take == Take(csize, psize) <= Need(csize, psize)
    {
      NeedCovers(csize, psize, n);
      enough, take := n * psize >= csize, csize / psize;
    }

    /** The inner loop that deletes the used entries. */
    method ClearEntries(lo: nat, hi: nat)
      requires lo <= hi <= t.Length
      modifies t
      ensures t[..] == Zeroed(old(t[..]), lo, hi)
    {
      for j := lo to hi
        invariant forall k :: 0 <= k < t.Length ==> t[k] == if lo <= k < j then 0 else old(t[k])
      {
        t[j] := 0;
      }
    }

    /** The scan: extend a run entry by entry, test it for length and alignment, start over
        after a discontinuity, give up at an empty entry or at the end of the table. */
    method Scan(csize: nat, align: nat) returns (found: bool, i: nat, take: int)
      requires Valid() && csize >= 1 && align >= 1
      modifies this`cstart
      ensures Valid()
      ensures found ==> FirstFit(t[..], old(cstart), i, Need(csize, psize), psize, align)
      ensures found ==> 0 <= take == Take(csize, psize) <= Need(csize, psize)
      ensures !found ==> NoFit(t[..], old(cstart), Need(csize, psize), psize, align)
      ensures !found ==> cstart == AfterFailure(t[..], old(cstart), psize)
    {
      ghost var s, c, need := t[..], cstart, Need(csize, psize);
      found, i, take := false, 0, 0;
      NeedCovers(csize, psize, 0);
      if t[cstart] == 0 {
        EmptyCursorTraps(s, c, need, psize, align);
        return;
      }
      i := cstart + 1;
      ScanBegins(s, c, need, psize, align);
      hide Candidate, Need, Take, Misaligned, Run, RunStart, AfterFailure, NoFit, FirstFit;
      while i < t.Length
        invariant Scanning(s, c, cstart, i, need, psize, align)
      {
        var enough;
        enough, take := Enough(i - cstart, csize);
        ScanTests(s, c, cstart, i, need, psize, align);
        if enough && Misaligned(t[i - 1], align) == 0 {
          found := true;
          return;
        }
        if t[i] == 0 {
          ScanFails(s, c, cstart, i, need, psize, align);
          cstart := 0;
          return;
        }
        ScanGoesOn(s, c, cstart, i, need, psize, align);
        if t[i - 1] as int - t[i] != psize {
          cstart := i;
        }
        i := i + 1;
      }
      ScanFails(s, c, cstart, i, need, psize, align);
    }

    /** The first area that fits, searching from the cursor: the block addresses go down,
        so the area starts at its last entry. The whole blocks of `csize` bytes are taken
        out of the table, and the cursor moves past them. Zero is returned exactly when
        no area fits; the contract says where the cursor is then. */
    method FindContig(csize: nat, align: nat) returns (r: nat, ghost hi: nat)
      requires Valid() && csize >= 1 && align >= 1
      modifies this`cstart, t
      ensures Valid()
      ensures r == 0 ==> t[..] == old(t[..]) && cstart == AfterFailure(t[..], old(cstart), psize)
      ensures r == 0 <==> NoFit(old(t[..]), old(cstart), Need(csize, psize), psize, align)
      ensures r != 0 ==> FirstFit(old(t[..]), old(cstart), hi, Need(csize, psize), psize, align)
      ensures r != 0 ==> r == old(t[..])[hi - 1] && cstart == hi
      ensures r != 0 ==> t[..] == Zeroed(old(t[..]), hi - Take(csize, psize), hi)
    {
      hide Need, Take, Misaligned, AfterFailure;
      var found, i, take := Scan(csize, align);
      hi := i;
      if !found {
        return 0, hi;
      }
      r := t[i - 1];
      cstart := i - take;
      ClearEntries(cstart, i);
      cstart := i;
    }
  }

  // ---- what an area is ----

  /** For an alignment that is a power of two the mask test is the alignment. */
  lemma MaskIsAlignment(addr: nat, k: nat)
    ensures Misaligned(addr, Pow2(k)) == 0 <==> addr % Pow2(k) == 0
  {
    AndMask(addr, k);
  }

  /** The blocks of an area of `n` blocks at `r`. */
  function Blocks(r: nat, n: nat, psize: nat): multiset<nat>
    decreases n
  {
    if n == 0 then multiset{} else multiset{r} + Blocks(r + psize, n - 1, psize)
  }

  /** Entry `j` of a run lies as many blocks above the last entry as it comes before it. */
  lemma {:induction false} RunAddress(s: seq<nat>, lo: nat, hi: nat, j: nat, psize: nat)
    requires Run(s, lo, hi, psize) && lo <= j < hi
    ensures s[j] == s[hi - 1] + (hi - 1 - j) * psize
    decreases hi - j
  {
    if j < hi - 1 {
      RunAddress(s, lo, hi, j + 1, psize);
      assert (hi - 1 - j) * psize == (hi - 2 - j) * psize + psize;
    }
  }

  /** Every byte of an area that was found lies in one of the blocks it was found in. */
  lemma AreaIsCovered(s: seq<nat>, c: nat, hi: nat, csize: nat, psize: nat, align: nat, a: nat)
    requires csize >= 1 && psize >= 1 && align >= 1
    requires Candidate(s, c, hi, Need(csize, psize), psize, align)
    requires s[hi - 1] <= a < s[hi - 1] + csize
    ensures exists j :: hi - Need(csize, psize) <= j < hi && s[j] != 0 && s[j] <= a < s[j] + psize
  {
    var need := Need(csize, psize);
    var m := (a - s[hi - 1]) / psize;
    DivShrinks(a - s[hi - 1], psize);
    NeedCovers(csize, psize, m);
    assert m * psize < csize;
    var j := hi - 1 - m;
    RunAddress(s, hi - need, hi, j, psize);
    assert s[j] <= a < s[j] + psize;
  }

  /** The area is taken out of the table whole exactly when the block size divides the
      requested size; otherwise its topmost block stays behind, live. */
  lemma TakenWhole(s: seq<nat>, c: nat, hi: nat, csize: nat, psize: nat, align: nat)
    requires csize >= 1 && psize >= 1 && align >= 1
    requires Candidate(s, c, hi, Need(csize, psize), psize, align)
    ensures
      var left := Zeroed(s, hi - Take(csize, psize), hi);
      var top := hi - Need(csize, psize);
      && (csize % psize == 0 <==> forall j :: top <= j < hi ==> left[j] == 0)
      && (csize % psize != 0 ==> left[top] != 0 && s[hi - 1] <= left[top] < s[hi - 1] + csize)
  {
    var need := Need(csize, psize);
    NeedCovers(csize, psize, need - 1);
    RunAddress(s, hi - need, hi, hi - need, psize);
    var left := Zeroed(s, hi - Take(csize, psize), hi);
    assert csize % psize != 0 ==> left[hi - need] != 0;
  }

  // ---- the cursor as a trap ----

  /** An area that ends at the last live entry leaves the cursor on an empty one. */
  lemma CarveTraps(s: seq<nat>, c: nat, hi: nat, take: nat, need: nat, psize: nat, align: nat)
    requires align >= 1 && FirstFit(s, c, hi, need, psize, align) && take <= need && s[hi] == 0
    ensures
      var left := Zeroed(s, hi - take, hi);
      forall n: nat :: n >= 1 ==> NoFit(left, hi, n, psize, align)
  {
    var left := Zeroed(s, hi - take, hi);
    forall n: nat | n >= 1
      ensures NoFit(left, hi, n, psize, align)
    {
      EmptyCursorTraps(left, hi, n, psize, align);
    }
  }

  /** It happens: the area 7, 6 is taken from a sorted table, and the free, aligned block 10
      in front of it is not found again. */
  lemma TrapExample()
    ensures
      var s := [10, 7, 6, 0];
      var left := Zeroed(s, 1, 3);
      && FirstFit(s, 0, 3, 2, 1, 2)
      && NoFit(left, 3, 1, 1, 2)
      && Candidate(left, 0, 1, 1, 1, 2)
  {
    var s := [10, 7, 6, 0];
    assert Misaligned(6, 2) == 0 && Misaligned(10, 2) == 0 by {
      assert Pow2(1) == 2;
      MaskIsAlignment(6, 1);
      MaskIsAlignment(10, 1);
    }
    assert forall h: nat :: h < 3 ==> !Candidate(s, 0, h, 2, 1, 2);
    CarveTraps(s, 0, 3, 2, 2, 1, 2);
  }

  /** In a table without an empty entry a failed search moves the cursor to the last run: after
      one for three blocks the free, aligned block 10 is not found any more. */
  lemma LastRunExample()
    ensures
      var s := [10, 7, 6];
      && NoFit(s, 0, 3, 1, 2) && AfterFailure(s, 0, 1) == 1
      && NoFit(s, 1, 1, 1, 2)
      && Candidate(s, 0, 1, 1, 1, 2)
  {
    var s := [10, 7, 6];
    assert Misaligned(7, 2) != 0 && Misaligned(10, 2) == 0 by {
      assert Pow2(1) == 2;
      MaskIsAlignment(7, 1);
      MaskIsAlignment(10, 1);
    }
    assert RunStart(s, 0, 3, 1) == 1;
  }

  // ---- what the sort is for ----

  /** A sorted table of blocks that start on multiples of the block size, each listed once. */
  ghost predicate SortedBlocks(s: seq<nat>, psize: nat)
    requires psize >= 1
  {
    && Descending(s)
    && (forall i :: 0 <= i < |s| ==> s[i] % psize == 0)
    && forall i, j :: 0 <= i < j < |s| && s[i] != 0 ==> s[i] != s[j]
  }

  /** The table lists every block of the area of `n` blocks at `r`. */
  ghost predicate Lists(s: seq<nat>, r: nat, n: nat, psize: nat) {
    r != 0 && forall m :: 0 <= m < n ==> r + m * psize in s
  }

  /** The lowest block of an area, and the area above it. */
  lemma ListsApart(s: seq<nat>, r: nat, n: nat, psize: nat)
    requires n >= 1 && Lists(s, r, n, psize)
    ensures r != 0 && r in s
    ensures n > 1 ==> Lists(s, r + psize, n - 1, psize)
  {
    assert r + 0 * psize in s;
    forall m | 0 <= m < n - 1
      ensures (r + psize) + m * psize in s
    {
      assert r + (m + 1) * psize in s;
    }
  }

  lemma NoMultipleBetween(a: nat, x: nat, p: nat)
    requires p >= 1 && a % p == 0 && x % p == 0 && a < x
    ensures x >= a + p
  {
    DivShrinks(a, p);
    DivShrinks(x, p);
    if x / p <= a / p {
      MulMonotone(p, x / p, a / p);
      assert false;
    }
    MulMonotone(p, a / p + 1, x / p);
  }

  /** Nothing is listed between a block and the one right below it. */
  lemma NextEntry(s: seq<nat>, i: nat, j: nat, psize: nat)
    requires psize >= 1 && SortedBlocks(s, psize) && i < |s| && j < |s|
    requires s[j] != 0 && s[i] == s[j] + psize
    ensures j == i + 1
  {
    if j <= i {
      DescendingFar(s, j, i);
      assert false;
    }
    if j > i + 1 {
      DescendingFar(s, i, i + 1);
      DescendingFar(s, i + 1, j);
      assert s[i] != s[i + 1] && s[i + 1] != s[j];
      NoMultipleBetween(s[j], s[i + 1], psize);
      assert false;
    }
  }

  /** A run lists the blocks of its area. */
  lemma RunLists(s: seq<nat>, hi: nat, n: nat, psize: nat)
    requires 1 <= n <= hi && Run(s, hi - n, hi, psize)
    ensures Lists(s, s[hi - 1], n, psize)
  {
    forall m | 0 <= m < n
      ensures s[hi - 1] + m * psize in s
    {
      RunAddress(s, hi - n, hi, hi - 1 - m, psize);
    }
  }

  /** In a sorted table, blocks that are neighbours in memory are neighbours in the table. */
  lemma {:induction false} NeighboursMeet(s: seq<nat>, r: nat, n: nat, psize: nat) returns (hi: nat)
    requires psize >= 1 && n >= 1 && SortedBlocks(s, psize) && Lists(s, r, n, psize)
    ensures n <= hi <= |s| && Run(s, hi - n, hi, psize) && s[hi - 1] == r
    decreases n
  {
    ListsApart(s, r, n, psize);
    hide SortedBlocks, Lists;
    var j :| 0 <= j < |s| && s[j] == r;
    hi := j + 1;
    if n > 1 {
      var above := NeighboursMeet(s, r + psize, n - 1, psize);
      NextEntry(s, above - 1, j, psize);
    }
  }

  /** From the start of a sorted table, an aligned area of listed blocks fits, unless its
      lowest block is in the last slot of a full table. */
  lemma ListedAreaFits(s: seq<nat>, r: nat, need: nat, psize: nat, align: nat) returns (hi: nat)
    requires psize >= 1 && align >= 1 && need >= 1 && SortedBlocks(s, psize)
    requires Lists(s, r, need, psize) && Misaligned(r, align) == 0
    ensures need <= hi <= |s| && s[hi - 1] == r
    ensures Candidate(s, 0, hi, need, psize, align) <==> hi < |s|
  {
    hi := NeighboursMeet(s, r, need, psize);
    forall j | 0 <= j < hi
      ensures s[j] != 0
    {
      DescendingFar(s, j, hi - 1);
    }
  }

  /** After the sort the search is complete in memory, not just in the table: when it fails,
      any aligned area whose blocks are all free has its lowest block in the last slot. */
  lemma SearchIsComplete(s: seq<nat>, r: nat, need: nat, psize: nat, align: nat)
    requires psize >= 1 && align >= 1 && need >= 1 && SortedBlocks(s, psize)
    requires Lists(s, r, need, psize) && Misaligned(r, align) == 0
    requires NoFit(s, 0, need, psize, align)
    ensures |s| > 0 && r == s[|s| - 1]
  {
    var hi := ListedAreaFits(s, r, need, psize, align);
  }

  /** And when it succeeds, it returns the highest of the aligned areas that are free. */
  lemma HighestAreaFirst(s: seq<nat>, r: nat, hi: nat, need: nat, psize: nat, align: nat)
    requires psize >= 1 && align >= 1 && need >= 1 && SortedBlocks(s, psize)
    requires Lists(s, r, need, psize) && Misaligned(r, align) == 0
    requires FirstFit(s, 0, hi, need, psize, align)
    ensures r <= s[hi - 1]
  {
    var h := ListedAreaFits(s, r, need, psize, align);
    if h < hi {
      assert false;
    }
    DescendingFar(s, hi - 1, h - 1);
  }
}
