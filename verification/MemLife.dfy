/** What the life of the capture memory comes to, from `nac_mem_init` to `nac_mem_exit`: which
    areas the cards get, when areas overlap, and how often each block is freed. */
module MemLife {
  import opened Words
  import opened PageSort
  import opened Contig
  import opened MemPool

  // ---- areas apart ----

  /** Two byte ranges without a common byte. */
  predicate Apart(r: nat, m: nat, s: nat, n: nat) {
    m == 0 || n == 0 || r + m <= s || s + n <= r
  }

  lemma NonzeroLive(s: seq<nat>)
    requires 0 !in s
    ensures Live(s) == multiset(s)
  {
    LiveIsMultiset(s);
  }

  lemma {:induction false} Distinct(pages: seq<Page>)
    requires forall i :: 0 <= i < |pages| ==> pages[i].addr != 0
    requires forall i, j :: 0 <= i < j < |pages| ==> pages[i].addr != pages[j].addr
    ensures 0 !in Addresses(pages)
    ensures forall x :: multiset(Addresses(pages))[x] <= 1
    decreases |pages|
  {
    if pages != [] {
      var front, last := pages[..|pages| - 1], pages[|pages| - 1];
      Distinct(front);
      assert Addresses(pages) == Addresses(front) + [last.addr];
      assert last.addr !in Addresses(front);
    }
  }

  /** Block `m` of an area. */
  lemma {:induction false} InBlocks(r: nat, n: nat, psize: nat, m: nat)
    requires m < n
    ensures Blocks(r, n, psize)[r + m * psize] >= 1
    decreases n
  {
    if m > 0 {
      InBlocks(r + psize, n - 1, psize, m - 1);
      assert r + psize + (m - 1) * psize == r + m * psize;
    } else {
      assert r + m * psize == r;
    }
  }

  lemma BlockIndex(m: int, n: nat, psize: nat, d: nat)
    requires psize >= 1 && d < n * psize && m * psize <= d < m * psize + psize
    ensures 0 <= m < n
  {
    if m < 0 {
      MulMonotone(psize, m, -1);
      assert false;
    }
    if m >= n {
      MulMonotone(psize, n, m);
      assert false;
    }
  }

  lemma Difference(x: int, y: int, p: int)
    ensures (x - y) * p == x * p - y * p
  {
  }

  /** The block-aligned address at or below `a`, counted from an aligned `r`. */
  lemma BlockBelow(r: nat, psize: nat, a: nat)
    requires psize >= 1 && r % psize == 0 && r <= a
    ensures
      var m := a / psize - r / psize;
      m * psize <= a - r < m * psize + psize && (a / psize) * psize == r + m * psize
  {
    DivShrinks(a, psize);
    DivShrinks(r, psize);
    Difference(a / psize, r / psize, psize);
  }

  lemma TakeIs(csize: nat, psize: nat)
    requires psize >= 1
    ensures Take(csize, psize) == csize / psize
  {
  }

  /** The block that holds byte `a` of the whole blocks of an area belongs to the area. */
  lemma BlockOfByte(r: nat, csize: nat, psize: nat, a: nat)
    requires psize >= 1 && r != 0 && r % psize == 0
    requires r <= a < r + Whole(csize, psize)
    ensures Area(r, csize, psize)[(a / psize) * psize] >= 1
  {
    var m := a / psize - r / psize;
    BlockBelow(r, psize, a);
    AreaIsBlocks(r, csize, psize);
    hide Area, Blocks, Take;
    BlockIndex(m, csize / psize, psize, a - r);
    InBlocks(r, csize / psize, psize, m);
    TakeIs(csize, psize);
  }

  lemma {:induction false} AreasOne(vaddr: seq<nat>, size: seq<nat>, psize: nat, i: nat, x: nat)
    requires psize >= 1 && |vaddr| == |size| && i < |vaddr|
    ensures Areas(vaddr, size, psize)[x] >= Area(vaddr[i], size[i], psize)[x]
    decreases |vaddr|
  {
    var last := |vaddr| - 1;
    if i < last {
      AreasOne(vaddr[..last], size[..last], psize, i, x);
    }
  }

  /** Two areas count twice in the sum of all. */
  lemma {:induction false} AreasTwo(vaddr: seq<nat>, size: seq<nat>, psize: nat, i: nat, j: nat, x: nat)
    requires psize >= 1 && |vaddr| == |size| && i < j < |vaddr|
    ensures Areas(vaddr, size, psize)[x] >= Area(vaddr[i], size[i], psize)[x] + Area(vaddr[j], size[j], psize)[x]
    decreases |vaddr|
  {
    hide Area;
    var last := |vaddr| - 1;
    if j < last {
      AreasTwo(vaddr[..last], size[..last], psize, i, j, x);
    } else {
      AreasOne(vaddr[..last], size[..last], psize, i, x);
    }
  }

  /** Areas made of aligned blocks that were each obtained once share no byte of those. */
  lemma AreasDisjoint(vaddr: seq<nat>, size: seq<nat>, psize: nat, i: nat, j: nat)
    requires psize >= 1 && |vaddr| == |size| && i < j < |vaddr|
    requires vaddr[i] != 0 && vaddr[j] != 0
    requires vaddr[i] % psize == 0 && vaddr[j] % psize == 0
    requires forall x :: Areas(vaddr, size, psize)[x] <= 1
    ensures Apart(vaddr[i], Whole(size[i], psize), vaddr[j], Whole(size[j], psize))
  {
    if !Apart(vaddr[i], Whole(size[i], psize), vaddr[j], Whole(size[j], psize)) {
      var a := if vaddr[i] >= vaddr[j] then vaddr[i] else vaddr[j];
      DivShrinks(a, psize);
      var x := (a / psize) * psize;
      AreasTwo(vaddr, size, psize, i, j, x);
      BlockOfByte(vaddr[i], size[i], psize, a);
      BlockOfByte(vaddr[j], size[j], psize, a);
      assert false;
    }
  }

  lemma FirstIsBlock(r: nat, csize: nat, psize: nat)
    requires psize >= 1 && r != 0 && csize >= psize
    ensures Area(r, csize, psize)[r] >= 1
  {
    var q := csize / psize;
    DivShrinks(csize, psize);
    if q <= 0 {
      MulMonotone(psize, q, 0);
      assert false;
    }
  }

  lemma NoWholeBlock(csize: nat, psize: nat)
    requires csize < psize
    ensures Whole(csize, psize) == 0
  {
    DivModUnique(csize, psize, 0, csize);
  }

  lemma AllApart(vaddr: seq<nat>, size: seq<nat>, psize: nat, areas: nat, rest: multiset<nat>, all: multiset<nat>)
    requires psize >= 1 && areas <= |vaddr| == |size|
    requires forall i :: 0 <= i < areas ==> vaddr[i] != 0
    requires rest + Areas(vaddr, size, psize) == all
    requires forall x :: all[x] <= 1
    requires forall x :: x in all ==> x % psize == 0
    ensures forall i, j :: 0 <= i < j < areas ==>
              Apart(vaddr[i], Whole(size[i], psize), vaddr[j], Whole(size[j], psize))
  {
    hide Areas, Area;
    assert forall x :: Areas(vaddr, size, psize)[x] <= all[x];
    forall i | 0 <= i < areas && size[i] >= psize
      ensures vaddr[i] % psize == 0
    {
      FirstIsBlock(vaddr[i], size[i], psize);
      AreasOne(vaddr, size, psize, i, vaddr[i]);
      assert vaddr[i] in all;
    }
    forall i, j | 0 <= i < j < areas
      ensures Apart(vaddr[i], Whole(size[i], psize), vaddr[j], Whole(size[j], psize))
    {
      if size[i] >= psize && size[j] >= psize {
        AreasDisjoint(vaddr, size, psize, i, j);
      } else if size[i] < psize {
        NoWholeBlock(size[i], psize);
      } else {
        NoWholeBlock(size[j], psize);
      }
    }
  }

  lemma OddTwice(top: nat, obtained: seq<nat>, tops: multiset<nat>, freed: multiset<nat>)
    requires top in obtained && top in tops && freed == multiset(obtained) + tops
    ensures top in freed && freed[top] >= 2
  {
  }

  lemma NoOddBlocks(vaddr: seq<nat>, size: seq<nat>, psize: nat, areas: nat)
    requires psize >= 1 && areas <= |vaddr| == |size|
    requires forall i :: 0 <= i < |vaddr| ==> (vaddr[i] != 0 <==> i < areas)
    requires forall i :: 0 <= i < areas ==> size[i] % psize == 0
    ensures Tops(vaddr, size, psize) == multiset{}
  {
    forall i | 0 <= i < |vaddr|
      ensures Top(vaddr[i], size[i], psize) == multiset{}
    {
      TopIs(vaddr[i], size[i], psize);
    }
    hide Tops, Top;
    OddTops(vaddr, size, psize);
  }

  lemma OneOddBlock(vaddr: seq<nat>, size: seq<nat>, psize: nat, i: nat)
    requires psize >= 1 && i < |vaddr| == |size| && vaddr[i] != 0 && size[i] % psize != 0
    ensures vaddr[i] + Whole(size[i], psize) in Tops(vaddr, size, psize)
  {
    TopIs(vaddr[i], size[i], psize);
    OddTops(vaddr, size, psize);
    hide *;
  }

  /** Blocks freed are the blocks obtained and the odd ones; so each is freed once exactly
      if no area has an odd block. */
  lemma FreedOnce(vaddr: seq<nat>, size: seq<nat>, psize: nat, areas: nat, obtained: seq<nat>, freed: multiset<nat>)
    requires psize >= 1 && areas <= |vaddr| == |size|
    requires forall i :: 0 <= i < |vaddr| ==> (vaddr[i] != 0 <==> i < areas)
    requires forall i :: 0 <= i < areas ==> size[i] >= 1 && Lists(obtained, vaddr[i], Need(size[i], psize), psize)
    requires forall x :: multiset(obtained)[x] <= 1
    requires freed == multiset(obtained) + Tops(vaddr, size, psize)
    ensures (forall x :: x in freed ==> freed[x] == 1) <==> forall i :: 0 <= i < areas ==> size[i] % psize == 0
  {
    hide *;
    if i :| 0 <= i < areas && size[i] % psize != 0 {
      OneOddBlock(vaddr, size, psize, i);
      OddIsListed(obtained, vaddr[i], size[i], psize);
      OddTwice(vaddr[i] + Whole(size[i], psize), obtained, Tops(vaddr, size, psize), freed);
    } else {
      NoOddBlocks(vaddr, size, psize, areas);
    }
  }

  // ---- when two areas overlap ----

  /** Address `b` lies in the `n` bytes from `w` on. */
  predicate Within(b: nat, w: nat, n: nat) {
    w <= b < w + n
  }

  /** An area with an odd rest, whose odd block begins inside another area. */
  predicate OddBlockWithin(v: nat, m: nat, w: nat, n: nat, psize: nat)
    requires psize >= 1
  {
    m % psize != 0 && Within(v + Whole(m, psize), w, n)
  }

  lemma WholePart(m: nat, psize: nat)
    requires psize >= 1
    ensures Whole(m, psize) % psize == 0
    ensures Whole(m, psize) <= m < Whole(m, psize) + psize
    ensures m % psize == 0 <==> Whole(m, psize) == m
  {
    DivShrinks(m, psize);
    DivModUnique(Whole(m, psize), psize, m / psize, 0);
  }

  /** Two multiples less than one step apart are the same. */
  lemma SameMultiple(a: nat, b: nat, p: nat)
    requires p >= 1 && a % p == 0 && b % p == 0 && b <= a < b + p
    ensures a == b
  {
    if b < a {
      NoMultipleBetween(b, a, p);
    }
  }

  lemma SumOfMultiples(a: nat, b: nat, p: nat)
    requires p >= 1 && a % p == 0 && b % p == 0
    ensures (a + b) % p == 0
  {
    DivShrinks(a, p);
    DivShrinks(b, p);
    assert (a / p + b / p) * p == (a / p) * p + (b / p) * p;
    DivModUnique(a + b, p, a / p + b / p, 0);
  }

  /** An area that begins inside another one begins on its odd block, or is all odd itself. */
  lemma BeginsOnOdd(v: nat, m: nat, w: nat, n: nat, psize: nat)
    requires psize >= 1 && m >= 1 && v % psize == 0 && w % psize == 0 && Within(v, w, n)
    requires Apart(v, Whole(m, psize), w, Whole(n, psize))
    ensures OddBlockWithin(v, m, w, n, psize) || OddBlockWithin(w, n, v, m, psize)
  {
    WholePart(m, psize);
    WholePart(n, psize);
    if Whole(m, psize) > 0 {
      SumOfMultiples(w, Whole(n, psize), psize);
      hide Whole;
      SameMultiple(v, w + Whole(n, psize), psize);
    }
  }

  lemma ApartBothWays(v: nat, m: nat, w: nat, n: nat)
    ensures Apart(v, m, w, n) == Apart(w, n, v, m)
  {
  }

  /** Two areas share a byte exactly if the odd block of one begins inside the other. */
  lemma SharedByte(v: nat, m: nat, w: nat, n: nat, psize: nat)
    requires psize >= 1 && m >= 1 && n >= 1 && v % psize == 0 && w % psize == 0
    requires Apart(v, Whole(m, psize), w, Whole(n, psize))
    ensures !Apart(v, m, w, n) <==> OddBlockWithin(v, m, w, n, psize) || OddBlockWithin(w, n, v, m, psize)
  {
    WholePart(m, psize);
    WholePart(n, psize);
    if !Apart(v, m, w, n) {
      if w <= v {
        BeginsOnOdd(v, m, w, n, psize);
      } else {
        ApartBothWays(v, Whole(m, psize), w, Whole(n, psize));
        BeginsOnOdd(w, n, v, m, psize);
      }
    }
  }

  // ---- which area the first card gets ----

  /** Some aligned area of the size is covered by listed blocks. */
  ghost predicate HasArea(blocks: seq<nat>, csize: nat, psize: nat, align: nat)
    requires psize >= 1 && align >= 1
  {
    exists r: nat :: Lists(blocks, r, Need(csize, psize), psize) && Misaligned(r, align) == 0
  }

  /** The aligned area at `r` is covered by listed blocks, and it is the highest. */
  ghost predicate HighestArea(blocks: seq<nat>, r: nat, csize: nat, psize: nat, align: nat)
    requires psize >= 1 && align >= 1
  {
    && Lists(blocks, r, Need(csize, psize), psize) && Misaligned(r, align) == 0
    && forall r': nat :: Lists(blocks, r', Need(csize, psize), psize) && Misaligned(r', align) == 0 ==> r' <= r
  }

  /** The first of the sizes tried, the wanted one and its halves above the minimum, for which
      there is an area; zero if there is none. */
  ghost function FirstSize(blocks: seq<nat>, csize: nat, psize: nat, align: nat): nat
    requires psize >= 1 && align >= 1
    decreases csize
  {
    if HasArea(blocks, csize, psize, align) then csize
    else if csize / 2 > MIN_SIZE then FirstSize(blocks, csize / 2, psize, align)
    else 0
  }

  lemma FitIsArea(s: seq<nat>, csize: nat, psize: nat, align: nat)
    requires psize >= 1 && align >= 1 && csize >= 1 && SortedBlocks(s, psize) && |s| > 0 && s[|s| - 1] == 0
    ensures NoFit(s, 0, Need(csize, psize), psize, align) <==> !HasArea(s, csize, psize, align)
  {
    NeedIs(csize, psize);
    var need := Need(csize, psize);
    hide Need, SortedBlocks;
    if r: nat :| Lists(s, r, need, psize) && Misaligned(r, align) == 0 {
      if NoFit(s, 0, need, psize, align) {
        hide Candidate, NoFit;
        SearchIsComplete(s, r, need, psize, align);
        assert false;
      }
    } else if h: nat :| Candidate(s, 0, h, need, psize, align) {
      RunLists(s, h, need, psize);
      assert false;
    }
  }

  lemma BackToStart(s: seq<nat>, psize: nat)
    requires |s| > 0 && s[|s| - 1] == 0
    ensures AfterFailure(s, 0, psize) == 0
  {
  }

  /** In a sorted table with an empty entry the first card gets the highest area of the first
      size that has one, */
  lemma {:induction false} FirstCardGets(s: seq<nat>, csize: nat, hi: nat, csize': nat, psize: nat, align: nat)
    requires psize >= 1 && align >= 1 && csize >= 1 && SortedBlocks(s, psize) && |s| > 0 && s[|s| - 1] == 0
    requires 0 < hi < |s| && Carved(s, 0, csize, hi, csize', psize, align)
    ensures csize' >= 1 && csize' == FirstSize(s, csize, psize, align)
    ensures HighestArea(s, s[hi - 1], csize', psize, align)
    decreases csize
  {
    FitIsArea(s, csize, psize, align);
    BackToStart(s, psize);
    NeedIs(csize, psize);
    var c': nat :|
      && c' < |s| && Tries(s, 0, csize, c', csize', psize, align)
      && FirstFit(s, c', hi, Need(csize', psize), psize, align);
    if c' == 0 && csize' == csize {
      var need := Need(csize, psize);
      assert Candidate(s, 0, hi, need, psize, align);
      RunLists(s, hi, need, psize);
      forall r: nat | Lists(s, r, need, psize) && Misaligned(r, align) == 0
        ensures r <= s[hi - 1]
      {
        HighestAreaFirst(s, r, hi, need, psize, align);
      }
    } else {
      hide FirstFit, Need, AfterFailure, SortedBlocks, HighestArea, HasArea, NoFit;
      assert Carved(s, 0, csize / 2, hi, csize', psize, align);
      FirstCardGets(s, csize / 2, hi, csize', psize, align);
    }
  }

  /** or nothing, exactly if no size tried has one. */
  lemma {:induction false} FirstCardFails(s: seq<nat>, csize: nat, psize: nat, align: nat)
    requires psize >= 1 && align >= 1 && csize >= 1 && SortedBlocks(s, psize) && |s| > 0 && s[|s| - 1] == 0
    requires CarveFails(s, 0, csize, psize, align)
    ensures FirstSize(s, csize, psize, align) == 0
    decreases csize
  {
    FitIsArea(s, csize, psize, align);
    BackToStart(s, psize);
    hide NoFit, Need, AfterFailure, SortedBlocks, HasArea;
    if csize / 2 > MIN_SIZE {
      FirstCardFails(s, csize / 2, psize, align);
    }
  }

  /** Which areas there are depends on the blocks alone, not on their order. */
  ghost predicate SameBlocks(s: seq<nat>, blocks: seq<nat>) {
    forall x :: x != 0 ==> (x in s <==> x in blocks)
  }

  lemma SameLists(s: seq<nat>, blocks: seq<nat>, r: nat, n: nat, psize: nat)
    requires SameBlocks(s, blocks)
    ensures Lists(s, r, n, psize) == Lists(blocks, r, n, psize)
  {
    forall m: nat | r != 0
      ensures r + m * psize in s <==> r + m * psize in blocks
    {
      MulMonotone(psize, 0, m);
    }
  }

  lemma SameAreas(s: seq<nat>, blocks: seq<nat>, csize: nat, psize: nat, align: nat)
    requires psize >= 1 && align >= 1 && SameBlocks(s, blocks)
    ensures HasArea(s, csize, psize, align) == HasArea(blocks, csize, psize, align)
    ensures forall r: nat :: HighestArea(s, r, csize, psize, align) == HighestArea(blocks, r, csize, psize, align)
  {
    forall r: nat
      ensures Lists(s, r, Need(csize, psize), psize) == Lists(blocks, r, Need(csize, psize), psize)
    {
      SameLists(s, blocks, r, Need(csize, psize), psize);
    }
    hide Lists, Need, Misaligned;
  }

  lemma {:induction false} SameFirstSize(s: seq<nat>, blocks: seq<nat>, csize: nat, psize: nat, align: nat)
    requires psize >= 1 && align >= 1 && SameBlocks(s, blocks)
    ensures FirstSize(s, csize, psize, align) == FirstSize(blocks, csize, psize, align)
    decreases csize
  {
    SameAreas(s, blocks, csize, psize, align);
    hide HasArea, SameBlocks;
    if csize / 2 > MIN_SIZE {
      SameFirstSize(s, blocks, csize / 2, psize, align);
    }
  }

  lemma LiveSame(s: seq<nat>, blocks: seq<nat>)
    requires Live(s) == Live(blocks)
    ensures SameBlocks(s, blocks)
  {
    LiveIsMultiset(s);
    LiveIsMultiset(blocks);
    forall x | x != 0
      ensures x in s <==> x in blocks
    {
      assert multiset(s)[x] == Live(s)[x] == Live(blocks)[x] == multiset(blocks)[x];
    }
  }

  lemma TwiceInTable(s: seq<nat>, i: nat, j: nat)
    requires i < j < |s| && s[i] == s[j]
    ensures multiset(s)[s[i]] >= 2
  {
    assert s == s[..i] + [s[i]] + s[i + 1..j] + [s[j]] + s[j + 1..];
  }

  /** The sorted low table is one the completeness of the search applies to. */
  lemma TableIsSorted(s: seq<nat>, spare: multiset<nat>, obtained: seq<nat>, psize: nat)
    requires psize >= 1 && Descending(s) && Live(s) + spare == multiset(obtained)
    requires forall x :: multiset(obtained)[x] <= 1
    requires forall x :: x in obtained ==> x % psize == 0
    ensures SortedBlocks(s, psize)
  {
    LiveIsMultiset(s);
    forall i | 0 <= i < |s|
      ensures s[i] != 0 ==> s[i] in obtained && multiset(s)[s[i]] <= 1
    {
      if s[i] != 0 {
        assert Live(s)[s[i]] == multiset(s)[s[i]] <= multiset(obtained)[s[i]];
      }
    }
    DivModUnique(0, psize, 0, 0);
    hide Live;
    forall i, j | 0 <= i < j < |s| && s[i] != 0
      ensures s[i] != s[j]
    {
      if s[i] == s[j] {
        TwiceInTable(s, i, j);
      }
    }
  }

  lemma LastStaysEmpty(was: seq<nat>, now: seq<nat>)
    requires |was| > 0 && was[|was| - 1] == 0 && multiset(now) == multiset(was) && Descending(now)
    ensures |now| == |was| && now[|now| - 1] == 0
  {
    assert |multiset(now)| == |now|;
    assert 0 in multiset(was);
    var k :| 0 <= k < |now| && now[k] == 0;
    DescendingFar(now, k, |now| - 1);
  }

  lemma ListedObtained(table: seq<nat>, obtained: seq<nat>, spare: multiset<nat>, r: nat, n: nat, psize: nat)
    requires Lists(table, r, n, psize) && Live(table) + spare == multiset(obtained)
    ensures Lists(obtained, r, n, psize)
  {
    LiveIsMultiset(table);
    forall m | 0 <= m < n
      ensures r + m * psize in obtained
    {
      MulMonotone(psize, 0, m);
      assert multiset(table)[r + m * psize] >= 1;
      assert multiset(obtained)[r + m * psize] >= 1;
    }
  }

  lemma ListsFirst(s: seq<nat>, r: nat, csize: nat, psize: nat)
    requires psize >= 1 && csize >= 1 && Lists(s, r, Need(csize, psize), psize)
    ensures r in s
  {
    NeedIs(csize, psize);
    assert r + 0 * psize in s;
  }

  // ---- the life of the module ----

  /** What the run guarantees about two areas. */
  predicate AreasRelate(v: nat, m: nat, w: nat, n: nat, psize: nat)
    requires psize >= 1
  {
    && Apart(v, Whole(m, psize), w, Whole(n, psize))
    && (!Apart(v, m, w, n) <==> OddBlockWithin(v, m, w, n, psize) || OddBlockWithin(w, n, v, m, psize))
    && (m % psize == 0 && n % psize == 0 ==> Apart(v, m, w, n))
  }

  lemma AllRelate(vaddr: seq<nat>, size: seq<nat>, psize: nat, areas: nat, obtained: seq<nat>)
    requires psize >= 1 && areas <= |vaddr| == |size|
    requires forall i :: 0 <= i < areas ==> size[i] >= 1 && Lists(obtained, vaddr[i], Need(size[i], psize), psize)
    requires forall x :: x in obtained ==> x % psize == 0
    requires forall i, j :: 0 <= i < j < areas ==> Apart(vaddr[i], Whole(size[i], psize), vaddr[j], Whole(size[j], psize))
    ensures forall i, j :: 0 <= i < j < areas ==> AreasRelate(vaddr[i], size[i], vaddr[j], size[j], psize)
  {
    forall i, j | 0 <= i < j < areas
      ensures AreasRelate(vaddr[i], size[i], vaddr[j], size[j], psize)
    {
      ListsFirst(obtained, vaddr[i], size[i], psize);
      ListsFirst(obtained, vaddr[j], size[j], psize);
      hide Lists, Need, Whole, OddBlockWithin;
      SharedByte(vaddr[i], size[i], vaddr[j], size[j], psize);
      WholePart(size[i], psize);
      WholePart(size[j], psize);
    }
  }

  /** What the run guarantees about the first card, given the low blocks obtained. */
  ghost predicate FirstCard(blocks: seq<nat>, areas: nat, vaddr: seq<nat>, size: seq<nat>, wanted: nat,
                            psize: nat, align: nat)
    requires psize >= 1 && align >= 1 && |vaddr| == |size| >= 1
  {
    && (areas >= 1 <==> FirstSize(blocks, wanted, psize, align) != 0)
    && (areas >= 1 ==> size[0] == FirstSize(blocks, wanted, psize, align)
                       && HighestArea(blocks, vaddr[0], size[0], psize, align))
  }

  /** What the hand-out says about its first card. */
  lemma FirstOfAll(tables: seq<seq<nat>>, cursors: seq<nat>, wanted: seq<nat>, vaddr: seq<nat>, size: seq<nat>,
                   areas: nat, psize: nat, align: nat)
    requires psize >= 1 && align >= 1 && |vaddr| >= 1
    requires HandsOut(tables, cursors, wanted, vaddr, size, areas, psize, align)
    requires |tables[0]| > 0 && cursors[0] == 0
    ensures areas > 0 ==>
              && |cursors| > 1 && 0 < cursors[1] < |tables[0]| && vaddr[0] == tables[0][cursors[1] - 1]
              && Carved(tables[0], 0, wanted[0], cursors[1], size[0], psize, align)
    ensures areas == 0 ==> CarveFails(tables[0], 0, wanted[0], psize, align)
  {
    hide Carved, CarveFails;
  }

  lemma FirstCardServed(blocks: seq<nat>, tables: seq<seq<nat>>, cursors: seq<nat>, areas: nat, vaddr: seq<nat>,
                        size: seq<nat>, wanted: nat, psize: nat, align: nat)
    requires psize >= 1 && align >= 1 && |vaddr| == |size| >= 1 && wanted >= 1
    requires HandsOut(tables, cursors, seq(|vaddr|, _ => wanted), vaddr, size, areas, psize, align)
    requires cursors[0] == 0 && |tables[0]| > 0 && tables[0][|tables[0]| - 1] == 0
    requires SortedBlocks(tables[0], psize) && Live(tables[0]) == Live(blocks)
    ensures FirstCard(blocks, areas, vaddr, size, wanted, psize, align)
  {
    hide SortedBlocks, FirstSize, HighestArea, CarveFails, Carved, Live;
    FirstOfAll(tables, cursors, seq(|vaddr|, _ => wanted), vaddr, size, areas, psize, align);
    hide HandsOut;
    LiveSame(tables[0], blocks);
    SameFirstSize(tables[0], blocks, wanted, psize, align);
    if areas > 0 {
      FirstCardGets(tables[0], wanted, cursors[1], size[0], psize, align);
      SameAreas(tables[0], blocks, size[0], psize, align);
    } else {
      FirstCardFails(tables[0], wanted, psize, align);
    }
  }

  lemma Multiples(pages: seq<Page>, psize: nat)
    requires psize >= 1 && forall i :: 0 <= i < |pages| ==> pages[i].addr % psize == 0
    ensures forall x :: x in Addresses(pages) ==> x % psize == 0
    ensures forall x :: x in multiset(Addresses(pages)) ==> x % psize == 0
  {
  }

  /** The first half of initialisation: blocks are obtained, and the low ones sorted. */
  method Prepare(supply: seq<Page>, psize: nat, align: nat, cards: nat, wanted: nat, lowSlots: nat, highSlots: nat)
    returns (pool: Pool, taken: nat)
    requires psize >= 1 && align >= 1 && lowSlots >= 1
    requires Highs(supply[..Taken(supply, lowSlots)]) <= highSlots
    requires forall i :: 0 <= i < |supply| ==> supply[i].addr != 0
    ensures fresh(pool) && fresh(pool.table) && fresh(pool.ptable) && fresh(pool.htable)
    ensures fresh(pool.vaddr) && fresh(pool.size)
    ensures pool.Shape() && pool.psize == psize && pool.align == align && pool.table.cstart == 0 && pool.freed == []
    ensures pool.vaddr.Length == cards
    ensures forall i :: 0 <= i < cards ==> pool.vaddr[i] == 0 && pool.size[i] == wanted
    ensures taken == Taken(supply, lowSlots)
    ensures pool.ptable.Length == lowSlots && Descending(pool.ptable[..])
    ensures Live(pool.ptable[..]) == Live(Lows(supply[..taken]))
    ensures Live(pool.ptable[..]) + Live(pool.htable[..]) == Live(Addresses(supply[..taken]))
    ensures |Lows(supply[..taken])| < lowSlots ==> pool.ptable[lowSlots - 1] == 0
  {
    hide Live, Lows, Highs, Taken, Addresses, Descending;
    var ok;
    pool := new Pool(psize, align, cards, wanted, lowSlots, highSlots);
    taken, ok := pool.AllocPtable(supply);
    ghost var filled := pool.ptable[..];
    pool.SortTable();
    if |Lows(supply[..taken])| < lowSlots {
      LastStaysEmpty(filled, pool.ptable[..]);
    }
  }

  /** From initialisation to exit: the blocks freed are the blocks obtained from the kernel,
      and the odd block of each area whose size is not a whole number of blocks once more. So
      every block is freed exactly once if and only if all areas are whole. The areas of the
      cards are a prefix of the slots and aligned; two of them share a byte exactly if the odd
      block of one begins inside the other. If the low table did not fill up, the first card
      gets the highest aligned area of the first size tried that has one, and nothing exactly
      if none has. */
  method Lifetime(supply: seq<Page>, psize: nat, align: nat, cards: nat, wanted: nat, lowSlots: nat, highSlots: nat)
    returns (taken: nat, areas: nat, vaddr: seq<nat>, size: seq<nat>, freed: seq<nat>,
             ghost tables: seq<seq<nat>>, ghost cursors: seq<nat>)
    requires psize >= 1 && align >= 1 && lowSlots >= 1 && wanted >= 1
    requires Highs(supply[..Taken(supply, lowSlots)]) <= highSlots
    requires forall i :: 0 <= i < |supply| ==> supply[i].addr != 0 && supply[i].addr % psize == 0
    requires forall i, j :: 0 <= i < j < |supply| ==> supply[i].addr != supply[j].addr
    ensures taken == Taken(supply, lowSlots) && |vaddr| == |size| == cards && areas <= cards
    ensures multiset(freed) == multiset(Addresses(supply[..taken])) + Tops(vaddr, size, psize)
    ensures (forall x :: x in multiset(freed) ==> multiset(freed)[x] == 1)
            <==> forall i :: 0 <= i < areas ==> size[i] % psize == 0
    ensures forall i :: 0 <= i < cards ==> (vaddr[i] != 0 <==> i < areas)
    ensures forall i :: 0 <= i < areas ==> Misaligned(vaddr[i], align) == 0 && 1 <= size[i] <= wanted
    ensures forall i, j :: 0 <= i < j < areas ==> AreasRelate(vaddr[i], size[i], vaddr[j], size[j], psize)
    ensures HandsOut(tables, cursors, seq(cards, _ => wanted), vaddr, size, areas, psize, align)
    ensures |tables[0]| == lowSlots && cursors[0] == 0 && Descending(tables[0])
    ensures Live(tables[0]) == Live(Lows(supply[..taken]))
    ensures cards >= 1 && |Lows(supply[..taken])| < lowSlots ==>
              FirstCard(Lows(supply[..taken]), areas, vaddr, size, wanted, psize, align)
  {
    hide Live, Areas, Tops, Misaligned, Lists, Need, Lows, Highs, Taken, Addresses, FirstCard, AreasRelate;
    hide Carved, CarveFails, SortedBlocks, Whole, Apart, Descending, HandsOut;
    var pool;
    pool, taken := Prepare(supply, psize, align, cards, wanted, lowSlots, highSlots);
    ghost var obtained := Addresses(supply[..taken]);
    Distinct(supply[..taken]);
    Multiples(supply[..taken], psize);
    NonzeroLive(obtained);
    ghost var sorted, spare := pool.ptable[..], Live(pool.htable[..]);
    TableIsSorted(sorted, spare, obtained, psize);
    assert pool.size[..] == seq(cards, _ => wanted);
    areas, tables, cursors := pool.NacMem();
    vaddr, size := pool.vaddr[..], pool.size[..];
    forall i | 0 <= i < areas
      ensures size[i] >= 1 && Lists(obtained, vaddr[i], Need(size[i], psize), psize)
    {
      ListedObtained(sorted, obtained, spare, vaddr[i], Need(size[i], psize), psize);
    }
    AllApart(vaddr, size, psize, areas, Live(pool.ptable[..]) + Live(pool.htable[..]), multiset(obtained));
    AllRelate(vaddr, size, psize, areas, obtained);
    if cards >= 1 && |Lows(supply[..taken])| < lowSlots {
      FirstCardServed(Lows(supply[..taken]), tables, cursors, areas, vaddr, size, wanted, psize, align);
    }
    freed := pool.Exit();
    NonzeroLive(freed);
    FreedOnce(vaddr, size, psize, areas, obtained, multiset(freed));
  }

  // ---- odd sizes: two runs ----

  /** Two low blocks of 16 MB at 16 and 32 MB hold one aligned area of 24 MB. */
  lemma OddAreaThere(blocks: seq<nat>)
    requires blocks == [0x200_0000, 0x100_0000]
    ensures FirstSize(blocks, 0x180_0000, 0x100_0000, 0x100_0000) == 0x180_0000
    ensures forall r: nat :: HighestArea(blocks, r, 0x180_0000, 0x100_0000, 0x100_0000) ==> r == 0x100_0000
  {
    assert Need(0x180_0000, 0x100_0000) == 2;
    forall r: nat | Lists(blocks, r, 2, 0x100_0000)
      ensures r == 0x100_0000
    {
      assert r + 0 * 0x100_0000 in blocks && r + 1 * 0x100_0000 in blocks;
    }
    assert Lists(blocks, 0x100_0000, 2, 0x100_0000) by {
      forall m | 0 <= m < 2
        ensures 0x100_0000 + m * 0x100_0000 in blocks
      {
        assert blocks[1 - m] == 0x100_0000 + m * 0x100_0000;
      }
    }
    assert Misaligned(0x100_0000, 0x100_0000) == 0 by {
      Pow2Values();
      MaskIsAlignment(0x100_0000, 24);
    }
  }

  function TwoPages(): seq<Page> {
    [Page(0x200_0000, true), Page(0x100_0000, true)]
  }

  lemma TwoPagesTaken()
    ensures Lows(TwoPages()) == Addresses(TwoPages()) == [0x200_0000, 0x100_0000]
    ensures Highs(TwoPages()) == 0 && Taken(TwoPages(), 3) == 2 && TwoPages()[..2] == TwoPages()
  {
    var p := TwoPages();
    PagesStep(p, 0);
    PagesStep(p, 1);
    assert p[..0] == [] && p[..2] == p && Highs([]) == 0 && Lows([]) == [];
    TakenStep(p, 0, 3);
    TakenStep(p, 1, 2);
    TakenNone(p[2..], 1);
    assert p[0..] == p;
  }

  lemma OddTop()
    ensures Tops([0x100_0000], [0x180_0000], 0x100_0000) == multiset{0x200_0000}
  {
    var v, z := [0x100_0000], [0x180_0000];
    assert Top(0x100_0000, 0x180_0000, 0x100_0000) == multiset{0x200_0000};
    hide *;
    TopsNil(0x100_0000);
    TopsStep(v, z, 0, 0x100_0000);
    assert v[..1] == v && v[..0] == [] && z[..1] == z && z[..0] == [];
  }

  /** One card that wants one and a half blocks, and two blocks: the upper one is freed with
      the leftovers and again with the area. */
  method OddArea() returns (freed: seq<nat>)
    ensures multiset(freed)[0x200_0000] == 2
  {
    hide Taken, Highs, Lows, Addresses, FirstSize, HighestArea, Tops, Misaligned, AreasRelate;
    TwoPagesTaken();
    OddAreaThere(Lows(TwoPages()));
    OddTop();
    assert forall i :: 0 <= i < 2 ==> TwoPages()[i].addr % 0x100_0000 == 0;
    var taken, areas, vaddr, size;
    ghost var tables, cursors;
    taken, areas, vaddr, size, freed, tables, cursors := Lifetime(TwoPages(), 0x100_0000, 0x100_0000, 1, 0x180_0000, 3, 0);
    assert vaddr == [0x100_0000] && size == [0x180_0000];
  }

  const MB: nat := 0x10_0000

  /** Blocks of 32 MB, with a gap below the third and nothing below 128. */
  function GappedTable(): seq<nat> {
    [0x1600_0000, 0x1400_0000, 0x1200_0000, 0x1000_0000, 0x800_0000, 0]
  }

  lemma Pow26()
    ensures Pow2(26) == 0x400_0000
  {
    Pow2Values();
    assert Pow2(2) == 4;
    assert Pow2(26) == Pow2(2) * Pow2(24) by {
      Pow2Add(2, 24);
    }
  }

  lemma Aligned64()
    ensures Misaligned(0x1000_0000, 0x400_0000) == 0 && Misaligned(0x1400_0000, 0x400_0000) == 0
    ensures Misaligned(0x1200_0000, 0x400_0000) != 0
  {
    Pow26();
    hide Misaligned, Pow2;
    MaskIsAlignment(0x1000_0000, 26);
    MaskIsAlignment(0x1400_0000, 26);
    MaskIsAlignment(0x1200_0000, 26);
  }

  /** The first search, for 66 MB, finds the area at 256. */
  lemma FirstOfTwo(hi: nat, csize: nat)
    requires Carved(GappedTable(), 0, 0x420_0000, hi, csize, 0x200_0000, 0x400_0000)
    ensures hi == 4 && csize == 0x420_0000
  {
    Aligned64();
    hide Misaligned;
    var s := GappedTable();
    assert Need(0x420_0000, 0x200_0000) == 3;
    assert Candidate(s, 0, 4, 3, 0x200_0000, 0x400_0000);
    assert forall h: nat :: h < 4 ==> !Candidate(s, 0, h, 3, 0x200_0000, 0x400_0000);
  }

  /** The second search finds nothing behind that and goes back to the start; the halved one,
      for 33 MB, finds the area at 320. */
  lemma SecondOfTwo(s: seq<nat>, hi: nat, csize: nat)
    requires s == Zeroed(GappedTable(), 2, 4)
    requires Carved(s, 4, 0x420_0000, hi, csize, 0x200_0000, 0x400_0000)
    ensures hi == 2 && csize == 0x210_0000
  {
    Aligned64();
    hide Misaligned;
    assert Need(0x420_0000, 0x200_0000) == 3 && Need(0x210_0000, 0x200_0000) == 2;
    assert NoFit(s, 4, 3, 0x200_0000, 0x400_0000);
    assert s[5] == 0 && AfterFailure(s, 4, 0x200_0000) == 0;
    assert Candidate(s, 0, 2, 2, 0x200_0000, 0x400_0000);
    assert forall h: nat :: h < 2 ==> !Candidate(s, 0, h, 2, 0x200_0000, 0x400_0000);
  }

  lemma TwoServed()
    ensures !CarveFails(GappedTable(), 0, 0x420_0000, 0x200_0000, 0x400_0000)
    ensures !CarveFails(Zeroed(GappedTable(), 2, 4), 4, 0x420_0000, 0x200_0000, 0x400_0000)
  {
    Aligned64();
    hide Misaligned;
    var s, t := GappedTable(), Zeroed(GappedTable(), 2, 4);
    assert Need(0x420_0000, 0x200_0000) == 3 && Need(0x210_0000, 0x200_0000) == 2;
    assert Candidate(s, 0, 4, 3, 0x200_0000, 0x400_0000);
    assert t[5] == 0 && AfterFailure(t, 4, 0x200_0000) == 0;
    assert Candidate(t, 0, 2, 2, 0x200_0000, 0x400_0000);
  }

  /** Two cards that want 66 MB each get the areas from 256 to 322 and from 320 to 353. */
  method OverlappingAreas() returns (vaddr: seq<nat>, size: seq<nat>)
    ensures vaddr == [256 * MB, 320 * MB] && size == [66 * MB, 33 * MB]
    ensures !Apart(vaddr[0], size[0], vaddr[1], size[1])
  {
    hide Carved, CarveFails, Lists, Misaligned, Live, Area, Thinned;
    var pool := new Pool(0x200_0000, 0x400_0000, 2, 0x420_0000, 6, 0);
    var blocks := GappedTable();
    for i := 0 to 6
      invariant pool.Shape() && pool.table.cstart == 0
      invariant fresh(pool) && fresh(pool.table) && fresh(pool.ptable) && fresh(pool.vaddr) && fresh(pool.size)
      invariant forall k :: 0 <= k < 2 ==> pool.vaddr[k] == 0 && pool.size[k] == 0x420_0000
      invariant forall k :: 0 <= k < i ==> pool.ptable[k] == blocks[k]
    {
      pool.ptable[i] := blocks[i];
    }
    assert pool.ptable[..] == blocks;
    TwoServed();
    var ok := pool.Carve(0);
    FirstOfTwo(pool.table.cstart, pool.size[0]);
    assert Take(0x420_0000, 0x200_0000) == 2;
    ok := pool.Carve(1);
    SecondOfTwo(Zeroed(blocks, 2, 4), pool.table.cstart, pool.size[1]);
    vaddr, size := pool.vaddr[..], pool.size[..];
  }
}
