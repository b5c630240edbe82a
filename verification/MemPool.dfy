/** The life of the capture memory, from `nac_mem_init` to `nac_mem_exit`: blocks obtained
    from the kernel are sorted, areas are carved out for the cards, what is left goes back
    at once and the areas go back at the end. */
module MemPool {
  import opened Words
  import opened PageSort
  import opened Contig

  const MIN_SIZE: nat := 0x200_0000

  /** A block the kernel hands out, and whether its physical address is below 4 GB. */
  datatype Page = Page(addr: nat, low: bool)

  // ---- accounting ----

  ghost function One(x: nat): multiset<nat> {
    if x == 0 then multiset{} else multiset{x}
  }

  /** The blocks listed in a table, whose empty entries are zero. */
  ghost function Live(s: seq<nat>): multiset<nat> {
    if s == [] then multiset{} else Live(s[..|s| - 1]) + One(s[|s| - 1])
  }

  lemma LiveSnoc(s: seq<nat>, x: nat)
    ensures Live(s + [x]) == Live(s) + One(x)
  {
    assert (s + [x])[..|s|] == s;
  }

  lemma LiveNil()
    ensures Live([]) == multiset{}
  {
  }

  lemma LiveStep(s: seq<nat>, i: nat)
    requires i < |s|
    ensures Live(s[..i + 1]) == Live(s[..i]) + One(s[i])
  {
    assert s[..i + 1] == s[..i] + [s[i]];
    LiveSnoc(s[..i], s[i]);
  }

  lemma {:induction false} LiveConcat(a: seq<nat>, b: seq<nat>)
    ensures Live(a + b) == Live(a) + Live(b)
  {
    LiveNil();
    hide Live, One;
    if b == [] {
      assert a + b == a;
    } else {
      var front, x := b[..|b| - 1], b[|b| - 1];
      assert b == front + [x];
      LiveSnoc(front, x);
      LiveConcat(a, front);
      assert a + b == (a + front) + [x];
      LiveSnoc(a + front, x);
    }
  }

  lemma {:induction false} LiveZeros(s: seq<nat>)
    requires forall j :: 0 <= j < |s| ==> s[j] == 0
    ensures Live(s) == multiset{}
  {
    if s != [] {
      LiveZeros(s[..|s| - 1]);
    }
  }

  lemma LiveStore(s: seq<nat>, i: nat, x: nat)
    requires i < |s| && s[i] == 0
    ensures Live(s[i := x]) == Live(s) + One(x)
  {
    assert One(0) == multiset{};
    hide Live, One;
    assert s == (s[..i] + [0]) + s[i + 1..];
    assert s[i := x] == (s[..i] + [x]) + s[i + 1..];
    LiveConcat(s[..i] + [0], s[i + 1..]);
    LiveConcat(s[..i] + [x], s[i + 1..]);
    LiveSnoc(s[..i], 0);
    LiveSnoc(s[..i], x);
  }

  function Addresses(pages: seq<Page>): seq<nat> {
    seq(|pages|, i requires 0 <= i < |pages| => pages[i].addr)
  }

  /** How many blocks lie above 4 GB. */
  function Highs(pages: seq<Page>): nat {
    if pages == [] then 0
    else Highs(pages[..|pages| - 1]) + if pages[|pages| - 1].low then 0 else 1
  }

  /** The addresses of the blocks below 4 GB. */
  function Lows(pages: seq<Page>): seq<nat> {
    if pages == [] then []
    else Lows(pages[..|pages| - 1]) + if pages[|pages| - 1].low then [pages[|pages| - 1].addr] else []
  }

  /** How many blocks are taken before `slots` of them have been low ones. */
  function Taken(supply: seq<Page>, slots: nat): (k: nat)
    ensures k <= |supply|
  {
    if slots == 0 || supply == [] then 0
    else 1 + Taken(supply[1..], if supply[0].low then slots - 1 else slots)
  }

  lemma {:induction false} HighsPrefix(pages: seq<Page>, i: nat)
    requires i <= |pages|
    ensures Highs(pages[..i]) <= Highs(pages)
    decreases |pages|
  {
    if i < |pages| {
      var front := pages[..|pages| - 1];
      HighsPrefix(front, i);
      assert front[..i] == pages[..i];
    } else {
      assert pages[..i] == pages;
    }
  }

  lemma PagesStep(pages: seq<Page>, i: nat)
    requires i < |pages|
    ensures Highs(pages[..i + 1]) == Highs(pages[..i]) + if pages[i].low then 0 else 1
    ensures pages[i].low ==> Lows(pages[..i + 1]) == Lows(pages[..i]) + [pages[i].addr]
    ensures !pages[i].low ==> Lows(pages[..i + 1]) == Lows(pages[..i])
  {
    assert pages[..i + 1][..i] == pages[..i];
  }

  lemma TakenStep(supply: seq<Page>, k: nat, slots: nat)
    requires k < |supply| && slots > 0
    ensures Taken(supply[k..], slots)
            == 1 + Taken(supply[k + 1..], if supply[k].low then slots - 1 else slots)
  {
    assert supply[k..][1..] == supply[k + 1..];
  }

  lemma TakenNone(supply: seq<Page>, slots: nat)
    ensures slots == 0 || supply == [] ==> Taken(supply, slots) == 0
    ensures Highs([]) == 0 && Lows([]) == []
  {
  }

  /** More blocks taken are not fewer high ones. */
  lemma HighsGrow(pages: seq<Page>, i: nat, j: nat)
    requires i <= j <= |pages|
    ensures Highs(pages[..i]) <= Highs(pages[..j])
  {
    HighsPrefix(pages[..j], i);
    assert pages[..j][..i] == pages[..i];
  }

  lemma AddressesStep(pages: seq<Page>, i: nat)
    requires i < |pages|
    ensures Live(Addresses(pages[..i + 1])) == Live(Addresses(pages[..i])) + One(pages[i].addr)
  {
    assert Addresses(pages[..i + 1]) == Addresses(pages[..i]) + [pages[i].addr];
    LiveSnoc(Addresses(pages[..i]), pages[i].addr);
  }

  /** Sorting a table keeps what it lists. */
  lemma {:induction false} LiveIsMultiset(s: seq<nat>)
    ensures Live(s) == multiset(s)[0 := 0]
  {
    if s != [] {
      var front, x := s[..|s| - 1], s[|s| - 1];
      LiveIsMultiset(front);
      assert s == front + [x];
    }
  }

  lemma NoneLeft(v: nat, psize: nat)
    ensures Blocks(v, 0, psize) == multiset{}
  {
  }

  lemma FirstBlock(v: nat, n: nat, psize: nat)
    requires n >= 1 && v != 0
    ensures Blocks(v, n, psize) == One(v) + Blocks(v + psize, n - 1, psize)
  {
  }

  /** An entry below the blocks of a list makes one block more. */
  lemma OneBlockMore(front: seq<nat>, last: nat, n: nat, psize: nat)
    requires last != 0
    requires Live(front) == Blocks(last + psize, n, psize)
    ensures Live(front + [last]) == Blocks(last, n + 1, psize)
  {
    LiveSnoc(front, last);
    FirstBlock(last, n + 1, psize);
    hide Live, One, Blocks;
  }

  /** A run of entries is the blocks of its area. */
  lemma {:induction false} RunIsBlocks(s: seq<nat>, psize: nat)
    requires psize >= 1 && |s| > 0 && Run(s, 0, |s|, psize)
    ensures Live(s) == Blocks(s[|s| - 1], |s|, psize)
    decreases |s|
  {
    LiveNil();
    NoneLeft(s[|s| - 1] + psize, psize);
    hide Live, Blocks;
    var n := |s| - 1;
    var front, last := s[..n], s[n];
    assert s == front + [last];
    assert last != 0;
    if n > 0 {
      assert Run(front, 0, n, psize);
      assert front[n - 1] == last + psize;
      RunIsBlocks(front, psize);
    }
    OneBlockMore(front, last, n, psize);
  }

  /** A table around a run, and the same table without it. */
  lemma CutOut(s: seq<nat>, lo: nat, hi: nat, psize: nat)
    returns (before: seq<nat>, run: seq<nat>, gap: seq<nat>, after: seq<nat>)
    requires Run(s, lo, hi, psize)
    ensures s == before + run + after && Zeroed(s, lo, hi) == before + gap + after
    ensures |run| == hi - lo && Run(run, 0, |run|, psize) && run[|run| - 1] == s[hi - 1]
    ensures forall j :: 0 <= j < |gap| ==> gap[j] == 0
  {
    before, run, gap, after := s[..lo], s[lo..hi], Zeroed(s, lo, hi)[lo..hi], s[hi..];
  }

  lemma LiveParts(a: seq<nat>, b: seq<nat>, c: seq<nat>)
    ensures Live(a + b + c) == Live(a) + Live(b) + Live(c)
  {
    LiveConcat(a + b, c);
    LiveConcat(a, b);
  }

  /** Taking a run out of a table moves exactly its blocks. */
  lemma TakingConserves(s: seq<nat>, lo: nat, hi: nat, psize: nat)
    requires psize >= 1 && Run(s, lo, hi, psize)
    ensures Live(s) == Live(Zeroed(s, lo, hi)) + Blocks(s[hi - 1], hi - lo, psize)
  {
    var before, run, gap, after := CutOut(s, lo, hi, psize);
    RunIsBlocks(run, psize);
    LiveZeros(gap);
    LiveParts(before, run, after);
    LiveParts(before, gap, after);
    hide Live, Blocks, Run, Zeroed;
  }

  /** The bytes of the whole blocks in a size. */
  function Whole(size: nat, psize: nat): nat
    requires psize >= 1
  {
    DivShrinks(size, psize);
    (size / psize) * psize
  }

  /** The blocks that one card's area took out of the table, none if it has no area. */
  ghost function Area(vaddr: nat, size: nat, psize: nat): multiset<nat>
    requires psize >= 1
  {
    if vaddr == 0 then multiset{} else Blocks(vaddr, size / psize, psize)
  }

  /** The blocks of all areas. */
  ghost function Areas(vaddr: seq<nat>, size: seq<nat>, psize: nat): multiset<nat>
    requires psize >= 1 && |vaddr| == |size|
  {
    if vaddr == [] then multiset{}
    else Areas(vaddr[..|vaddr| - 1], size[..|size| - 1], psize)
         + Area(vaddr[|vaddr| - 1], size[|size| - 1], psize)
  }

  lemma AreasNil(psize: nat)
    requires psize >= 1
    ensures Areas([], [], psize) == multiset{}
  {
  }

  /** The block above a card's area that holds the odd rest of its size: the area covers it,
      but it was not taken out of the table. */
  ghost function Top(vaddr: nat, size: nat, psize: nat): multiset<nat>
    requires psize >= 1
  {
    if vaddr == 0 || size % psize == 0 then multiset{} else multiset{vaddr + Whole(size, psize)}
  }

  /** The odd blocks of all areas. */
  ghost function Tops(vaddr: seq<nat>, size: seq<nat>, psize: nat): multiset<nat>
    requires psize >= 1 && |vaddr| == |size|
  {
    if vaddr == [] then multiset{}
    else Tops(vaddr[..|vaddr| - 1], size[..|size| - 1], psize)
         + Top(vaddr[|vaddr| - 1], size[|size| - 1], psize)
  }

  lemma TopsNil(psize: nat)
    requires psize >= 1
    ensures Tops([], [], psize) == multiset{}
  {
  }

  lemma TopsStep(vaddr: seq<nat>, size: seq<nat>, i: nat, psize: nat)
    requires psize >= 1 && |vaddr| == |size| && i < |vaddr|
    ensures Tops(vaddr[..i + 1], size[..i + 1], psize)
            == Tops(vaddr[..i], size[..i], psize) + Top(vaddr[i], size[i], psize)
  {
    assert vaddr[..i + 1][..i] == vaddr[..i] && size[..i + 1][..i] == size[..i];
  }

  /** There is an odd block exactly for each area that is not a whole number of blocks. */
  lemma {:induction false} OddTops(vaddr: seq<nat>, size: seq<nat>, psize: nat)
    requires psize >= 1 && |vaddr| == |size|
    ensures (forall i :: 0 <= i < |vaddr| ==> Top(vaddr[i], size[i], psize) == multiset{})
            ==> Tops(vaddr, size, psize) == multiset{}
    ensures forall i :: 0 <= i < |vaddr| ==> Top(vaddr[i], size[i], psize) <= Tops(vaddr, size, psize)
    decreases |vaddr|
  {
    hide Top;
    if vaddr != [] {
      var n := |vaddr| - 1;
      OddTops(vaddr[..n], size[..n], psize);
      assert forall i :: 0 <= i < n ==> vaddr[..n][i] == vaddr[i] && size[..n][i] == size[i];
    }
  }

  lemma TopIs(vaddr: nat, size: nat, psize: nat)
    requires psize >= 1
    ensures Top(vaddr, size, psize) == multiset{} <==> vaddr == 0 || size % psize == 0
    ensures vaddr != 0 && size % psize != 0 ==> vaddr + Whole(size, psize) in Top(vaddr, size, psize)
  {
  }

  lemma EmptyArea(size: nat, psize: nat)
    requires psize >= 1
    ensures Area(0, size, psize) == multiset{} && Top(0, size, psize) == multiset{}
  {
  }

  lemma AreasStep(vaddr: seq<nat>, size: seq<nat>, i: nat, psize: nat)
    requires psize >= 1 && |vaddr| == |size| && i < |vaddr|
    ensures Areas(vaddr[..i + 1], size[..i + 1], psize)
            == Areas(vaddr[..i], size[..i], psize) + Area(vaddr[i], size[i], psize)
  {
    assert vaddr[..i + 1][..i] == vaddr[..i] && size[..i + 1][..i] == size[..i];
  }

  /** Cards without an area add nothing. */
  lemma {:induction false} AreasPrefix(vaddr: seq<nat>, size: seq<nat>, n: nat, psize: nat)
    requires psize >= 1 && |vaddr| == |size| && n <= |vaddr|
    requires forall i :: n <= i < |vaddr| ==> vaddr[i] == 0
    ensures Areas(vaddr, size, psize) == Areas(vaddr[..n], size[..n], psize)
    decreases |vaddr|
  {
    if n == |vaddr| {
      assert vaddr[..n] == vaddr && size[..n] == size;
    } else {
      var last := |vaddr| - 1;
      var v, z := vaddr[..last], size[..last];
      assert v[..n] == vaddr[..n] && z[..n] == size[..n];
      assert Area(vaddr[last], size[last], psize) == multiset{};
      assert Areas(vaddr, size, psize) == Areas(v, z, psize) + multiset{};
      hide Areas, Area;
      AreasPrefix(v, z, n, psize);
    }
  }

  lemma NextAddress(r: nat, n: nat, psize: nat)
    requires n >= 1
    ensures (r + psize) + (n - 1) * psize == r + n * psize
  {
  }

  lemma OneBlockUp(r: nat, n: nat, psize: nat)
    requires n >= 1
    ensures Blocks(r, n, psize) == multiset{r} + Blocks(r + psize, n - 1, psize)
  {
  }

  lemma {:induction false} LastBlock(r: nat, n: nat, psize: nat, last: nat)
    requires last == r + n * psize
    ensures Blocks(r, n + 1, psize) == Blocks(r, n, psize) + multiset{last}
    decreases n
  {
    NoneLeft(r, psize);
    NoneLeft(r + psize, psize);
    hide Blocks;
    OneBlockUp(r, n + 1, psize);
    if n == 0 {
      assert last == r;
    } else {
      OneBlockUp(r, n, psize);
      NextAddress(r, n, psize);
      LastBlock(r + psize, n - 1, psize, last);
    }
  }

  /** The card's area and its odd block are the blocks that cover it. */
  lemma AreaAndTop(r: nat, csize: nat, psize: nat)
    requires psize >= 1 && r != 0 && csize >= 1
    ensures Blocks(r, Need(csize, psize), psize) == Area(r, csize, psize) + Top(r, csize, psize)
  {
    var n: nat := csize / psize;
    NeedIs(csize, psize);
    var need := Need(csize, psize);
    assert need == if csize % psize == 0 then n else n + 1;
    assert Area(r, csize, psize) == Blocks(r, n, psize);
    assert Top(r, csize, psize)
        == if csize % psize == 0 then multiset{} else multiset{r + Whole(csize, psize)};
    hide Area, Top, Blocks, Need;
    LastBlock(r, n, psize, r + Whole(csize, psize));
    hide Whole;
  }

  /** All halvings of a size that `Carve` goes on to try fail as well. */
  ghost predicate HalvesFail(s: seq<nat>, c: nat, csize: nat, psize: nat, align: nat)
    requires psize >= 1 && align >= 1 && c < |s|
    decreases csize
  {
    csize <= MIN_SIZE
    || (NoFit(s, c, Need(csize, psize), psize, align)
        && HalvesFail(s, AfterFailure(s, c, psize), csize / 2, psize, align))
  }

  /** A card gets nothing: its first search and all halved ones fail. */
  ghost predicate CarveFails(s: seq<nat>, c: nat, csize: nat, psize: nat, align: nat)
    requires psize >= 1 && align >= 1 && c < |s|
  {
    NoFit(s, c, Need(csize, psize), psize, align)
    && HalvesFail(s, AfterFailure(s, c, psize), csize / 2, psize, align)
  }

  /** The retry loop that begins with a search for `csize` from `c` comes to a search for
      `csize'` from `c'`. */
  ghost predicate Tries(s: seq<nat>, c: nat, csize: nat, c': nat, csize': nat, psize: nat, align: nat)
    requires psize >= 1 && align >= 1 && c < |s|
    decreases csize
  {
    || (c == c' && csize == csize')
    || (NoFit(s, c, Need(csize, psize), psize, align) && csize / 2 > MIN_SIZE
        && Tries(s, AfterFailure(s, c, psize), csize / 2, c', csize', psize, align))
  }

  lemma {:induction false} TriesOn(s: seq<nat>, c: nat, csize: nat, c': nat, csize': nat, psize: nat, align: nat)
    requires psize >= 1 && align >= 1 && c < |s| && c' < |s| && Tries(s, c, csize, c', csize', psize, align)
    requires NoFit(s, c', Need(csize', psize), psize, align) && csize' / 2 > MIN_SIZE
    ensures Tries(s, c, csize, AfterFailure(s, c', psize), csize' / 2, psize, align)
    decreases csize
  {
    hide NoFit, AfterFailure, Need;
    if c != c' || csize != csize' {
      TriesOn(s, AfterFailure(s, c, psize), csize / 2, c', csize', psize, align);
    }
  }

  lemma TriesFirst(s: seq<nat>, c: nat, csize: nat, psize: nat, align: nat)
    requires psize >= 1 && align >= 1 && c < |s|
    ensures Tries(s, c, csize, c, csize, psize, align)
  {
  }

  /** The loop ends with the first fit of one of its searches: an area of size `csize'` whose
      lowest block is the entry before `hi`. */
  ghost predicate Carved(s: seq<nat>, c: nat, csize: nat, hi: nat, csize': nat, psize: nat, align: nat)
    requires psize >= 1 && align >= 1 && c < |s|
  {
    exists c': nat ::
      && c' < |s| && Tries(s, c, csize, c', csize', psize, align)
      && FirstFit(s, c', hi, Need(csize', psize), psize, align)
  }

  /** A card is served from table `s` and cursor `c`: it gets that area, whose whole blocks are
      taken out of the table, and the cursor moves behind it. */
  ghost predicate Served(s: seq<nat>, c: nat, csize: nat, s': seq<nat>, c': nat, vaddr: nat, csize': nat,
                         psize: nat, align: nat)
    requires psize >= 1 && align >= 1
  {
    && c < |s| && 0 < c' < |s| && vaddr == s[c' - 1]
    && Carved(s, c, csize, c', csize', psize, align)
    && 0 <= Take(csize', psize) <= c' && s' == Zeroed(s, c' - Take(csize', psize), c')
  }

  /** Card after card is served, each from the table and cursor that the one before left, and
      then all have been, or the next one gets nothing: its first search and all halved ones
      fail in what is left. */
  ghost predicate HandsOut(tables: seq<seq<nat>>, cursors: seq<nat>, wanted: seq<nat>, vaddr: seq<nat>, size: seq<nat>,
                           n: nat, psize: nat, align: nat)
    requires psize >= 1 && align >= 1
  {
    && |tables| == |cursors| == n + 1 && n <= |wanted| == |vaddr| == |size|
    && (forall k :: 0 <= k < n ==>
          Served(tables[k], cursors[k], wanted[k], tables[k + 1], cursors[k + 1], vaddr[k], size[k], psize, align))
    && (n < |vaddr| ==>
          cursors[n] < |tables[n]| && CarveFails(tables[n], cursors[n], wanted[n], psize, align))
  }

  /** The size that is left after all halvings have failed. */
  function LastHalf(csize: nat): nat
    requires csize >= 1
  {
    if csize / 2 <= MIN_SIZE then csize / 2 else LastHalf(csize / 2)
  }

  /** Some size that would be tried fits when searched for from the start of the table. */
  ghost predicate HalfFits(s: seq<nat>, csize: nat, psize: nat, align: nat)
    requires psize >= 1 && align >= 1
    decreases csize
  {
    csize > MIN_SIZE
    && (!NoFit(s, 0, Need(csize, psize), psize, align) || HalfFits(s, csize / 2, psize, align))
  }

  /** From the start of a table with an empty entry every failure leads back to the start. */
  lemma {:induction false} RestartsFail(s: seq<nat>, csize: nat, psize: nat, align: nat)
    requires psize >= 1 && align >= 1 && exists j :: 0 <= j < |s| && s[j] == 0
    ensures HalvesFail(s, 0, csize, psize, align) <==> !HalfFits(s, csize, psize, align)
    decreases csize
  {
    assert AfterFailure(s, 0, psize) == 0;
    if csize > MIN_SIZE {
      RestartsFail(s, csize / 2, psize, align);
    }
  }

  lemma {:induction false} TrappedHalves(s: seq<nat>, c: nat, csize: nat, psize: nat, align: nat)
    requires psize >= 1 && align >= 1 && c < |s| && s[c] == 0
    ensures HalvesFail(s, c, csize, psize, align)
    decreases csize
  {
    if csize > MIN_SIZE {
      NeedIs(csize, psize);
      EmptyCursorTraps(s, c, Need(csize, psize), psize, align);
      TrappedHalves(s, c, csize / 2, psize, align);
    }
  }

  /** When a card gets nothing although a halved size would fit from the start, the cursor was
      on an empty entry, or there was none between it and the table's end. On an empty entry
      a card gets nothing whatever is free. */
  lemma MissedFromStart(s: seq<nat>, c: nat, csize: nat, psize: nat, align: nat)
    requires psize >= 1 && align >= 1 && c < |s| && csize >= 1
    ensures CarveFails(s, c, csize, psize, align) && HalfFits(s, csize / 2, psize, align) ==>
              s[c] == 0 || forall j :: c <= j < |s| ==> s[j] != 0
    ensures s[c] == 0 ==> CarveFails(s, c, csize, psize, align)
  {
    NeedIs(csize, psize);
    if s[c] == 0 {
      EmptyCursorTraps(s, c, Need(csize, psize), psize, align);
      TrappedHalves(s, c, csize / 2, psize, align);
    } else if exists j :: c <= j < |s| && s[j] == 0 {
      RestartsFail(s, csize / 2, psize, align);
    }
  }

  /** Entries have only been taken out. */
  ghost predicate Thinned(was: seq<nat>, now: seq<nat>) {
    |was| == |now| && forall j :: 0 <= j < |was| ==> now[j] == was[j] || now[j] == 0
  }

  lemma ThinnedSame(s: seq<nat>)
    ensures Thinned(s, s)
  {
  }

  lemma ThinnedMore(a: seq<nat>, b: seq<nat>, c: seq<nat>)
    requires Thinned(a, b) && Thinned(b, c)
    ensures Thinned(a, c)
  {
  }

  lemma ThinnedLists(was: seq<nat>, now: seq<nat>, r: nat, n: nat, psize: nat)
    requires Thinned(was, now) && Lists(now, r, n, psize)
    ensures Lists(was, r, n, psize)
  {
    forall m | 0 <= m < n
      ensures r + m * psize in was
    {
      MulMonotone(psize, 0, m);
      var j :| 0 <= j < |now| && now[j] == r + m * psize;
      assert was[j] == now[j];
    }
  }

  lemma TakingWhole(s: seq<nat>, hi: nat, n: nat, psize: nat)
    requires psize >= 1 && 0 < hi <= |s| && n <= hi
    requires n > 0 ==> Run(s, hi - n, hi, psize)
    ensures Live(Zeroed(s, hi - n, hi)) + Blocks(s[hi - 1], n, psize) == Live(s)
    ensures Thinned(s, Zeroed(s, hi - n, hi))
  {
    hide Live, Run;
    if n > 0 {
      hide Blocks;
      TakingConserves(s, hi - n, hi, psize);
    } else {
      assert Zeroed(s, hi, hi) == s;
    }
  }

  lemma TopIsBlock(r: nat, csize: nat, psize: nat, n: nat)
    requires psize >= 1 && n == Take(csize, psize)
    ensures r + Whole(csize, psize) == r + n * psize
  {
  }

  /** If the table lists all blocks that cover an area, it lists its odd block. */
  lemma OddIsListed(s: seq<nat>, r: nat, csize: nat, psize: nat)
    requires psize >= 1 && csize >= 1 && Lists(s, r, Need(csize, psize), psize)
    ensures csize % psize != 0 ==> r + Whole(csize, psize) in s
  {
    NeedIs(csize, psize);
    if csize % psize != 0 {
      var n: nat := Take(csize, psize);
      assert r + n * psize in s;
      TopIsBlock(r, csize, psize, n);
    }
  }

  lemma AreaIsBlocks(r: nat, csize: nat, psize: nat)
    requires psize >= 1 && r != 0
    ensures 0 <= Take(csize, psize)
    ensures Area(r, csize, psize) == Blocks(r, Take(csize, psize), psize)
  {
  }

  lemma FitIsRun(s: seq<nat>, c: nat, hi: nat, csize: nat, psize: nat, align: nat)
    requires psize >= 1 && align >= 1
    requires 0 <= Take(csize, psize) <= Need(csize, psize) && Need(csize, psize) >= 1
    requires Candidate(s, c, hi, Need(csize, psize), psize, align)
    ensures Need(csize, psize) <= hi <= |s| && Run(s, hi - Need(csize, psize), hi, psize)
    ensures Take(csize, psize) > 0 ==> Run(s, hi - Take(csize, psize), hi, psize)
    ensures Misaligned(s[hi - 1], align) == 0 && s[hi - 1] != 0
  {
  }

  /** What a successful search takes out of the table is the card's area; all blocks that
      cover it were listed, the odd one too, which stays. */
  lemma AreaTaken(s: seq<nat>, c: nat, hi: nat, csize: nat, psize: nat, align: nat)
    requires psize >= 1 && align >= 1 && csize >= 1
    requires Candidate(s, c, hi, Need(csize, psize), psize, align)
    ensures 0 <= Take(csize, psize) <= hi <= |s| && hi > 0
    ensures Misaligned(s[hi - 1], align) == 0 && Lists(s, s[hi - 1], Need(csize, psize), psize)
    ensures Thinned(s, Zeroed(s, hi - Take(csize, psize), hi))
    ensures Live(Zeroed(s, hi - Take(csize, psize), hi)) + Area(s[hi - 1], csize, psize) == Live(s)
  {
    hide *;
    NeedIs(csize, psize);
    FitIsRun(s, c, hi, csize, psize, align);
    RunLists(s, hi, Need(csize, psize), psize);
    var n: nat := Take(csize, psize);
    AreaIsBlocks(s[hi - 1], csize, psize);
    TakingWhole(s, hi, n, psize);
  }

  /** `k` blocks have been taken, `i` of them low ones and `j` high ones. */
  ghost predicate Took(supply: seq<Page>, k: nat, i: nat, j: nat, slots: nat) {
    && k <= |supply| && i <= slots
    && i == |Lows(supply[..k])| && j == Highs(supply[..k])
    && Taken(supply, slots) == k + Taken(supply[k..], slots - i)
  }

  lemma TookNone(supply: seq<Page>, slots: nat)
    ensures Took(supply, 0, 0, 0, slots)
  {
    assert supply[0..] == supply && supply[..0] == [];
  }

  lemma TookOne(supply: seq<Page>, k: nat, i: nat, j: nat, slots: nat)
    requires Took(supply, k, i, j, slots) && k < |supply| && i < slots
    ensures supply[k].low ==> Took(supply, k + 1, i + 1, j, slots)
    ensures !supply[k].low ==> Took(supply, k + 1, i, j + 1, slots)
    ensures k + 1 <= Taken(supply, slots)
  {
    PagesStep(supply, k);
    TakenStep(supply, k, slots - i);
    hide Lows, Highs, Taken;
  }

  lemma TookAll(supply: seq<Page>, k: nat, i: nat, j: nat, slots: nat)
    requires Took(supply, k, i, j, slots) && (i == slots || k == |supply|)
    ensures k == Taken(supply, slots)
  {
    TakenNone(supply[k..], slots - i);
  }

  /** The two tables list the blocks, the first one the low ones. */
  ghost predicate ListPages(low: seq<nat>, high: seq<nat>, pages: seq<Page>) {
    Live(low) == Live(Lows(pages)) && Live(low) + Live(high) == Live(Addresses(pages))
  }

  lemma ListNoPages(low: seq<nat>, high: seq<nat>, supply: seq<Page>)
    requires forall i :: 0 <= i < |low| ==> low[i] == 0
    requires forall i :: 0 <= i < |high| ==> high[i] == 0
    ensures ListPages(low, high, supply[..0])
  {
    LiveZeros(low);
    LiveZeros(high);
    LiveZeros(Addresses(supply[..0]));
  }

  lemma AddOne(a: multiset<nat>, b: multiset<nat>, x: multiset<nat>)
    ensures (a + x) + b == (a + b) + x
    ensures a + (b + x) == (a + b) + x
  {
  }

  lemma ListOnePage(low: seq<nat>, high: seq<nat>, low': seq<nat>, high': seq<nat>, supply: seq<Page>, k: nat)
    requires k < |supply| && ListPages(low, high, supply[..k])
    requires supply[k].low ==> Live(low') == Live(low) + One(supply[k].addr) && high' == high
    requires !supply[k].low ==> Live(high') == Live(high) + One(supply[k].addr) && low' == low
    ensures ListPages(low', high', supply[..k + 1])
  {
    hide Live, One, Lows, Addresses;
    var x := One(supply[k].addr);
    AddressesStep(supply, k);
    PagesStep(supply, k);
    AddOne(Live(low), Live(high), x);
    if supply[k].low {
      LiveSnoc(Lows(supply[..k]), supply[k].addr);
    }
  }

  class Pool {
    const psize: nat
    const align: nat
    const table: PageTable
    const ptable: array<nat>
    const htable: array<nat>
    const vaddr: array<nat>
    const size: array<nat>
    /** The calls of `free_pages`, in order. */
    var freed: seq<nat>

    ghost predicate Shape()
      reads this, table
    {
      && psize >= 1 && align >= 1
      && table.Valid() && table.t == ptable && table.psize == psize
      && vaddr.Length == size.Length
      && ptable != htable && ptable != vaddr && ptable != size
      && htable != vaddr && htable != size && vaddr != size
    }

    /** Empty tables, no areas, the same size wanted for every card. */
    constructor (psize: nat, align: nat, cards: nat, wanted: nat, lowSlots: nat, highSlots: nat)
      requires psize >= 1 && align >= 1 && lowSlots >= 1
      ensures Shape() && fresh(this) && fresh(table) && fresh(ptable) && fresh(htable) && fresh(vaddr) && fresh(size)
      ensures this.psize == psize && this.align == align && table.cstart == 0
      ensures ptable.Length == lowSlots && htable.Length == highSlots && vaddr.Length == cards
      ensures forall i :: 0 <= i < lowSlots ==> ptable[i] == 0
      ensures forall i :: 0 <= i < highSlots ==> htable[i] == 0
      ensures forall i :: 0 <= i < cards ==> vaddr[i] == 0 && size[i] == wanted
      ensures freed == []
    {
      this.psize, this.align := psize, align;
      var p := new nat[lowSlots](_ => 0);
      ptable := p;
      htable := new nat[highSlots](_ => 0);
      vaddr := new nat[cards](_ => 0);
      size := new nat[cards](_ => wanted);
      table := new PageTable(p, psize);
      freed := [];
    }

    method Enter(t: array<nat>, i: nat, x: nat)
      requires i < t.Length && t[i] == 0
      modifies t
      ensures forall k :: 0 <= k < t.Length ==> t[k] == if k == i then x else old(t[k])
      ensures Live(t[..]) == Live(old(t[..])) + One(x)
    {
      LiveStore(t[..], i, x);
      ghost var was := t[..];
      t[i] := x;
      assert t[..] == was[i := x];
    }

    /** `nac_mem_alloc_ptable` once the block size is settled: take blocks until the supply
        or the low table runs out; blocks above 4 GB go to the high table. Nothing stops them
        at its end: `ok` is false, and the model stops there, exactly if more of the blocks
        taken are high ones than it has entries. */
    method AllocPtable(supply: seq<Page>) returns (taken: nat, ok: bool)
      requires Shape()
      requires forall i :: 0 <= i < ptable.Length ==> ptable[i] == 0
      requires forall i :: 0 <= i < htable.Length ==> htable[i] == 0
      requires forall i :: 0 <= i < |supply| ==> supply[i].addr != 0
      modifies ptable, htable
      ensures taken <= |supply| && Shape()
      ensures ok <==> Highs(supply[..Taken(supply, ptable.Length)]) <= htable.Length
      ensures ok ==> taken == Taken(supply, ptable.Length)
      ensures ok ==> taken == |supply| || |Lows(supply[..taken])| == ptable.Length
      ensures ok && taken > 0 ==> |Lows(supply[..taken - 1])| < ptable.Length
      ensures ok ==> ListPages(ptable[..], htable[..], supply[..taken]) && |Lows(supply[..taken])| <= ptable.Length
      ensures ok && |Lows(supply[..taken])| < ptable.Length ==> ptable[ptable.Length - 1] == 0
    {
      hide Live, One, Lows, Highs, Addresses, Taken, ListPages;
      var i, j := 0, 0;
      taken, ok := 0, true;
      ListNoPages(ptable[..], htable[..], supply);
      TookNone(supply, ptable.Length);
      while i < ptable.Length && taken < |supply|
        invariant Took(supply, taken, i, j, ptable.Length) && j <= htable.Length
        invariant taken > 0 ==> |Lows(supply[..taken - 1])| < ptable.Length
        invariant forall k :: i <= k < ptable.Length ==> ptable[k] == 0
        invariant forall k :: j <= k < htable.Length ==> htable[k] == 0
        invariant ListPages(ptable[..], htable[..], supply[..taken])
      {
        var page := supply[taken];
        ghost var low, high := ptable[..], htable[..];
        TookOne(supply, taken, i, j, ptable.Length);
        if page.low {
          Enter(ptable, i, page.addr);
          i := i + 1;
        } else {
          if j == htable.Length {
            HighsGrow(supply, taken + 1, Taken(supply, ptable.Length));
            return taken, false;
          }
          Enter(htable, j, page.addr);
          j := j + 1;
        }
        ListOnePage(low, high, ptable[..], htable[..], supply, taken);
        taken := taken + 1;
      }
      TookAll(supply, taken, i, j, ptable.Length);
    }

    /** One table of `nac_mem_free_ptable`. */
    method FreeTable(t: array<nat>)
      requires 0 !in freed
      modifies this`freed, t
      ensures 0 !in freed
      ensures forall i :: 0 <= i < t.Length ==> t[i] == 0
      ensures Live(freed) == Live(old(freed)) + Live(old(t[..]))
    {
      hide Live;
      ghost var s := t[..];
      var i := 0;
      LiveZeros(s[..0]);
      while i < t.Length
        invariant 0 <= i <= t.Length && 0 !in freed
        invariant forall k :: 0 <= k < i ==> t[k] == 0
        invariant forall k :: i <= k < t.Length ==> t[k] == s[k]
        invariant Live(freed) == Live(old(freed)) + Live(s[..i])
      {
        LiveStep(s, i);
        if t[i] != 0 {
          LiveSnoc(freed, t[i]);
          freed := freed + [t[i]];
          t[i] := 0;
        }
        i := i + 1;
      }
      assert s[..i] == s;
    }

    /** `nac_mem_freecontig`: every block that the area covers goes back. */
    method FreeContig(csize: nat, r: nat)
      requires psize >= 1 && csize >= 1 && r != 0
      requires 0 !in freed
      modifies this`freed
      ensures 0 !in freed
      ensures Live(freed) == Live(old(freed)) + Blocks(r, Need(csize, psize), psize)
    {
      hide Live, One, Blocks, Need;
      var v := r;
      ghost var k, need := 0, Need(csize, psize);
      NeedCovers(csize, psize, k);
      while v < r + csize
        invariant k <= need && r <= v == r + k * psize && 0 !in freed
        invariant k * psize >= csize <==> k >= need
        invariant Live(freed) + Blocks(v, need - k, psize) == Live(old(freed)) + Blocks(r, need, psize)
        decreases need - k
      {
        FirstBlock(v, need - k, psize);
        LiveSnoc(freed, v);
        freed := freed + [v];
        OneMore(k, psize);
        k := k + 1;
        NeedCovers(csize, psize, k);
        v := v + psize;
      }
      NoneLeft(v, psize);
    }

    /** `nac_mem_sort_ptable` on the low table. */
    method SortTable()
      requires Shape()
      modifies ptable
      ensures Shape() && Live(ptable[..]) == Live(old(ptable[..]))
      ensures Descending(ptable[..]) && multiset(ptable[..]) == multiset(old(ptable[..]))
    {
      LiveIsMultiset(ptable[..]);
      SortPtable(ptable);
      LiveIsMultiset(ptable[..]);
    }

    /** The retry loop of `nac_mem` for one card: halve the size until an area is found or
        the size falls to the minimum. The contract says exactly when that fails, and which
        area is found. */
    method Carve(nac: nat) returns (ok: bool)
      requires Shape() && nac < vaddr.Length && size[nac] >= 1
      modifies table`cstart, ptable, vaddr, size
      ensures Shape()
      ensures forall i :: 0 <= i < vaddr.Length && i != nac ==> vaddr[i] == old(vaddr[i]) && size[i] == old(size[i])
      ensures ok <==> vaddr[nac] != 0
      ensures size[nac] <= old(size[nac])
      ensures ok ==>
                && size[nac] >= 1 && Misaligned(vaddr[nac], align) == 0
                && Lists(old(ptable[..]), vaddr[nac], Need(size[nac], psize), psize)
                && Served(old(ptable[..]), old(table.cstart), old(size[nac]),
                          ptable[..], table.cstart, vaddr[nac], size[nac], psize, align)
      ensures !ok ==> size[nac] == LastHalf(old(size[nac])) && ptable[..] == old(ptable[..])
      ensures !ok <==> CarveFails(old(ptable[..]), old(table.cstart), old(size[nac]), psize, align)
      ensures Thinned(old(ptable[..]), ptable[..])
      ensures Live(ptable[..]) + Area(vaddr[nac], size[nac], psize) == Live(old(ptable[..]))
    {
      hide Live, Misaligned, Need, Take, NoFit, AfterFailure, Area, Thinned, Lists, Candidate, Tries;
      ghost var s, c0, z0 := ptable[..], table.cstart, size[nac];
      ghost var fate := CarveFails(s, c0, z0, psize, align);
      ThinnedSame(s);
      TriesFirst(s, c0, z0, psize, align);
      while true
        invariant Shape() && 1 <= size[nac] <= z0
        invariant forall i :: 0 <= i < vaddr.Length && i != nac ==> vaddr[i] == old(vaddr[i]) && size[i] == old(size[i])
        invariant ptable[..] == s
        invariant fate == CarveFails(s, table.cstart, size[nac], psize, align)
        invariant Tries(s, c0, z0, table.cstart, size[nac], psize, align)
        invariant LastHalf(size[nac]) == LastHalf(z0)
        decreases size[nac]
      {
        ghost var c := table.cstart;
        NeedCovers(size[nac], psize, 0);
        var r, hi := table.FindContig(size[nac], align);
        vaddr[nac] := r;
        if r != 0 {
          AreaTaken(s, c, hi, size[nac], psize, align);
          return true;
        }
        ghost var z := size[nac];
        size[nac] := size[nac] / 2;
        if size[nac] <= MIN_SIZE {
          EmptyArea(size[nac], psize);
          return false;
        }
        TriesOn(s, c0, z0, c, z, psize, align);
      }
    }

    /** `nac_mem`: an area for each card, in order, until one cannot be had. The tables and
        cursors before each card, and at the end, are the ghost results. */
    method NacMem() returns (n: nat, ghost tables: seq<seq<nat>>, ghost cursors: seq<nat>)
      requires Shape()
      requires forall i :: 0 <= i < vaddr.Length ==> vaddr[i] == 0 && size[i] >= 1
      modifies table`cstart, ptable, vaddr, size
      ensures Shape() && n <= vaddr.Length
      ensures forall i :: 0 <= i < vaddr.Length ==> (vaddr[i] != 0 <==> i < n) && size[i] <= old(size[i])
      ensures forall i :: 0 <= i < n ==>
                && size[i] >= 1 && Misaligned(vaddr[i], align) == 0
                && Lists(old(ptable[..]), vaddr[i], Need(size[i], psize), psize)
      ensures HandsOut(tables, cursors, old(size[..]), vaddr[..], size[..], n, psize, align)
      ensures tables[0] == old(ptable[..]) && cursors[0] == old(table.cstart) && tables[n] == ptable[..]
      ensures Live(ptable[..]) + Areas(vaddr[..], size[..], psize) == Live(old(ptable[..]))
    {
      hide Live, Misaligned, Area, Areas, Lists, CarveFails, Need, Served, Thinned;
      ThinnedSame(ptable[..]);
      n, tables, cursors := 0, [ptable[..]], [table.cstart];
      AreasNil(psize);
      while n < vaddr.Length
        invariant Shape() && n <= vaddr.Length
        invariant forall i :: 0 <= i < n ==>
                    && vaddr[i] != 0 && 1 <= size[i] <= old(size[i]) && Misaligned(vaddr[i], align) == 0
                    && Lists(old(ptable[..]), vaddr[i], Need(size[i], psize), psize)
        invariant forall i :: n <= i < vaddr.Length ==> vaddr[i] == 0 && size[i] == old(size[i])
        invariant |tables| == |cursors| == n + 1 && tables[n] == ptable[..] && cursors[n] == table.cstart
        invariant tables[0] == old(ptable[..]) && cursors[0] == old(table.cstart)
        invariant forall k :: 0 <= k < n ==>
                    Served(tables[k], cursors[k], old(size[..])[k], tables[k + 1], cursors[k + 1], vaddr[k], size[k],
                           psize, align)
        invariant Thinned(old(ptable[..]), ptable[..])
        invariant Live(ptable[..]) + Areas(vaddr[..n], size[..n], psize) == Live(old(ptable[..]))
      {
        ghost var v, z, before := vaddr[..n], size[..n], ptable[..];
        var ok := Carve(n);
        assert vaddr[..n] == v && size[..n] == z;
        if !ok {
          EmptyArea(size[n], psize);
          break;
        }
        ThinnedLists(old(ptable[..]), before, vaddr[n], Need(size[n], psize), psize);
        ThinnedMore(old(ptable[..]), before, ptable[..]);
        AreasStep(vaddr[..], size[..], n, psize);
        assert vaddr[..][..n + 1] == vaddr[..n + 1] && size[..][..n + 1] == size[..n + 1];
        assert vaddr[..][..n] == v && size[..][..n] == z;
        tables, cursors := tables + [ptable[..]], cursors + [table.cstart];
        n := n + 1;
      }
      AreasPrefix(vaddr[..], size[..], n, psize);
      assert vaddr[..][..n] == vaddr[..n] && size[..][..n] == size[..n];
    }

    /** `nac_mem_cleanup`: every area goes back, with its odd block. */
    method Cleanup()
      requires Shape() && 0 !in freed
      requires forall i :: 0 <= i < vaddr.Length && vaddr[i] != 0 ==> size[i] >= 1
      modifies this`freed
      ensures 0 !in freed
      ensures Live(freed)
              == Live(old(freed)) + Areas(vaddr[..], size[..], psize) + Tops(vaddr[..], size[..], psize)
    {
      hide Live, Areas, Tops, Area, Top, Blocks;
      AreasNil(psize);
      TopsNil(psize);
      var nac := 0;
      while nac < vaddr.Length
        invariant nac <= vaddr.Length && 0 !in freed
        invariant Live(freed)
                  == Live(old(freed)) + Areas(vaddr[..][..nac], size[..][..nac], psize)
                     + Tops(vaddr[..][..nac], size[..][..nac], psize)
      {
        AreasStep(vaddr[..], size[..], nac, psize);
        TopsStep(vaddr[..], size[..], nac, psize);
        if vaddr[nac] != 0 {
          FreeContig(size[nac], vaddr[nac]);
          AreaAndTop(vaddr[nac], size[nac], psize);
        } else {
          EmptyArea(size[nac], psize);
        }
        nac := nac + 1;
      }
      assert vaddr[..][..nac] == vaddr[..] && size[..][..nac] == size[..];
    }

    /** `nac_mem_free_ptable` at the end of initialisation, `nac_mem_cleanup` at exit. */
    method Exit() returns (log: seq<nat>)
      requires Shape() && freed == []
      requires forall i :: 0 <= i < vaddr.Length && vaddr[i] != 0 ==> size[i] >= 1
      modifies this`freed, ptable, htable
      ensures 0 !in log
      ensures Live(log) == Live(old(ptable[..])) + Live(old(htable[..]))
                           + Areas(vaddr[..], size[..], psize) + Tops(vaddr[..], size[..], psize)
    {
      hide Live, Areas, Tops;
      LiveNil();
      FreeTable(ptable);
      FreeTable(htable);
      Cleanup();
      log := freed;
    }
  }
}
