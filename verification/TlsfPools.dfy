/** What the allocator's picture means to a client: live allocations, pools, and the space between them. */
module TlsfPools {
  import opened TlsfMapping
  import opened TlsfHeap

  /** Live allocations: block address to usable size. The client's pointer is the block address plus 16. */
  ghost function Live(m: Layout): map<int, nat> {
    map b | b in m && m[b].size > 0 && !m[b].free :: m[b].size
  }

  /** Every pool: the address of its first block to the address of its sentinel. */
  ghost function Pools(m: Layout): map<int, int> {
    map b | b in m && m[b].lo == b :: m[b].hi
  }

  lemma MergedView(m: Layout, p: int, b: int)
    requires Tiled(m) && Neighbours(m, p, b)
    ensures Live(Merged(m, p, b)) == Live(m) && Pools(Merged(m, p, b)) == Pools(m)
  {
    var m' := Merged(m, p, b);
    assert BlockOk(m, p) && BlockOk(m, b);
    assert m[b].lo != b;
    assert Live(m').Keys == Live(m).Keys && Pools(m').Keys == Pools(m).Keys;
  }

  lemma FlaggedView(m: Layout, b: int, free: bool)
    requires Tiled(m) && b in m && m[b].size > 0 && Next(m, b) in m
    ensures Live(Flagged(m, b, free)) == if free then Live(m) - {b} else Live(m)[b := m[b].size]
    ensures Pools(Flagged(m, b, free)) == Pools(m)
  {
    var m' := Flagged(m, b, free);
    Successor(m, b);
    assert forall c | c in m :: c in m' && m'[c].size == m[c].size && m'[c].lo == m[c].lo && m'[c].hi == m[c].hi;
    hide BlockOk, Apart;
    assert Pools(m').Keys == Pools(m).Keys;
    assert Live(m').Keys == if free then Live(m).Keys - {b} else Live(m).Keys + {b};
  }

  lemma SplitView(m: Layout, b: int, size: nat)
    requires Tiled(m) && Splittable(m, b, size)
    ensures Live(SplitAt(m, b, size)) == Live(m) && Pools(SplitAt(m, b, size)) == Pools(m)
  {
    var m' := SplitAt(m, b, size);
    SplitFresh(m, b, size);
    assert BlockOk(m, b);
    assert Live(m').Keys == Live(m).Keys && Pools(m').Keys == Pools(m).Keys;
  }

  /** The picture after block b has been cut down to size, if the rest can stand alone, and handed out. */
  ghost function Handed(m: Layout, b: int, size: nat): Layout
    requires Tiled(m) && b in m && m[b].free && BLOCK_SIZE_MIN <= size <= m[b].size && size % ALIGN_SIZE == 0
  {
    assert BlockOk(m, b);
    if m[b].size >= size + HEADER_SIZE then
      SplitTiled(m, b, size);
      Successor(SplitAt(m, b, size), b);
      Flagged(SplitAt(m, b, size), b, false)
    else
      Successor(m, b);
      Flagged(m, b, false)
  }

  lemma HandedView(m: Layout, b: int, size: nat)
    requires Tiled(m) && b in m && m[b].free && BLOCK_SIZE_MIN <= size <= m[b].size && size % ALIGN_SIZE == 0
    ensures Live(Handed(m, b, size)) == Live(m)[b := if m[b].size >= size + HEADER_SIZE then size else m[b].size]
    ensures Pools(Handed(m, b, size)) == Pools(m)
  {
    assert BlockOk(m, b);
    if m[b].size >= size + HEADER_SIZE {
      SplitTiled(m, b, size);
      Successor(SplitAt(m, b, size), b);
      SplitView(m, b, size);
      FlaggedView(SplitAt(m, b, size), b, false);
    } else {
      Successor(m, b);
      FlaggedView(m, b, false);
    }
  }

  // ---------------------------------------------------------------------------------------------
  // Consequences of the invariant
  // ---------------------------------------------------------------------------------------------

  /** Client areas of live allocations are aligned, inside their pool, and disjoint from every other block,
      live or free, and from that block's header word. */
  lemma LiveAreasDisjoint(m: Layout, b: int, c: int)
    requires Tiled(m) && b in Live(m) && c in m && c != b
    ensures (b + 16) % ALIGN_SIZE == 0 && m[b].lo + 16 <= b + 16 && b + 16 + Live(m)[b] <= m[b].hi + 8
    ensures b + 16 + Live(m)[b] <= c + 8 || c + 16 + m[c].size <= b + 8
  {
    assert BlockOk(m, b) && BlockOk(m, c) && Apart(m, b, c) && Apart(m, c, b);
    Successor(m, b);
  }

  /** The blocks met by walking from b to the sentinel of its pool. */
  ghost function Walk(m: Layout, b: int): seq<int>
    requires Tiled(m) && b in m
    decreases m[b].hi - b
  {
    assert BlockOk(m, b);
    if b == m[b].hi then [b]
    else
      assert BlockOk(m, Next(m, b));
      [b] + Walk(m, Next(m, b))
  }

  /** Sizes plus one header word per block. */
  ghost function Span(m: Layout, s: seq<int>): int {
    if s == [] then 0 else (if s[0] in m then m[s[0]].size + OVERHEAD else 0) + Span(m, s[1..])
  }

  /** Blocks tile their pool: the walk meets exactly the pool's blocks from b on, and their sizes plus
      overhead add up to the same amount whatever has been allocated. */
  lemma {:induction false} WalkTiles(m: Layout, b: int)
    requires Tiled(m) && b in m
    ensures forall x | x in Walk(m, b) :: x in m
    ensures Span(m, Walk(m, b)) == m[b].hi + OVERHEAD - b
    ensures forall c | c in m && m[c].lo == m[b].lo && m[c].hi == m[b].hi && c >= b :: c in Walk(m, b)
    ensures forall c | c in Walk(m, b) :: m[c].lo == m[b].lo && m[c].hi == m[b].hi && c >= b
    decreases m[b].hi - b
  {
    assert BlockOk(m, b);
    if b == m[b].hi {
      assert Walk(m, b) == [b];
      forall c | c in m && m[c].lo == m[b].lo && m[c].hi == m[b].hi && c >= b
        ensures c == b
      {
        assert BlockOk(m, c);
      }
    } else {
      var n := Next(m, b);
      Successor(m, b);
      WalkTiles(m, n);
      assert Walk(m, b)[1..] == Walk(m, n);
      forall c | c in m && m[c].lo == m[b].lo && m[c].hi == m[b].hi && c >= b
        ensures c in Walk(m, b)
      {
        assert Apart(m, b, c);
      }
    }
  }

  /** With nothing live in a pool, the pool is one free block and its sentinel. */
  lemma NothingLiveOneBlock(m: Layout, lo: int)
    requires Tiled(m) && Coalesced(m, {}) && lo in Pools(m)
    requires forall b | b in Live(m) :: m[b].lo != lo
    ensures lo in m && m[lo].free && m[lo].size == Pools(m)[lo] - lo - OVERHEAD
    ensures forall c | c in m && m[c].lo == lo :: c == lo || c == Pools(m)[lo]
  {
    assert BlockOk(m, lo);
    assert m[lo].size > 0;
    Successor(m, lo);
    var n := Next(m, lo);
    assert BlockOk(m, n);
    assert !m[n].free && n !in Live(m);
    forall c | c in m && m[c].lo == lo
      ensures c == lo || c == Pools(m)[lo]
    {
      assert BlockOk(m, c) && Apart(m, lo, c);
    }
  }
}
