/**
 The heap of the allocator as values: words of memory, the block headers written into them, and the
 ghost picture (blocks tiling the pools, one list of free blocks per size class) they must agree with.

 Addresses are byte addresses. A header at b keeps prev_phys_block at b, the size and two flag bits at
 b + 8, next_free at b + 16 and prev_free at b + 24. Client data starts at b + 16 and its last word is
 the prev_phys_block of the next header, so all of these words are overwritten in turn.
 */
module TlsfHeap {
  import opened Sequences
  import opened TlsfMapping

  type Memory = map<int, int>

  /** The control structure's block_null; its link words are written to but never relied on. */
  const NULL := 8

  /** Pools lie above the control structure and not at the very end of the address space. */
  const POOL_FLOOR := 64
  const POOL_CEILING := SIZE_T - 4 * BLOCK_SIZE_MAX

  function Read(mem: Memory, a: int): int {
    if a in mem then mem[a] else 0
  }

  // ---------------------------------------------------------------------------------------------
  // Header access, one function per helper of the source
  // ---------------------------------------------------------------------------------------------

  function BlockSize(mem: Memory, b: int): int {
    Read(mem, b + 8) - Read(mem, b + 8) % 4
  }

  predicate IsFree(mem: Memory, b: int) {
    Read(mem, b + 8) % 2 == 1
  }

  predicate IsPrevFree(mem: Memory, b: int) {
    Read(mem, b + 8) % 4 >= 2
  }

  function SetSize(mem: Memory, b: int, size: int): Memory {
    mem[b + 8 := size + Read(mem, b + 8) % 4]
  }

  function SetFree(mem: Memory, b: int): Memory {
    mem[b + 8 := Read(mem, b + 8) + (if IsFree(mem, b) then 0 else 1)]
  }

  function SetUsed(mem: Memory, b: int): Memory {
    mem[b + 8 := Read(mem, b + 8) - (if IsFree(mem, b) then 1 else 0)]
  }

  function SetPrevFree(mem: Memory, b: int): Memory {
    mem[b + 8 := Read(mem, b + 8) + (if IsPrevFree(mem, b) then 0 else 2)]
  }

  function SetPrevUsed(mem: Memory, b: int): Memory {
    mem[b + 8 := Read(mem, b + 8) - (if IsPrevFree(mem, b) then 2 else 0)]
  }

  function BlockNext(mem: Memory, b: int): int {
    b + OVERHEAD + BlockSize(mem, b)
  }

  function LinkNext(mem: Memory, b: int): Memory {
    mem[BlockNext(mem, b) := b]
  }

  function MarkAsFree(mem: Memory, b: int): Memory {
    SetFree(SetPrevFree(LinkNext(mem, b), BlockNext(mem, b)), b)
  }

  function MarkAsUsed(mem: Memory, b: int): Memory {
    SetUsed(SetPrevUsed(mem, BlockNext(mem, b)), b)
  }

  predicate CanSplit(mem: Memory, b: int, size: int) {
    BlockSize(mem, b) >= HEADER_SIZE + size
  }

  /** `block_split`: the remainder inherits whatever prev-free bit its header word held before. */
  function Split(mem: Memory, b: int, size: int): Memory {
    var remaining := b + OVERHEAD + size;
    var remainSize := BlockSize(mem, b) - (size + OVERHEAD);
    MarkAsFree(SetSize(SetSize(mem, remaining, remainSize), b, size), remaining)
  }

  function Absorb(mem: Memory, prev: int, b: int): Memory {
    LinkNext(mem[prev + 8 := Read(mem, prev + 8) + BlockSize(mem, b) + OVERHEAD], prev)
  }

  // ---------------------------------------------------------------------------------------------
  // The picture: blocks by address
  // ---------------------------------------------------------------------------------------------

  /** A block with its pool's first block address lo and sentinel address hi. */
  datatype Block = Block(size: nat, free: bool, prevFree: bool, lo: int, hi: int)

  type Layout = map<int, Block>

  function Next(m: Layout, b: int): int
    requires b in m
  {
    b + OVERHEAD + m[b].size
  }

  /** The header word of a block. */
  function Encode(x: Block): int {
    x.size + (if x.free then 1 else 0) + (if x.prevFree then 2 else 0)
  }

  ghost predicate BlockOk(m: Layout, b: int)
    requires b in m
  {
    var x := m[b];
    && b % ALIGN_SIZE == 0
    && POOL_FLOOR <= x.lo <= b <= x.hi
    && x.hi - x.lo - OVERHEAD < BLOCK_SIZE_MAX
    && x.hi + 16 <= POOL_CEILING
    && x.lo < x.hi && x.lo in m && m[x.lo].lo == x.lo && m[x.lo].hi == x.hi
    && (x.size == 0 <==> b == x.hi)
    && (b == x.lo ==> !x.prevFree)
    && (b == x.hi ==> !x.free)
    && (b != x.hi ==>
          && x.size >= BLOCK_SIZE_MIN
          && x.size % ALIGN_SIZE == 0
          && Next(m, b) in m
          && m[Next(m, b)].lo == x.lo
          && m[Next(m, b)].hi == x.hi
          && m[Next(m, b)].prevFree == x.free)
  }

  /** No two blocks overlap: each ends (with the header word of its successor excluded) before the next begins. */
  ghost predicate Apart(m: Layout, b: int, c: int)
    requires b in m && c in m
  {
    b < c ==> Next(m, b) <= c
  }

  ghost predicate Tiled(m: Layout) {
    && (forall b {:trigger BlockOk(m, b)} | b in m :: BlockOk(m, b))
    && (forall b, c {:trigger Apart(m, b, c)} | b in m && c in m :: Apart(m, b, c))
  }

  /** The header words in memory say what the picture says. */
  ghost predicate HeaderOk(mem: Memory, m: Layout, b: int)
    requires b in m
  {
    && Read(mem, b + 8) == Encode(m[b])
    && (m[b].prevFree ==> Read(mem, b) in m && m[Read(mem, b)].free && Next(m, Read(mem, b)) == b)
  }

  ghost predicate Physical(mem: Memory, m: Layout) {
    && Tiled(m)
    && (forall b {:trigger HeaderOk(mem, m, b)} | b in m :: HeaderOk(mem, m, b))
  }

  /** Adjacent free blocks occur only around a block of S, one that an operation is working on. */
  ghost predicate Coalesced(m: Layout, S: set<int>) {
    forall b {:trigger Next(m, b)} | b in m && m[b].free && b !in S && Next(m, b) in m && m[Next(m, b)].free ::
        Next(m, b) in S
  }

  lemma HeaderReads(mem: Memory, m: Layout, b: int)
    requires Physical(mem, m) && b in m
    ensures Read(mem, b + 8) == m[b].size + (if m[b].free then 1 else 0) + (if m[b].prevFree then 2 else 0)
    ensures m[b].prevFree ==> Read(mem, b) in m && Read(mem, b) + 8 + m[Read(mem, b)].size == b
    ensures BlockSize(mem, b) == m[b].size
    ensures IsFree(mem, b) == m[b].free
    ensures IsPrevFree(mem, b) == m[b].prevFree
    ensures BlockNext(mem, b) == Next(m, b)
  {
    assert BlockOk(m, b) && HeaderOk(mem, m, b);
    FlagArithmetic(m[b].size);
  }

  /** Sizes are multiples of eight, so the two low bits of the header word are free for the flags. */
  lemma FlagArithmetic(size: int)
    requires size % ALIGN_SIZE == 0
    ensures size % 4 == 0 && (size + 1) % 4 == 1 && (size + 2) % 4 == 2 && (size + 3) % 4 == 3
    ensures size % 2 == 0 && (size + 1) % 2 == 1 && (size + 2) % 2 == 0 && (size + 3) % 2 == 1
  {
    var k := size / 8;
    assert size == 8 * k;
    LowBits(k, 0);
    LowBits(k, 1);
    LowBits(k, 2);
    LowBits(k, 3);
  }

  lemma LowBits(k: int, r: int)
    requires 0 <= r < 4
    ensures (8 * k + r) % 4 == r && (8 * k + r) % 2 == r % 2
  {
    var q, s := (8 * k + r) / 4, (8 * k + r) / 2;
    assert 4 * (2 * k - q) == (8 * k + r) % 4 - r;
    assert 2 * (4 * k + r / 2 - s) == (8 * k + r) % 2 - r % 2;
  }

  // ---------------------------------------------------------------------------------------------
  // Free lists
  // ---------------------------------------------------------------------------------------------

  type Lists = seq<seq<int>>

  ghost predicate LinkAt(mem: Memory, l: seq<int>, i: int)
    requires 0 <= i < |l|
  {
    && Read(mem, l[i] + 16) == (if i + 1 < |l| then l[i + 1] else NULL)
    && Read(mem, l[i] + 24) == (if i > 0 then l[i - 1] else NULL)
  }

  ghost predicate Links(mem: Memory, l: seq<int>) {
    forall i {:trigger LinkAt(mem, l, i)} | 0 <= i < |l| :: LinkAt(mem, l, i)
  }

  /** Exactly the free blocks outside S are listed, each once, in the list of its class. */
  ghost predicate Listed(m: Layout, lists: Lists, S: set<int>) {
    && |lists| == FL_INDEX_COUNT * SL_INDEX_COUNT
    && (forall b | b in S :: b in m && m[b].free)
    && (forall k, b | 0 <= k < |lists| && b in lists[k] :: b in m && m[b].free && b !in S && Class(m[b].size) == k)
    && (forall k | 0 <= k < |lists| :: Distinct(lists[k]))
    && (forall b {:trigger InItsList(m, lists, b)} | b in m && m[b].free && b !in S :: InItsList(m, lists, b))
  }

  ghost predicate InItsList(m: Layout, lists: Lists, b: int)
    requires b in m
  {
    var k := Class(m[b].size);
    0 <= k < |lists| && b in lists[k]
  }

  ghost predicate Linked(mem: Memory, lists: Lists) {
    forall k | 0 <= k < |lists| :: Links(mem, lists[k])
  }

  // ---------------------------------------------------------------------------------------------
  // Framing
  // ---------------------------------------------------------------------------------------------

  /** Link words of free blocks are not header words of any block. */
  lemma LinkWordsApart(m: Layout, x: int, b: int)
    requires Tiled(m)
    requires b in m
    requires x == NULL || (x in m && m[x].free)
    ensures x + 16 != b + 8 && x + 24 != b + 8
    ensures x + 16 != b && x + 24 != b
  {
    assert BlockOk(m, b);
    if x in m {
      assert BlockOk(m, x) && Apart(m, x, b) && Apart(m, b, x);
    }
  }

  /** Writing a link word of a free block, or of block_null, leaves the physical picture intact. */
  lemma WriteLink(mem: Memory, m: Layout, x: int, a: int, v: int)
    requires Physical(mem, m)
    requires x == NULL || (x in m && m[x].free)
    requires a == x + 16 || a == x + 24
    ensures Physical(mem[a := v], m)
  {
    forall b | b in m
      ensures HeaderOk(mem[a := v], m, b)
    {
      assert HeaderOk(mem, m, b);
      LinkWordsApart(m, x, b);
    }
  }

  // ---------------------------------------------------------------------------------------------
  // The four changes of the picture, each with the header writes that carry it out
  // ---------------------------------------------------------------------------------------------

  /** Block b becomes free (or used) and its successor is told. */
  function Flagged(m: Layout, b: int, free: bool): Layout
    requires b in m && Next(m, b) in m
  {
    m[b := m[b].(free := free)][Next(m, b) := m[Next(m, b)].(prevFree := free)]
  }

  function Merged(m: Layout, p: int, b: int): Layout
    requires p in m && b in m
  {
    (m - {b})[p := m[p].(size := m[p].size + OVERHEAD + m[b].size)]
  }

  function SplitAt(m: Layout, b: int, size: nat): Layout
    requires b in m && m[b].size >= size + OVERHEAD
  {
    m[b := m[b].(size := size)]
     [b + OVERHEAD + size := Block(m[b].size - size - OVERHEAD, true, true, m[b].lo, m[b].hi)]
  }

  /** Every block but the sentinel has a successor, and nothing else precedes that successor. */
  lemma Successor(m: Layout, b: int)
    requires Tiled(m) && b in m && m[b].size > 0
    ensures Next(m, b) in m && Next(m, b) >= b + HEADER_SIZE
    ensures Next(m, b) <= m[b].hi && m[b].size < BLOCK_SIZE_MAX
    ensures forall c | c in m && m[c].size > 0 && Next(m, c) == Next(m, b) :: c == b
    ensures forall c | c in m :: Next(m, b) != c + 8
  {
    assert BlockOk(m, b) && BlockOk(m, Next(m, b));
    forall c | c in m
      ensures Next(m, b) != c + 8
      ensures m[c].size > 0 && Next(m, c) == Next(m, b) ==> c == b
    {
      assert BlockOk(m, c) && Apart(m, b, c) && Apart(m, c, b);
    }
  }

  /** The words an operation on block b and its successor n may write: both headers, and n's back pointer. */
  ghost predicate OnlyHeaders(mem: Memory, mem': Memory, b: int, n: int) {
    forall a | a != b + 8 && a != n + 8 && a != n :: Read(mem', a) == Read(mem, a)
  }

  /** Links of free blocks are left alone. */
  ghost predicate KeepsLinks(mem: Memory, mem': Memory, m: Layout) {
    forall x | x in m && m[x].free :: Read(mem', x + 16) == Read(mem, x + 16) && Read(mem', x + 24) == Read(mem, x + 24)
  }

  lemma HeadersKeepLinks(mem: Memory, mem': Memory, m: Layout, b: int, n: int)
    requires Tiled(m) && b in m && n in m && OnlyHeaders(mem, mem', b, n)
    ensures KeepsLinks(mem, mem', m)
  {
    forall x | x in m && m[x].free
      ensures Read(mem', x + 16) == Read(mem, x + 16) && Read(mem', x + 24) == Read(mem, x + 24)
    {
      LinkWordsApart(m, x, b);
      LinkWordsApart(m, x, n);
    }
  }

  lemma FlaggedBlock(m: Layout, b: int, free: bool, c: int)
    requires Tiled(m) && b in m && m[b].size > 0 && Next(m, b) in m && c in m
    ensures BlockOk(Flagged(m, b, free), c)
  {
    var m' := Flagged(m, b, free);
    assert BlockOk(m, b) && BlockOk(m, c);
    Successor(m, b);
    assert m'[c].size == m[c].size && m'[c].lo == m[c].lo && m'[c].hi == m[c].hi;
    if m[c].size > 0 {
      var d := Next(m, c);
      assert Next(m', c) == d && d in m;
      if c == b {
        assert m'[d].prevFree == free;
      } else {
        assert d != Next(m, b);
        assert m'[d].prevFree == m[d].prevFree && (c != Next(m, b) ==> m'[c] == m[c]);
      }
    }
  }

  lemma FlaggedTiled(m: Layout, b: int, free: bool)
    requires Tiled(m) && b in m && m[b].size > 0
    ensures Next(m, b) in m && Tiled(Flagged(m, b, free))
  {
    Successor(m, b);
    var m' := Flagged(m, b, free);
    forall c {:trigger BlockOk(m', c)} | c in m'
      ensures BlockOk(m', c)
    {
      FlaggedBlock(m, b, free, c);
    }
    forall c, d {:trigger Apart(m', c, d)} | c in m' && d in m'
      ensures Apart(m', c, d)
    {
      assert Apart(m, c, d);
    }
  }

  lemma FlaggedOk(mem: Memory, mem': Memory, m: Layout, b: int, free: bool)
    requires Physical(mem, m) && b in m && m[b].size > 0 && Next(m, b) in m
    requires OnlyHeaders(mem, mem', b, Next(m, b))
    requires var m' := Flagged(m, b, free);
      && Read(mem', b + 8) == Encode(m'[b])
      && Read(mem', Next(m, b) + 8) == Encode(m'[Next(m, b)])
    requires free ==> Read(mem', Next(m, b)) == b
    ensures Physical(mem', Flagged(m, b, free))
  {
    var m' := Flagged(m, b, free);
    FlaggedTiled(m, b, free);
    Successor(m, b);
    forall c {:trigger HeaderOk(mem', m', c)} | c in m'
      ensures HeaderOk(mem', m', c)
    {
      assert HeaderOk(mem, m, c);
      if m[c].prevFree {
        assert BlockOk(m, Read(mem, c));
        Successor(m, Read(mem, c));
      }
    }
  }

  lemma MarkAsFreeOk(mem: Memory, m: Layout, b: int)
    requires Physical(mem, m) && b in m && m[b].size > 0 && !m[b].free
    ensures Next(m, b) in m && Physical(MarkAsFree(mem, b), Flagged(m, b, true))
    ensures KeepsLinks(mem, MarkAsFree(mem, b), m)
  {
    Successor(m, b);
    var n := Next(m, b);
    HeaderReads(mem, m, b);
    HeaderReads(mem, m, n);
    assert HeaderOk(mem, m, b) && HeaderOk(mem, m, n);
    FlaggedOk(mem, MarkAsFree(mem, b), m, b, true);
    HeadersKeepLinks(mem, MarkAsFree(mem, b), m, b, n);
  }

  lemma MarkAsUsedOk(mem: Memory, m: Layout, b: int)
    requires Physical(mem, m) && b in m && m[b].free
    ensures Next(m, b) in m && Physical(MarkAsUsed(mem, b), Flagged(m, b, false))
    ensures KeepsLinks(mem, MarkAsUsed(mem, b), m)
  {
    assert BlockOk(m, b);
    Successor(m, b);
    var n := Next(m, b);
    HeaderReads(mem, m, b);
    HeaderReads(mem, m, n);
    assert HeaderOk(mem, m, b) && HeaderOk(mem, m, n);
    assert BlockOk(m, b);
    FlaggedOk(mem, MarkAsUsed(mem, b), m, b, false);
    HeadersKeepLinks(mem, MarkAsUsed(mem, b), m, b, n);
  }

  // Coalescing two neighbours --------------------------------------------------------------------

  ghost predicate Neighbours(m: Layout, p: int, b: int) {
    && p in m && b in m
    && m[p].free && m[b].free && m[p].size > 0 && Next(m, p) == b
  }

  lemma MergedBlock(m: Layout, p: int, b: int, c: int)
    requires Tiled(m) && Neighbours(m, p, b) && c in m && c != b
    ensures BlockOk(Merged(m, p, b), c)
  {
    var m' := Merged(m, p, b);
    assert BlockOk(m, c) && BlockOk(m, p) && BlockOk(m, b);
    Successor(m, p);
    Successor(m, b);
    assert m[c].lo != b;
    if c != p && m[c].size > 0 {
      assert Next(m', c) == Next(m, c) && Next(m, c) != b;
    }
    if c == p {
      assert Next(m', c) == Next(m, b);
    }
  }

  lemma MergedTiled(m: Layout, p: int, b: int)
    requires Tiled(m) && Neighbours(m, p, b)
    ensures Tiled(Merged(m, p, b))
  {
    var m' := Merged(m, p, b);
    forall c {:trigger BlockOk(m', c)} | c in m'
      ensures BlockOk(m', c)
    {
      MergedBlock(m, p, b, c);
    }
    forall c, d {:trigger Apart(m', c, d)} | c in m' && d in m'
      ensures Apart(m', c, d)
    {
      assert Apart(m, c, d) && Apart(m, b, d) && Apart(m, p, d);
      assert Apart(m, d, b);
    }
  }

  lemma AbsorbOk(mem: Memory, m: Layout, p: int, b: int)
    requires Physical(mem, m) && Neighbours(m, p, b)
    ensures Physical(Absorb(mem, p, b), Merged(m, p, b))
    ensures KeepsLinks(mem, Absorb(mem, p, b), m)
  {
    var m', mem' := Merged(m, p, b), Absorb(mem, p, b);
    MergedTiled(m, p, b);
    assert BlockOk(m, p) && BlockOk(m, b) && BlockOk(m', p);
    Successor(m, p);
    Successor(m, b);
    var n := Next(m, b);
    HeaderReads(mem, m, b);
    assert HeaderOk(mem, m, p);
    FlagArithmetic(m'[p].size);
    assert OnlyHeaders(mem, mem', p, n) && Read(mem', p + 8) == Encode(m'[p]) && Read(mem', n) == p;
    assert Read(mem', n + 8) == Read(mem, n + 8);
    forall c {:trigger HeaderOk(mem', m', c)} | c in m'
      ensures HeaderOk(mem', m', c)
    {
      assert HeaderOk(mem, m, c);
      if m[c].prevFree {
        assert BlockOk(m, Read(mem, c));
        Successor(m, Read(mem, c));
      }
    }
    HeadersKeepLinks(mem, mem', m, p, n);
  }

  // Splitting -----------------------------------------------------------------------------------

  ghost predicate Splittable(m: Layout, b: int, size: nat) {
    && b in m && m[b].free
    && size >= BLOCK_SIZE_MIN && size % ALIGN_SIZE == 0
    && m[b].size >= size + HEADER_SIZE
  }

  lemma SplitFresh(m: Layout, b: int, size: nat)
    requires Tiled(m) && Splittable(m, b, size)
    ensures b + OVERHEAD + size !in m
  {
    var r := b + OVERHEAD + size;
    assert r in m ==> Apart(m, b, r);
  }

  lemma SplitBlock(m: Layout, b: int, size: nat, c: int)
    requires Tiled(m) && Splittable(m, b, size) && (c in m || c == b + OVERHEAD + size)
    ensures BlockOk(SplitAt(m, b, size), c)
  {
    var m' := SplitAt(m, b, size);
    var r := b + OVERHEAD + size;
    SplitFresh(m, b, size);
    assert BlockOk(m, b);
    Successor(m, b);
    if c == r {
      assert Next(m', r) == Next(m, b) && m'[Next(m, b)] == m[Next(m, b)];
      assert (m[b].size - size - OVERHEAD) % ALIGN_SIZE == 0;
    } else {
      assert BlockOk(m, c);
      if m[c].size > 0 && c != b {
        assert Next(m', c) == Next(m, c);
      }
    }
  }

  lemma SplitTiled(m: Layout, b: int, size: nat)
    requires Tiled(m) && Splittable(m, b, size)
    ensures Tiled(SplitAt(m, b, size))
  {
    var m' := SplitAt(m, b, size);
    var r := b + OVERHEAD + size;
    forall c {:trigger BlockOk(m', c)} | c in m'
      ensures BlockOk(m', c)
    {
      SplitBlock(m, b, size, c);
    }
    forall c, d {:trigger Apart(m', c, d)} | c in m' && d in m'
      ensures Apart(m', c, d)
    {
      var c0, d0 := if c == r then b else c, if d == r then b else d;
      assert Apart(m, c0, d0) && Apart(m, d0, c0);
    }
  }

  /** The words that hold the result of a split. */
  ghost predicate SplitWords(mem: Memory, mem': Memory, m: Layout, b: int, size: nat)
    requires Splittable(m, b, size)
  {
    var r, n, m' := b + OVERHEAD + size, Next(m, b), SplitAt(m, b, size);
    && Read(mem', b + 8) == Encode(m'[b])
    && Read(mem', n) == r
    && Read(mem', n + 8) == Read(mem, n + 8)
    && forall a | a != b + 8 && a != r + 8 && a != r && a != n && a != n + 8 :: Read(mem', a) == Read(mem, a)
  }

  /** What block_split leaves in memory; the caller still has to fix the remainder's back pointer and flag. */
  lemma SplitWritesWords(mem: Memory, m: Layout, b: int, size: nat)
    requires Physical(mem, m) && Splittable(m, b, size)
    ensures var mem', r := Split(mem, b, size), b + OVERHEAD + size;
      && SplitWords(mem, mem', m, b, size)
      && (var word := Encode(SplitAt(m, b, size)[r]); Read(mem', r + 8) == word || Read(mem', r + 8) == word - 2)
  {
    hide Split;
    assert BlockOk(m, b);
    Successor(m, b);
    HeaderReads(mem, m, b);
    HeaderReads(mem, m, Next(m, b));
    HeaderFlags(mem, m, b);
    SplitRaw(mem, b, size, m[b].size);
  }

  /** The same on words alone, for a block of oldSize bytes. */
  lemma SplitRaw(mem: Memory, b: int, size: nat, oldSize: nat)
    requires BlockSize(mem, b) == oldSize && IsPrevFree(mem, b + OVERHEAD + oldSize)
    requires size % ALIGN_SIZE == 0 && oldSize % ALIGN_SIZE == 0 && size >= BLOCK_SIZE_MIN
             && oldSize >= size + HEADER_SIZE
    ensures var mem', r, n := Split(mem, b, size), b + OVERHEAD + size, b + OVERHEAD + oldSize;
      var remainSize := oldSize - size - OVERHEAD;
      && Read(mem', b + 8) == size + Read(mem, b + 8) % 4
      && (Read(mem', r + 8) == remainSize + 1 || Read(mem', r + 8) == remainSize + 3)
      && Read(mem', n) == r
      && forall a | a != b + 8 && a != r + 8 && a != n :: Read(mem', a) == Read(mem, a)
  {
    var r := b + OVERHEAD + size;
    var remainSize := oldSize - size - OVERHEAD;
    var g, flags := Read(mem, r + 8) % 4, Read(mem, b + 8) % 4;
    hide Split, MarkAsFree;
    SplitAsMark(mem, b, size, oldSize, g, flags);
    WordDifference(oldSize, size);
    var mem1 := mem[r + 8 := remainSize + g][b + 8 := size + flags];
    MarkGarbage(mem1, r, remainSize, g);
  }

  lemma SplitAsMark(mem: Memory, b: int, size: nat, oldSize: nat, g: int, flags: int)
    requires BlockSize(mem, b) == oldSize && g == Read(mem, b + OVERHEAD + size + 8) % 4
             && flags == Read(mem, b + 8) % 4
    requires size > 0
    ensures var r := b + OVERHEAD + size;
      Split(mem, b, size) == MarkAsFree(mem[r + 8 := oldSize - size - OVERHEAD + g][b + 8 := size + flags], r)
  {
  }

  lemma HeaderFlags(mem: Memory, m: Layout, b: int)
    requires Physical(mem, m) && b in m
    ensures Read(mem, b + 8) % 4 == (if m[b].free then 1 else 0) + (if m[b].prevFree then 2 else 0)
  {
    assert BlockOk(m, b) && HeaderOk(mem, m, b);
    FlagArithmetic(m[b].size);
  }

  /** Marking a block free whose prev-free bit is unknown. */
  lemma MarkGarbage(mem: Memory, r: int, size: int, g: int)
    requires 0 <= g < 4 && size % ALIGN_SIZE == 0 && size >= BLOCK_SIZE_MIN && Read(mem, r + 8) == size + g
    requires IsPrevFree(mem, r + OVERHEAD + size)
    ensures var mem', n := MarkAsFree(mem, r), r + OVERHEAD + size;
      && (Read(mem', r + 8) == size + 1 || Read(mem', r + 8) == size + 3)
      && Read(mem', n) == r
      && forall a | a != r + 8 && a != n :: Read(mem', a) == Read(mem, a)
  {
    GarbageFlags(size, g);
  }

  /** Whatever the two flag bits held, the size field reads back. */
  lemma GarbageFlags(size: int, g: int)
    requires size % ALIGN_SIZE == 0 && 0 <= g < 4
    ensures (size + g) % 4 == g && (size + g) % 2 == g % 2
  {
    assert size == 8 * (size / 8);
    LowBits(size / 8, g);
  }

  lemma SplitOk(mem: Memory, mem': Memory, m: Layout, b: int, size: nat)
    requires Physical(mem, m) && Splittable(m, b, size)
    requires SplitWords(mem, mem', m, b, size)
    requires var r := b + OVERHEAD + size; Read(mem', r + 8) == Encode(SplitAt(m, b, size)[r]) && Read(mem', r) == b
    ensures Physical(mem', SplitAt(m, b, size)) && KeepsLinks(mem, mem', m - {b})
  {
    var r, m' := b + OVERHEAD + size, SplitAt(m, b, size);
    SplitTiled(m, b, size);
    SplitFresh(m, b, size);
    assert BlockOk(m, b);
    Successor(m, b);
    var n := Next(m, b);
    forall c {:trigger HeaderOk(mem', m', c)} | c in m'
      ensures HeaderOk(mem', m', c)
    {
      if c != r && c != b && c != n {
        SplitHeaderKept(mem, mem', m, b, size, c);
      } else {
        assert HeaderOk(mem, m, b) && HeaderOk(mem, m, n);
        if c == b && m[b].prevFree {
          SplitHeaderKept(mem, mem', m, b, size, c);
        }
      }
    }
    forall x | x in m && x != b && m[x].free
      ensures Read(mem', x + 16) == Read(mem, x + 16) && Read(mem', x + 24) == Read(mem, x + 24)
    {
      LinkWordsApart(m, x, b);
      LinkWordsApart(m, x, n);
      assert BlockOk(m, x) && Apart(m, x, b) && Apart(m, b, x);
    }
  }

  lemma SplitHeaderKept(mem: Memory, mem': Memory, m: Layout, b: int, size: nat, c: int)
    requires Physical(mem, m) && Splittable(m, b, size)
    requires SplitWords(mem, mem', m, b, size)
    requires c in m && c != Next(m, b) && (c == b ==> m[b].prevFree)
    requires Tiled(SplitAt(m, b, size))
    ensures HeaderOk(mem', SplitAt(m, b, size), c)
  {
    var m' := SplitAt(m, b, size);
    var r := b + OVERHEAD + size;
    SplitFresh(m, b, size);
    assert HeaderOk(mem, m, c) && BlockOk(m, c) && BlockOk(m, b);
    Successor(m, b);
    assert c + 8 != r && c + 8 != r + 8 by {
      assert Apart(m, c, b) && Apart(m, b, c);
    }
    if m[c].prevFree {
      var p := Read(mem, c);
      assert BlockOk(m, p);
      Successor(m, p);
      assert p != b && c != r + 8 by { assert Apart(m, b, c) && Apart(m, b, p) && Apart(m, p, b); }
    }
  }

  /** The remainder's back pointer and flag, which the callers of block_split set in either order. */
  lemma SplitFinish(mem: Memory, m: Layout, b: int, size: nat)
    requires Physical(mem, m) && Splittable(m, b, size)
    ensures var mem1, r := Split(mem, b, size), b + OVERHEAD + size;
      var mem' := SetPrevFree(LinkNext(mem1, b), r);
      && LinkNext(SetPrevFree(mem1, r), b) == mem'
      && SplitWords(mem, mem', m, b, size)
      && Read(mem', r + 8) == Encode(SplitAt(m, b, size)[r]) && Read(mem', r) == b
  {
    var mem1, r := Split(mem, b, size), b + OVERHEAD + size;
    hide Split, SetPrevFree, LinkNext, HeaderOk;
    var remainSize := m[b].size - size - OVERHEAD;
    SplitWritesWords(mem, m, b, size);
    assert BlockOk(m, b);
    Successor(m, b);
    WordDifference(m[b].size, size);
    FlagBounds(mem1, m, b, size);
    FinishWords(mem1, b, size, remainSize);
    FinishKeeps(mem, mem1, m, b, size, mem1[r := b][r + 8 := remainSize + 3]);
  }

  lemma WordDifference(a: nat, size: nat)
    requires a % ALIGN_SIZE == 0 && size % ALIGN_SIZE == 0
    ensures (a - size - OVERHEAD) % ALIGN_SIZE == 0
  {
  }

  lemma FlagBounds(mem: Memory, m: Layout, b: int, size: nat)
    requires Splittable(m, b, size) && Read(mem, b + 8) == Encode(SplitAt(m, b, size)[b])
    ensures size <= Read(mem, b + 8) < size + 4
  {
  }

  lemma FinishKeeps(mem: Memory, mem1: Memory, m: Layout, b: int, size: nat, mem': Memory)
    requires Splittable(m, b, size) && SplitWords(mem, mem1, m, b, size) && Next(m, b) >= b + HEADER_SIZE
    requires var r := b + OVERHEAD + size; mem' == mem1[r := b][r + 8 := m[b].size - size - OVERHEAD + 3]
    ensures SplitWords(mem, mem', m, b, size)
  {
  }

  lemma FinishWords(mem: Memory, b: int, size: nat, remainSize: nat)
    requires size % ALIGN_SIZE == 0 && remainSize % ALIGN_SIZE == 0 && size > 0
    requires size <= Read(mem, b + 8) < size + 4
    requires var r := b + OVERHEAD + size; Read(mem, r + 8) == remainSize + 1 || Read(mem, r + 8) == remainSize + 3
    ensures var r := b + OVERHEAD + size;
      var mem' := mem[r := b][r + 8 := remainSize + 3];
      && SetPrevFree(LinkNext(mem, b), r) == mem'
      && LinkNext(SetPrevFree(mem, r), b) == mem'
  {
    var r := b + OVERHEAD + size;
    GarbageFlags(size, Read(mem, b + 8) - size);
    GarbageFlags(remainSize, 1);
    GarbageFlags(remainSize, 3);
    assert BlockNext(mem, b) == r;
    assert SetPrevFree(mem, r) == mem[r + 8 := remainSize + 3];
    assert BlockNext(SetPrevFree(mem, r), b) == r;
  }
}
