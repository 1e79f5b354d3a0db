/** The allocator: control structure, bitmaps and list heads, and the operations of the driver's build. */
module Tlsf {
  import opened Bits
  import opened Sequences
  import opened TlsfMapping
  import opened TlsfHeap
  import opened TlsfLists
  import opened TlsfPools
  import opened TlsfData

  const LISTS := FL_INDEX_COUNT * SL_INDEX_COUNT

  /** Heads and bitmaps are set exactly for the non-empty lists. */
  ghost predicate Indexes(flBitmap: Word, slBitmap: seq<Word>, heads: seq<int>, lists: Lists) {
    && |slBitmap| == FL_INDEX_COUNT && |heads| == LISTS && |lists| == LISTS
    && (forall k | 0 <= k < LISTS :: heads[k] == Head(lists[k]))
    && (forall fl, sl | 0 <= fl < FL_INDEX_COUNT && 0 <= sl < 32 :: slBitmap[fl][sl] == (lists[fl * 32 + sl] != []))
    && (forall fl | 0 <= fl < FL_INDEX_COUNT :: flBitmap[fl] == !IsZero(slBitmap[fl]))
    && (forall fl | FL_INDEX_COUNT <= fl < 32 :: !flBitmap[fl])
  }

  /** Updating one list, its head and its two bits together. */
  lemma IndexesUpdate(flBitmap: Word, slBitmap: seq<Word>, heads: seq<int>, lists: Lists, fl: nat, sl: nat, l: seq<int>)
    requires Indexes(flBitmap, slBitmap, heads, lists) && Index(fl, sl).InTable()
    ensures var k, word := fl * 32 + sl, slBitmap[fl][sl := l != []];
      Indexes(flBitmap[fl := !IsZero(word)], slBitmap[fl := word], heads[k := Head(l)], lists[k := l])
  {
  }

  lemma NonEmptyBits(flBitmap: Word, slBitmap: seq<Word>, heads: seq<int>, lists: Lists, fl: nat, sl: nat)
    requires Indexes(flBitmap, slBitmap, heads, lists) && Index(fl, sl).InTable()
    ensures |slBitmap| == FL_INDEX_COUNT && |heads| == LISTS && |lists| == LISTS
    ensures var k := fl * 32 + sl; heads[k] == Head(lists[k]) && (lists[k] != [] ==> slBitmap[fl][sl] && flBitmap[fl])
  {
  }

  /** The lists between two positions are empty when the bits between them are clear. */
  lemma EmptyRun(flBitmap: Word, slBitmap: seq<Word>, heads: seq<int>, lists: Lists, fl: nat, sl: nat, fl': nat,
                 sl': nat)
    requires Indexes(flBitmap, slBitmap, heads, lists) && Index(fl, sl).InTable() && fl <= fl' && sl' <= 32
    requires forall j | sl <= j < (if fl' == fl then sl' else 32) :: !slBitmap[fl][j]
    requires forall j | fl < j < fl' && j < 32 :: !flBitmap[j]
    requires fl < fl' < FL_INDEX_COUNT ==> forall j | 0 <= j < sl' :: !slBitmap[fl'][j]
    requires fl' >= FL_INDEX_COUNT ==> sl' == 0
    ensures forall k | fl * 32 + sl <= k < fl' * 32 + sl' && k < LISTS :: lists[k] == []
  {
    forall k | fl * 32 + sl <= k < fl' * 32 + sl' && k < LISTS
      ensures lists[k] == []
    {
      var i, j := k / 32, k % 32;
      assert i * 32 + j == k && fl <= i <= fl';
      assert slBitmap[i][j] == (lists[i * 32 + j] != []);
      if fl < i < fl' {
        assert !flBitmap[i] && IsZero(slBitmap[i]);
      }
    }
  }

  lemma SearchMisses(flBitmap: Word, slBitmap: seq<Word>, heads: seq<int>, lists: Lists, fl: nat, sl: nat)
    requires Indexes(flBitmap, slBitmap, heads, lists) && Index(fl, sl).InTable()
    requires IsZero(BitsFrom(slBitmap[fl], sl)) && IsZero(BitsFrom(flBitmap, fl + 1))
    ensures forall k | fl * 32 + sl <= k < LISTS :: lists[k] == []
  {
    assert forall j | sl <= j < 32 :: BitsFrom(slBitmap[fl], sl)[j] == slBitmap[fl][j];
    assert forall j | fl < j < 32 :: BitsFrom(flBitmap, fl + 1)[j] == flBitmap[j];
    EmptyRun(flBitmap, slBitmap, heads, lists, fl, sl, 32, 0);
  }

  lemma SearchHitsSame(flBitmap: Word, slBitmap: seq<Word>, heads: seq<int>, lists: Lists, fl: nat, sl: nat, sl': nat)
    requires Indexes(flBitmap, slBitmap, heads, lists) && Index(fl, sl).InTable()
    requires !IsZero(BitsFrom(slBitmap[fl], sl)) && sl' == Ffs(BitsFrom(slBitmap[fl], sl))
    ensures sl <= sl' < 32 && lists[fl * 32 + sl'] != []
    ensures forall k | fl * 32 + sl <= k < fl * 32 + sl' :: lists[k] == []
  {
    var slMap := BitsFrom(slBitmap[fl], sl);
    assert forall j | sl <= j < 32 :: slMap[j] == slBitmap[fl][j];
    assert slMap[sl'];
    EmptyRun(flBitmap, slBitmap, heads, lists, fl, sl, fl, sl');
  }

  lemma SearchHitsAbove(flBitmap: Word, slBitmap: seq<Word>, heads: seq<int>, lists: Lists, fl: nat, sl: nat, fl': nat)
    requires Indexes(flBitmap, slBitmap, heads, lists) && Index(fl, sl).InTable()
    requires IsZero(BitsFrom(slBitmap[fl], sl))
    requires !IsZero(BitsFrom(flBitmap, fl + 1)) && fl' == Ffs(BitsFrom(flBitmap, fl + 1))
    ensures fl < fl' < FL_INDEX_COUNT && !IsZero(slBitmap[fl'])
    ensures lists[fl' * 32 + Ffs(slBitmap[fl'])] != []
    ensures forall k | fl * 32 + sl <= k < fl' * 32 + Ffs(slBitmap[fl']) :: lists[k] == []
  {
    var slMap, flMap := BitsFrom(slBitmap[fl], sl), BitsFrom(flBitmap, fl + 1);
    assert forall j | sl <= j < 32 :: slMap[j] == slBitmap[fl][j];
    assert forall j | fl < j < 32 :: flMap[j] == flBitmap[j];
    assert flBitmap[fl'];
    var sl' := Ffs(slBitmap[fl']);
    assert slBitmap[fl'][sl'];
    EmptyRun(flBitmap, slBitmap, heads, lists, fl, sl, fl', sl');
  }

  /** The new head, when the removed node was the head. */
  lemma HeadAfterRemoval(mem: Memory, lists: Lists, k: nat, i: nat)
    requires Spaced(lists) && Linked(mem, lists) && k < |lists| && i < |lists[k]|
    ensures Head(lists[k]) == lists[k][i] <==> i == 0
    ensures i == 0 ==> Read(mem, lists[k][0] + 16) == Head(Without(lists[k], 0))
    ensures i != 0 ==> Head(Without(lists[k], i)) == Head(lists[k]) && Without(lists[k], i) != []
    ensures Head(Without(lists[k], i)) == NULL <==> Without(lists[k], i) == []
  {
    var l := lists[k];
    assert Links(mem, l) && LinkAt(mem, l, i) && Distinct(l);
    assert l[0] in lists[k];
    if i == 0 && |l| > 1 {
      assert l[1] in lists[k];
    }
  }

  /** The first non-empty list from the searched class on, when the lists hold exactly the free blocks. */
  lemma HeadIsFirstFit(m: Layout, lists: Lists, size: nat, k: nat)
    requires Listed(m, lists, {}) && k < |lists| && lists[k] != [] && MappingSearch(size).Flat() <= k
    requires forall j: nat | MappingSearch(size).Flat() <= j < k :: lists[j] == []
    ensures FirstFit(m, lists, size, lists[k][0])
  {
    assert lists[k][0] in lists[k];
    forall x | x in m && m[x].free && MappingSearch(size).Flat() <= Class(m[x].size)
      ensures k <= Class(m[x].size)
    {
      assert InItsList(m, lists, x);
    }
  }

  /** Once its neighbours are used, a block no longer needs to be excepted. */
  lemma SettledCoalesced(m: Layout, b: int)
    requires Tiled(m) && Coalesced(m, {b}) && Isolated(m, b)
    ensures Coalesced(m, {})
  {
    forall x {:trigger Next(m, x)} | x in m && m[x].free && Next(m, x) in m
      ensures m[Next(m, x)].prevFree
    {
      assert BlockOk(m, x);
    }
  }

  lemma PredecessorUsed(m: Layout, b: int, p: int)
    requires Coalesced(m, {}) && b in m && m[b].free
    ensures !(p in m && m[p].free && Next(m, p) == b)
  {
  }

  /** A free block that is not excepted itself has a free predecessor only if that one is excepted. */
  lemma OnlyExceptedBefore(mem: Memory, m: Layout, S: set<int>, p: int)
    requires Physical(mem, m) && Coalesced(m, S) && p in m && m[p].free && p !in S
    ensures m[p].prevFree ==> Read(mem, p) in S && Read(mem, p) in m && Next(m, Read(mem, p)) == p
  {
    assert HeaderOk(mem, m, p);
  }

  /** Free blocks are words of a pool, clear of both ends of the address space. */
  lemma Placement(m: Layout, b: int)
    requires Tiled(m) && b in m && m[b].free
    ensures POOL_FLOOR <= b && b % ALIGN_SIZE == 0 && b + 16 + 4 * BLOCK_SIZE_MAX < SIZE_T
    ensures m[b].size < BLOCK_SIZE_MAX && m[b].size % ALIGN_SIZE == 0
  {
    assert BlockOk(m, b);
    Successor(m, b);
  }

  /** A free block with used neighbours. */
  ghost predicate Isolated(m: Layout, b: int) {
    && b in m && m[b].free && Next(m, b) in m
    && !m[Next(m, b)].free && !m[b].prevFree
  }

  lemma IsolatedWhenCoalesced(mem: Memory, m: Layout, b: int)
    requires Physical(mem, m) && Coalesced(m, {}) && b in m && m[b].free
    ensures Isolated(m, b)
  {
    assert BlockOk(m, b) && HeaderOk(mem, m, b);
    PredecessorUsed(m, b, Read(mem, b));
  }

  /** A new live block of at least `adjust` bytes, wasting less than a block header. */
  ghost predicate Allocated(m: Layout, m': Layout, p: int, adjust: nat) {
    var b := p - 16;
    && p % ALIGN_SIZE == 0 && b !in Live(m)
    && b in Live(m') && Live(m') == Live(m)[b := Live(m')[b]]
    && adjust <= Live(m')[b] < adjust + HEADER_SIZE
  }

  /** The same for a block of any size, cut from one free block. */
  ghost predicate Carved(m: Layout, m': Layout, p: int) {
    var b := p - 16;
    && p % ALIGN_SIZE == 0 && b !in Live(m)
    && b in Live(m') && Live(m') == Live(m)[b := Live(m')[b]]
    && exists c :: c in m && m[c].free && c <= b && b + Live(m')[b] <= c + m[c].size
  }

  /** No free block is in the searched class of the adjusted request or above; an empty or oversized request fits
      nowhere. */
  ghost predicate Unserved(m: Layout, adjust: nat) {
    adjust == 0 || forall x | x in m && m[x].free :: Class(m[x].size) < MappingSearch(adjust).Flat()
  }

  /** b is the head of the list of the lowest class, at or above the searched one, that has any free block. */
  ghost predicate FirstFit(m: Layout, lists: Lists, size: nat, b: int) {
    && b in m && m[b].free && MappingSearch(size).Flat() <= Class(m[b].size)
    && 0 <= Class(m[b].size) < |lists| && lists[Class(m[b].size)] != [] && lists[Class(m[b].size)][0] == b
    && forall x | x in m && m[x].free && MappingSearch(size).Flat() <= Class(m[x].size) ::
         Class(m[b].size) <= Class(m[x].size)
  }

  /** p is the first aligned address from ptr on that leaves no gap or enough for a free block. */
  ghost predicate FirstAligned(ptr: int, align: nat, p: int)
    requires align > 0
  {
    && 0 <= ptr <= p && MultipleOf(p, align) && (p == ptr || p >= ptr + HEADER_SIZE)
    && forall a: nat {:trigger MultipleOf(a, align)} ::
         MultipleOf(a, align) && (a == ptr || a >= ptr + HEADER_SIZE) ==> p <= a
  }

  /** The new live block is what remains of block c from p - 16 on, cut down to size if the rest can stand alone. */
  ghost predicate CutFrom(m: Layout, m': Layout, p: int, c: int, size: nat) {
    && c in m && p - 16 in Live(m')
    && var remaining := c + m[c].size - (p - 16);
       Live(m')[p - 16] == if remaining >= size + HEADER_SIZE then size else remaining
  }

  /** The block that an aligned allocation takes, and what it makes of it. */
  ghost predicate ServedBy(m: Layout, lists: Lists, m': Layout, p: int, c: int, align: nat, size: nat)
    requires align > 0
  {
    var adjust := AdjustRequestSize(size, ALIGN_SIZE);
    && FirstFit(m, lists, if align > ALIGN_SIZE then PaddedRequest(adjust, align) else adjust, c)
    && CutFrom(m, m', p, c, adjust)
  }

  /** The block given back, joined with its free neighbours, is the head of the list of its class. */
  ghost predicate Returned(m: Layout, m': Layout, lists: Lists, p: int) {
    exists b :: b in m' && m'[b].free && b <= p - 16 && 0 <= Class(m'[b].size) < |lists|
                && lists[Class(m'[b].size)] != [] && lists[Class(m'[b].size)][0] == b
                && p - 16 in m && p + m[p - 16].size <= b + 16 + m'[b].size
  }

  lemma NotBlock(m: Layout, b: int)
    requires Tiled(m) && b < 0
    ensures b !in m
  {
    assert b in m ==> BlockOk(m, b);
  }

  lemma GivenBack(m: Layout, m': Layout, lists: Lists, b: int, p: int)
    requires b in m' && m'[b].free && b <= p - 16 && 0 <= Class(m'[b].size) < |lists|
    requires p - 16 in m && p + m[p - 16].size <= b + 16 + m'[b].size
    ensures Returned(m, m', Inserted(lists, Class(m'[b].size), b), p)
  {
    hide Class;
  }

  /** The usable bytes of a pool: two header words less, rounded down, in size_t arithmetic. */
  function PoolBytes(bytes: nat): nat {
    AlignDown((bytes - 16) % SIZE_T, ALIGN_SIZE)
  }

  /** Whatever flags the memory held, the new block is marked free with a used predecessor. */
  lemma FreshHeader(mem: Memory, b: int, size: nat)
    requires size % ALIGN_SIZE == 0
    ensures SetPrevUsed(SetFree(SetSize(mem, b, size), b), b) == mem[b + 8 := size + 1]
    ensures BlockSize(mem[b + 8 := size + 1], b) == size
  {
    var g := Read(mem, b + 8) % 4;
    GarbageFlags(size, g);
    GarbageFlags(size, 1);
    GarbageFlags(size, 3);
    assert SetFree(SetSize(mem, b, size), b) == mem[b + 8 := size + (if g % 2 == 1 then g else g + 1)];
  }

  /** Likewise the sentinel is empty, used, with a free predecessor. */
  lemma SentinelHeader(mem: Memory, b: int, hi: int, size: nat)
    requires Read(mem, b + 8) == size + 1 && size % ALIGN_SIZE == 0 && hi == b + OVERHEAD + size && size > 0
    ensures BlockNext(mem, b) == hi
    ensures SetPrevFree(SetUsed(SetSize(LinkNext(mem, b), hi, 0), hi), hi) == mem[hi := b][hi + 8 := 2]
  {
    GarbageFlags(size, 1);
    assert LinkNext(mem, b) == mem[hi := b];
    var g := Read(mem, hi + 8) % 4;
    GarbageFlags(0, g);
    assert SetUsed(SetSize(mem[hi := b], hi, 0), hi) == mem[hi := b][hi + 8 := g - g % 2];
  }

  /** A sub-word region wraps and is then rejected as too large. */
  lemma PoolBytesSpec(bytes: nat)
    requires bytes < SIZE_T
    ensures PoolBytes(bytes) % ALIGN_SIZE == 0
    ensures if bytes < 16 then PoolBytes(bytes) > BLOCK_SIZE_MAX else bytes - 24 < PoolBytes(bytes) <= bytes - 16
  {
  }

  /** A region that the size check of tlsf_add_pool lets pass, although there is no list for its block. */
  lemma LargestPool()
    ensures var bytes := BLOCK_SIZE_MAX + 2 * OVERHEAD;
      && BLOCK_SIZE_MIN <= PoolBytes(bytes) <= BLOCK_SIZE_MAX && !MappingInsert(PoolBytes(bytes)).InTable()
  {
    hide MappingInsert;
    LargestOutOfTable();
    assert PoolBytes(BLOCK_SIZE_MAX + 2 * OVERHEAD) == BLOCK_SIZE_MAX;
  }

  /** The pointers, each once, of exactly the live blocks. */
  ghost predicate Enumerates(ps: seq<int>, live: map<int, nat>) {
    && Distinct(ps)
    && (forall p | p in ps :: p - 16 in live)
    && (forall b | b in live :: b + 16 in ps)
  }

  ghost predicate OneFreeBlock(m: Layout, lo: int)
    requires lo in Pools(m)
  {
    && lo in m && m[lo].free && m[lo].size == Pools(m)[lo] - lo - OVERHEAD
    && forall c | c in m && m[c].lo == lo :: c == lo || c == Pools(m)[lo]
  }

  lemma EnumerateStep(ps: seq<int>, live: map<int, nat>)
    requires Enumerates(ps, live) && ps != []
    ensures ps[0] - 16 in live && Enumerates(ps[1..], live - {ps[0] - 16})
  {
    hide Distinct;
    TailDistinct(ps);
    var live' := live - {ps[0] - 16};
    assert ps[0] in ps && (forall p | p in ps[1..] :: p in ps);
    forall b | b in live'
      ensures b + 16 in ps[1..]
    {
      assert b + 16 in ps && b + 16 != ps[0];
      assert ps == [ps[0]] + ps[1..];
    }
  }

  lemma TailDistinct(ps: seq<int>)
    requires Distinct(ps) && ps != []
    ensures Distinct(ps[1..]) && ps[0] !in ps[1..]
  {
  }

  lemma AllReleased(ps: seq<int>, m: Layout)
    requires Tiled(m) && Coalesced(m, {}) && ps == [] && Enumerates(ps, Live(m))
    ensures Live(m) == map[]
    ensures forall lo | lo in Pools(m) :: OneFreeBlock(m, lo)
  {
    assert forall b | b in Live(m) :: b + 16 in ps;
    assert Live(m).Keys == {};
    assert Live(m) == map[];
    forall lo | lo in Pools(m)
      ensures OneFreeBlock(m, lo)
    {
      NothingLiveOneBlock(m, lo);
    }
  }

  class Control {
    var mem: Memory
    var flBitmap: Word
    const slBitmap: array<Word>
    const blocks: array<int>

    ghost var layout: Layout
    ghost var lists: Lists

    /** List heads and bitmaps agree with the lists. */
    ghost predicate Indexed()
      reads this, slBitmap, blocks
    {
      Indexes(flBitmap, slBitmap[..], blocks[..], lists)
    }

    /** The allocator's invariant, except that the free blocks in S are off their lists. */
    ghost predicate Inv(S: set<int>)
      reads this, slBitmap, blocks
    {
      && Indexed()
      && Sound(mem, layout, lists, S)
    }

    ghost predicate Valid()
      reads this, slBitmap, blocks
    {
      Inv({})
    }

    constructor ()
      ensures Valid() && fresh(slBitmap) && fresh(blocks)
      ensures layout == map[]
    {
      mem := map[NULL + 16 := NULL, NULL + 24 := NULL];
      flBitmap := ZERO;
      slBitmap := new Word[FL_INDEX_COUNT](_ => ZERO);
      blocks := new int[LISTS](_ => NULL);
      layout := map[];
      lists := seq(LISTS, _ => []);
    }

    /** The first block of the first non-empty list at or after the given one, or 0. */
    method SearchSuitableBlock(fl: nat, sl: nat) returns (block: int, fl': nat, sl': nat)
      requires Index(fl, sl).InTable() && Indexed() && Spaced(lists)
      ensures block == 0 ==> forall k | fl * 32 + sl <= k < LISTS :: lists[k] == []
      ensures block != 0 ==>
        && Index(fl', sl').InTable()
        && Index(fl', sl').Flat() >= Index(fl, sl).Flat()
        && lists[Index(fl', sl').Flat()] != []
        && block == lists[Index(fl', sl').Flat()][0]
        && forall k | Index(fl, sl).Flat() <= k < Index(fl', sl').Flat() :: lists[k] == []
    {
      hide Indexes, Spaced, BitsFrom, IsZero, Ffs;
      fl', sl' := fl, sl;
      ghost var words := slBitmap[..];
      NonEmptyBits(flBitmap, words, blocks[..], lists, fl, sl);
      var slMap := BitsFrom(slBitmap[fl], sl);
      if IsZero(slMap) {
        var flMap := BitsFrom(flBitmap, fl + 1);
        if IsZero(flMap) {
          SearchMisses(flBitmap, words, blocks[..], lists, fl, sl);
          return 0, fl, sl;
        }
        fl' := Ffs(flMap);
        SearchHitsAbove(flBitmap, words, blocks[..], lists, fl, sl, fl');
        slMap := slBitmap[fl'];
      } else {
        SearchHitsSame(flBitmap, words, blocks[..], lists, fl, sl, Ffs(slMap));
      }
      sl' := Ffs(slMap);
      NonEmptyBits(flBitmap, words, blocks[..], lists, fl', sl');
      block := blocks[fl' * 32 + sl'];
      assert block in lists[fl' * 32 + sl'];
      SpacedPair(lists, fl' * 32 + sl', fl' * 32 + sl', block, block);
    }

    method RemoveFreeBlock(b: int, fl: nat, sl: nat, ghost i: nat)
      requires Index(fl, sl).InTable() && Indexed() && Linked(mem, lists) && Spaced(lists)
      requires i < |lists[Index(fl, sl).Flat()]| && lists[Index(fl, sl).Flat()][i] == b
      modifies `mem, `flBitmap, `lists, slBitmap, blocks
      ensures Indexed() && Linked(mem, lists)
      ensures mem == RemoveMemory(old(mem), b)
      ensures lists == old(lists)[Index(fl, sl).Flat() := Without(old(lists)[Index(fl, sl).Flat()], i)]
    {
      hide Linked, Spaced, Without, Indexes;
      ghost var k := fl * 32 + sl;
      NonEmptyBits(flBitmap, slBitmap[..], blocks[..], lists, fl, sl);
      HeadAfterRemoval(mem, lists, k, i);
      assert slBitmap[fl][sl := true] == slBitmap[fl];
      RemoveLinks(mem, lists, k, i);
      var prev, next := Read(mem, b + 24), Read(mem, b + 16);
      mem := mem[next + 24 := prev];
      mem := mem[prev + 16 := next];
      if blocks[fl * 32 + sl] == b {
        blocks[fl * 32 + sl] := next;
        if next == NULL {
          slBitmap[fl] := ClearBit(slBitmap[fl], sl);
          if IsZero(slBitmap[fl]) {
            flBitmap := ClearBit(flBitmap, fl);
          }
        }
      }
      ghost var l := Without(lists[k], i);
      IndexesUpdate(old(flBitmap), old(slBitmap[..]), old(blocks[..]), lists, fl, sl, l);
      assert blocks[..] == old(blocks[..])[k := Head(l)];
      assert slBitmap[..] == old(slBitmap[..])[fl := old(slBitmap[fl])[sl := l != []]];
      assert old(flBitmap)[fl := !IsZero(slBitmap[fl])] == flBitmap;
      lists := lists[k := l];
    }

    method InsertFreeBlock(b: int, fl: nat, sl: nat)
      requires Index(fl, sl).InTable() && Indexed() && Linked(mem, lists) && Spaced(lists) && b >= HEADER_SIZE
      requires forall j, x | 0 <= j < |lists| && x in lists[j] :: Gap(x, b)
      modifies `mem, `flBitmap, `lists, slBitmap, blocks
      ensures Indexed() && Linked(mem, lists)
      ensures mem == InsertMemory(old(mem), b, Head(old(lists)[Index(fl, sl).Flat()]))
      ensures lists == Inserted(old(lists), Index(fl, sl).Flat(), b)
    {
      hide Indexes, Linked, Spaced;
      ghost var k := fl * 32 + sl;
      NonEmptyBits(flBitmap, slBitmap[..], blocks[..], lists, fl, sl);
      InsertLinks(mem, lists, k, b);
      var current := blocks[fl * 32 + sl];
      mem := mem[b + 16 := current];
      mem := mem[b + 24 := NULL];
      mem := mem[current + 24 := b];
      blocks[fl * 32 + sl] := b;
      flBitmap := SetBit(flBitmap, fl);
      slBitmap[fl] := SetBit(slBitmap[fl], sl);
      IndexesUpdate(old(flBitmap), old(slBitmap[..]), old(blocks[..]), lists, fl, sl, [b] + lists[k]);
      assert blocks[..] == old(blocks[..])[k := b];
      assert slBitmap[..] == old(slBitmap[..])[fl := old(slBitmap[fl])[sl := true]];
      assert slBitmap[fl][sl] && old(flBitmap)[fl := !IsZero(slBitmap[fl])] == flBitmap;
      lists := Inserted(lists, k, b);
    }

    // -------------------------------------------------------------------------------------------
    // Blocks on and off the lists
    // -------------------------------------------------------------------------------------------

    method BlockRemove(b: int, ghost S: set<int>)
      requires Inv(S) && b in layout && layout[b].free && b !in S
      modifies `mem, `flBitmap, `lists, slBitmap, blocks
      ensures Inv(S + {b})
      ensures DataKept(old(mem), mem, Live(layout))
    {
      HeaderReads(mem, layout, b);
      ListedIsSpaced(layout, lists, S);
      assert BlockOk(layout, b) && InItsList(layout, lists, b);
      Successor(layout, b);
      MappingInsertInTable(layout[b].size);
      var at := MappingInsert(BlockSize(mem, b));
      ghost var l := lists[at.Flat()];
      ghost var i: nat :| i < |l| && l[i] == b;
      RemovePhysical(mem, layout, lists, S, at.Flat(), i);
      RemoveData(mem, layout, lists, S, at.Flat(), i);
      RemoveListed(layout, lists, S, at.Flat(), i);
      RemoveFreeBlock(b, at.fl, at.sl, i);
    }

    method BlockInsert(b: int, ghost S: set<int>, ghost rest: set<int>)
      requires Inv(S) && b in S && rest == S - {b} && Coalesced(layout, rest)
      modifies `mem, `flBitmap, `lists, slBitmap, blocks
      ensures Inv(rest) && 0 <= Class(layout[b].size) < |old(lists)|
      ensures lists == Inserted(old(lists), Class(layout[b].size), b)
      ensures DataKept(old(mem), mem, Live(layout))
    {
      HeaderReads(mem, layout, b);
      ListedIsSpaced(layout, lists, S);
      assert BlockOk(layout, b);
      Successor(layout, b);
      MappingInsertInTable(layout[b].size);
      var at := MappingInsert(BlockSize(mem, b));
      forall j, x | 0 <= j < |lists| && x in lists[j]
        ensures Gap(x, b)
      {
        assert BlockOk(layout, x) && Apart(layout, x, b) && Apart(layout, b, x);
      }
      InsertPhysical(mem, layout, lists, S, at.Flat(), b);
      InsertData(mem, layout, lists, S, at.Flat(), b);
      InsertListed(layout, lists, S, b);
      InsertFreeBlock(b, at.fl, at.sl);
    }

    // -------------------------------------------------------------------------------------------
    // Coalescing
    // -------------------------------------------------------------------------------------------

    /** Joins the off-list block b with a free predecessor. */
    method BlockMergePrev(b: int) returns (b': int)
      requires Inv({b})
      modifies `mem, `flBitmap, `lists, `layout, slBitmap, blocks
      ensures b' in layout && Inv({b'}) && !layout[b'].prevFree
      ensures Next(layout, b') == old(Next(layout, b))
      ensures if old(layout[b].prevFree)
        then Neighbours(old(layout), b', b) && layout == Merged(old(layout), b', b)
        else b' == b && layout == old(layout)
      ensures DataKept(old(mem), mem, old(Live(layout)))
    {
      HeaderReads(mem, layout, b);
      b' := b;
      if IsPrevFree(mem, b) {
        var prev := Read(mem, b);
        assert HeaderOk(mem, layout, b) && BlockOk(layout, prev) && BlockOk(layout, b);
        OnlyExceptedBefore(mem, layout, {b}, prev);
        assert !layout[prev].prevFree;
        BlockRemove(prev, {b});
        MergeData(mem, layout, prev, b);
        MergeKeeps(mem, layout, lists, prev, b);
        mem := Absorb(mem, prev, b);
        layout := Merged(layout, prev, b);
        b' := prev;
      }
    }

    /** Joins the off-list block b with a free successor. */
    method BlockMergeNext(b: int)
      requires Inv({b})
      modifies `mem, `flBitmap, `lists, `layout, slBitmap, blocks
      ensures Inv({b}) && layout[b].prevFree == old(layout[b].prevFree)
      ensures Next(layout, b) in layout && !layout[Next(layout, b)].free
      ensures if old(Next(layout, b) in layout && layout[Next(layout, b)].free)
        then Neighbours(old(layout), b, old(Next(layout, b))) && layout == Merged(old(layout), b, old(Next(layout, b)))
        else layout == old(layout)
      ensures DataKept(old(mem), mem, old(Live(layout)))
    {
      HeaderReads(mem, layout, b);
      assert BlockOk(layout, b);
      Successor(layout, b);
      var next := BlockNext(mem, b);
      HeaderReads(mem, layout, next);
      if IsFree(mem, next) {
        assert BlockOk(layout, next);
        Successor(layout, next);
        assert Next(layout, next) in layout && !layout[Next(layout, next)].free;
        BlockRemove(next, {b});
        MergeData(mem, layout, b, next);
        MergeKeeps(mem, layout, lists, b, next);
        mem := Absorb(mem, b, next);
        layout := Merged(layout, b, next);
      }
    }

    // -------------------------------------------------------------------------------------------
    // Splitting
    // -------------------------------------------------------------------------------------------

    /** `block_split` of the off-list block b, with the remainder's back pointer and flag set as both callers do. */
    method BlockSplit(b: int, size: nat) returns (remaining: int)
      requires Inv({b}) && Splittable(layout, b, size)
      requires Next(layout, b) in layout && !layout[Next(layout, b)].free
      modifies `mem, `layout
      ensures remaining == b + OVERHEAD + size && layout == SplitAt(old(layout), b, size)
      ensures Inv({b, remaining}) && Coalesced(layout, {b})
      ensures old(!layout[b].prevFree) ==> Coalesced(layout, {remaining})
      ensures DataKept(old(mem), mem, old(Live(layout)))
    {
      hide Split, SetPrevFree, LinkNext, Physical, Linked, Listed, DataKept;
      SplitData(mem, layout, b, size);
      SplitKeeps(mem, layout, lists, b, size);
      remaining := b + OVERHEAD + size;
      mem := Split(mem, b, size);
      mem := LinkNext(mem, b);
      mem := SetPrevFree(mem, remaining);
      layout := SplitAt(layout, b, size);
    }

    /** Cuts the off-list block b down to size and lists the rest. */
    method BlockTrimFree(b: int, size: nat)
      requires Inv({b}) && size >= BLOCK_SIZE_MIN && size % ALIGN_SIZE == 0
      requires Next(layout, b) in layout && !layout[Next(layout, b)].free
      modifies `mem, `flBitmap, `lists, `layout, slBitmap, blocks
      ensures Inv({b})
      ensures layout == if old(layout[b].size) >= size + HEADER_SIZE then SplitAt(old(layout), b, size) else old(layout)
      ensures Live(layout) == old(Live(layout))
      ensures DataKept(old(mem), mem, old(Live(layout)))
    {
      HeaderReads(mem, layout, b);
      if CanSplit(mem, b, size) {
        SplitView(layout, b, size);
        var remaining := BlockSplit(b, size);
        BlockInsert(remaining, {b, remaining}, {b});
      }
    }

    /** Cuts `size` bytes off the front of the off-list block b, lists them, and returns the rest. */
    method BlockTrimFreeLeading(b: int, size: nat) returns (remaining: int)
      requires Inv({b}) && size >= HEADER_SIZE && size % ALIGN_SIZE == 0
      requires Next(layout, b) in layout && !layout[Next(layout, b)].free && !layout[b].prevFree
      modifies `mem, `flBitmap, `lists, `layout, slBitmap, blocks
      ensures Inv({remaining}) && Next(layout, remaining) == old(Next(layout, b))
      ensures if old(layout[b].size) >= size + HEADER_SIZE
        then remaining == b + size && layout == SplitAt(old(layout), b, size - OVERHEAD)
        else remaining == b && layout == old(layout)
      ensures DataKept(old(mem), mem, old(Live(layout)))
    {
      HeaderReads(mem, layout, b);
      remaining := b;
      if CanSplit(mem, b, size) {
        SplitView(layout, b, size - OVERHEAD);
        remaining := BlockSplit(b, size - OVERHEAD);
        BlockInsert(b, {b, remaining}, {remaining});
      }
    }

    // -------------------------------------------------------------------------------------------
    // The public operations
    // -------------------------------------------------------------------------------------------

    /** Takes a block that fits off its list. Zero means that the request was empty or that no free block is
        in the searched class or above. */
    method BlockLocateFree(size: nat) returns (b: int)
      requires Valid() && size % ALIGN_SIZE == 0
      modifies `mem, `flBitmap, `lists, slBitmap, blocks
      ensures b == 0 ==> Valid() && mem == old(mem)
      ensures DataKept(old(mem), mem, Live(layout))
      ensures b == 0 <==> Unserved(layout, size)
      ensures b != 0 ==> Inv({b}) && size != 0 && layout[b].size >= size && Isolated(layout, b)
      ensures b != 0 ==> FirstFit(layout, old(lists), size, b)
    {
      b := 0;
      if size != 0 {
        var at := MappingSearch(size);
        ListedIsSpaced(layout, lists, {});
        MappingInsertInTable(SearchSize(size));
        if at.fl < FL_INDEX_COUNT {
          var fl, sl;
          b, fl, sl := SearchSuitableBlock(at.fl, at.sl);
          if b != 0 {
            assert b in lists[Index(fl, sl).Flat()];
            assert BlockOk(layout, b);
            HeadIsFirstFit(layout, lists, size, Index(fl, sl).Flat());
            SearchFits(size, layout[b].size);
            IsolatedWhenCoalesced(mem, layout, b);
            RemoveData(mem, layout, lists, {}, Index(fl, sl).Flat(), 0);
            RemoveListed(layout, lists, {}, Index(fl, sl).Flat(), 0);
            RemovePhysical(mem, layout, lists, {}, Index(fl, sl).Flat(), 0);
            RemoveFreeBlock(b, fl, sl, 0);
            assert {} + {b} == {b};
          }
        }
        if b == 0 {
          forall x | x in layout && layout[x].free
            ensures Class(layout[x].size) < MappingSearch(size).Flat()
          {
            assert InItsList(layout, lists, x);
          }
        }
      }
    }

    /** Cuts the off-list block b down to size, marks it used and returns its client address. */
    method BlockPrepareUsed(b: int, size: nat) returns (p: int)
      requires Inv({b}) && size >= BLOCK_SIZE_MIN && size % ALIGN_SIZE == 0
      requires Next(layout, b) in layout && !layout[Next(layout, b)].free
      modifies `mem, `flBitmap, `lists, `layout, slBitmap, blocks
      ensures Valid() && p == b + 16 && p > 16 && p % ALIGN_SIZE == 0
      ensures Pools(layout) == old(Pools(layout)) && b in old(layout) && Carved(old(layout), layout, p)
      ensures Live(layout)[b] == if old(layout[b].size) >= size + HEADER_SIZE then size else old(layout[b].size)
      ensures size <= old(layout[b].size) ==> Allocated(old(layout), layout, p, size)
      ensures DataKept(old(mem), mem, old(Live(layout)))
    {
      hide DataKept;
      ghost var mem0 := mem;
      assert BlockOk(layout, b);
      if size <= layout[b].size { HandedView(layout, b, size); } else { FlaggedView(layout, b, false); }
      BlockTrimFree(b, size);
      UseData(mem, layout, b);
      UseKeeps(mem, layout, lists, b);
      KeptTwice(mem0, mem, MarkAsUsed(mem, b), Live(layout));
      mem := MarkAsUsed(mem, b);
      layout := Flagged(layout, b, false);
      p := b + 16;
    }

    /** Allocation: the result is zero and nothing has changed, or a new live block of at least the adjusted
        request that was not live before. */
    method Malloc(size: nat) returns (p: int)
      requires Valid() && size < SIZE_T
      modifies `mem, `flBitmap, `lists, `layout, slBitmap, blocks
      ensures Valid() && Pools(layout) == old(Pools(layout))
      ensures p == 0 <==> Unserved(old(layout), AdjustRequestSize(size, ALIGN_SIZE))
      ensures p == 0 ==> layout == old(layout) && mem == old(mem)
      ensures p != 0 ==> Allocated(old(layout), layout, p, AdjustRequestSize(size, ALIGN_SIZE))
      ensures p != 0 ==>
        && FirstFit(old(layout), old(lists), AdjustRequestSize(size, ALIGN_SIZE), p - 16)
        && CutFrom(old(layout), layout, p, p - 16, AdjustRequestSize(size, ALIGN_SIZE))
      ensures p != 0 && size + ALIGN_SIZE - 1 < SIZE_T ==> p - 16 in Live(layout) && Live(layout)[p - 16] >= size
      ensures DataKept(old(mem), mem, old(Live(layout)))
    {
      hide Indexes, Linked, Listed, Physical, Coalesced, Unserved, FirstFit, AdjustRequestSize;
      AdjustRequestSpec(size);
      var adjust := AdjustRequestSize(size, ALIGN_SIZE);
      var b := BlockLocateFree(adjust);
      p := 0;
      if b != 0 {
        p := BlockPrepareUsed(b, adjust);
      }
    }

    /** Release: exactly the given block stops being live. */
    method Free(p: int)
      requires Valid() && (p == 0 || p - 16 in Live(layout))
      modifies `mem, `flBitmap, `lists, `layout, slBitmap, blocks
      ensures Valid() && Pools(layout) == old(Pools(layout))
      ensures Live(layout) == old(Live(layout)) - {p - 16}
      ensures DataKept(old(mem), mem, old(Live(layout)) - {p - 16})
      ensures p != 0 ==> Returned(old(layout), layout, lists, p)
    {
      hide Indexes, Linked, Listed, HeaderOk, BlockOk, Apart, Coalesced, Returned, Inserted;
      if p != 0 {
        var b := p - 16;
        FreeData(mem, layout, b);
        FreeKeeps(mem, layout, lists, b);
        FlaggedView(layout, b, true);
        mem := MarkAsFree(mem, b);
        layout := Flagged(layout, b, true);
        ghost var before := layout;
        b := BlockMergePrev(b);
        if before[p - 16].prevFree { MergedView(before, b, p - 16); }
        ghost var middle := layout;
        BlockMergeNext(b);
        if layout != middle { MergedView(middle, b, Next(middle, b)); }
        SettledCoalesced(layout, b);
        ghost var lists0 := lists;
        BlockInsert(b, {b}, {});
        GivenBack(old(layout), layout, lists0, b, p);
      } else {
        NotBlock(layout, -16);
      }
    }

    /** Moves the off-list block b forward to an aligned client address, listing the part in front of it. */
    method AlignFront(b: int, align: nat) returns (b': int, ghost gap: nat)
      requires Inv({b}) && Isolated(layout, b) && PowerOfTwo(align)
      requires align <= ALIGN_SIZE || align == TOP_ALIGN || align + HEADER_SIZE + 24 <= layout[b].size
      modifies `mem, `flBitmap, `lists, `layout, slBitmap, blocks
      ensures Inv({b'}) && b' >= POOL_FLOOR
      ensures b <= b' && b' + layout[b'].size == b + old(layout[b].size)
      ensures align < TOP_ALIGN ==> FirstAligned(b + 16, align, b' + 16) && b' == b + gap && gap <= align + 24
      ensures align <= ALIGN_SIZE ==> gap == 0
      ensures align == TOP_ALIGN ==> b' == b || b' + 16 == TOP_ALIGN
      ensures Next(layout, b') in layout && !layout[Next(layout, b')].free
      ensures Live(layout) == old(Live(layout)) && Pools(layout) == old(Pools(layout))
      ensures DataKept(old(mem), mem, old(Live(layout)))
    {
      hide Indexes, Linked, Listed, HeaderOk, Live, Pools, BlockOk, Apart, Coalesced, MultipleOf, AlignmentGap;
      Placement(layout, b);
      AlignmentGapSpec(b + 16, align);
      var space := AlignmentGap(b + 16, align);
      gap := space;
      b' := b;
      if space != 0 {
        assert space - OVERHEAD >= BLOCK_SIZE_MIN && (space - OVERHEAD) % ALIGN_SIZE == 0;
        if layout[b].size >= space + HEADER_SIZE { SplitView(layout, b, space - OVERHEAD); }
        b' := BlockTrimFreeLeading(b, space);
      }
    }

    /** Aligned allocation. At the alignment 2^63 the padding wraps: the leading part is split off only when the
        block reaches up to that address, and the result may be unaligned and smaller than the request. */
    method Memalign(align: nat, size: nat) returns (p: int)
      requires Valid() && size < SIZE_T && PowerOfTwo(align) && align < SIZE_T
      modifies `mem, `flBitmap, `lists, `layout, slBitmap, blocks
      ensures Valid() && Pools(layout) == old(Pools(layout))
      ensures p == 0 ==> layout == old(layout) && mem == old(mem)
      ensures var adjust := AdjustRequestSize(size, ALIGN_SIZE);
        var padded := if adjust != 0 && align > ALIGN_SIZE then PaddedRequest(adjust, align) else adjust;
        p == 0 <==> Unserved(old(layout), padded)
      ensures p != 0 ==> Carved(old(layout), layout, p)
      ensures p != 0 && align < TOP_ALIGN ==>
        && Allocated(old(layout), layout, p, AdjustRequestSize(size, ALIGN_SIZE))
        && p > 0 && MultipleOf(p, align)
        && (exists c :: FirstAligned(c + 16, align, p) && ServedBy(old(layout), old(lists), layout, p, c, align, size))
        && (size + ALIGN_SIZE - 1 < SIZE_T ==> Live(layout)[p - 16] >= size)
      ensures p != 0 && align == TOP_ALIGN ==>
        exists c :: (p == TOP_ALIGN || p == c + 16) && ServedBy(old(layout), old(lists), layout, p, c, align, size)
      ensures DataKept(old(mem), mem, old(Live(layout)))
    {
      hide Indexes, Linked, Listed, Physical, Coalesced, PaddedRequest, Unserved, PowerOfTwo, FirstFit,
        AdjustRequestSize;
      AdjustRequestSpec(size);
      PowerPositive(align);
      TopPower(align);
      var adjust := AdjustRequestSize(size, ALIGN_SIZE);
      p := 0;
      var alignedSize := adjust;
      if adjust != 0 && align > ALIGN_SIZE {
        alignedSize := PadRequest(adjust, align);
      }
      var b := BlockLocateFree(alignedSize);
      if b != 0 {
        ghost var c := b;
        ghost var gap;
        b, gap := AlignFront(b, align);
        p := BlockPrepareUsed(b, adjust);
        assert ServedBy(old(layout), old(lists), layout, p, c, align, size);
      }
    }

    /** A client stores a word in a block it owns. */
    method ClientWrite(p: int, offset: nat, v: int)
      requires Valid() && p - 16 in Live(layout) && offset < Live(layout)[p - 16] && (p + offset) % ALIGN_SIZE == 0
      modifies `mem
      ensures Valid() && Read(mem, p + offset) == v
      ensures DataKept(old(mem), mem, Live(layout) - {p - 16})
    {
      ClientData(mem, layout, p - 16, p + offset, v);
      ClientWriteKeeps(mem, layout, lists, p - 16, p + offset, v);
      mem := mem[p + offset := v];
    }

    /** Hands a memory region to the allocator as one free block and a sentinel. */
    method AddPool(base: int, bytes: nat) returns (pool: int)
      requires Valid() && POOL_FLOOR + OVERHEAD <= base && base + bytes <= POOL_CEILING
      requires var usable := PoolBytes(bytes);
        usable != BLOCK_SIZE_MAX && RegionClear(layout, base - OVERHEAD, base + usable)
      modifies `mem, `flBitmap, `lists, `layout, slBitmap, blocks
      ensures Valid()
      ensures pool == if base % ALIGN_SIZE == 0 && BLOCK_SIZE_MIN <= PoolBytes(bytes) < BLOCK_SIZE_MAX then base else 0
      ensures pool == 0 ==> layout == old(layout) && mem == old(mem)
      ensures pool != 0 ==> layout == WithPool(old(layout), base - OVERHEAD, base + PoolBytes(bytes))
      ensures DataKept(old(mem), mem, old(Live(layout)))
    {
      var poolBytes := PoolBytes(bytes);
      if base % ALIGN_SIZE != 0 || poolBytes < BLOCK_SIZE_MIN || poolBytes > BLOCK_SIZE_MAX {
        return 0;
      }
      PoolBytesSpec(bytes);
      PlacePool(base - OVERHEAD, poolBytes);
      return base;
    }

    method PlacePool(b: int, poolBytes: nat)
      requires Valid() && PoolEnds(b, b + OVERHEAD + poolBytes) && RegionClear(layout, b, b + OVERHEAD + poolBytes)
      modifies `mem, `flBitmap, `lists, `layout, slBitmap, blocks
      ensures Valid() && layout == WithPool(old(layout), b, b + OVERHEAD + poolBytes)
      ensures DataKept(old(mem), mem, old(Live(layout)))
    {
      hide DataKept, Live;
      ghost var mem0, hi := mem, b + OVERHEAD + poolBytes;
      MappingInsertInTable(poolBytes);
      PoolData(mem, layout, lists, b, hi, Class(poolBytes), poolBytes + 1);
      PoolListSetup(mem, layout, lists, b, hi, poolBytes + 1);
      PlaceFirst(b, poolBytes);
      var at := MappingInsert(BlockSize(mem, b));
      InsertFreeBlock(b, at.fl, at.sl);
      PoolFinal(mem0, layout, old(lists), b, hi, mem);
      PlaceSentinel(b, hi, poolBytes);
      layout := WithPool(layout, b, hi);
    }

    method PlaceFirst(b: int, poolBytes: nat)
      requires poolBytes % ALIGN_SIZE == 0
      modifies `mem
      ensures mem == old(mem)[b + 8 := poolBytes + 1] && BlockSize(mem, b) == poolBytes
    {
      FreshHeader(mem, b, poolBytes);
      mem := SetSize(mem, b, poolBytes);
      mem := SetFree(mem, b);
      mem := SetPrevUsed(mem, b);
    }

    /** Ends the pool's only block with a zero-size used block. */
    method PlaceSentinel(b: int, ghost hi: int, ghost poolBytes: nat)
      requires Read(mem, b + 8) == poolBytes + 1 && poolBytes % ALIGN_SIZE == 0 && hi == b + OVERHEAD + poolBytes
               && poolBytes > 0
      modifies `mem
      ensures mem == old(mem)[hi := b][hi + 8 := 2]
    {
      SentinelHeader(mem, b, hi, poolBytes);
      var next := BlockNext(mem, b);
      mem := LinkNext(mem, b);
      mem := SetSize(mem, next, 0);
      mem := SetUsed(mem, next);
      mem := SetPrevFree(mem, next);
    }

    /** Releasing every live block, in whatever order, restores each pool to one free block. */
    method ReleaseAll(ps: seq<int>)
      requires Valid() && Enumerates(ps, Live(layout))
      modifies `mem, `flBitmap, `lists, `layout, slBitmap, blocks
      ensures Valid() && Pools(layout) == old(Pools(layout)) && Live(layout) == map[]
      ensures forall lo | lo in Pools(layout) :: OneFreeBlock(layout, lo)
    {
      for i := 0 to |ps|
        invariant Valid() && Pools(layout) == old(Pools(layout))
        invariant Enumerates(ps[i..], Live(layout))
      {
        EnumerateStep(ps[i..], Live(layout));
        assert ps[i..][1..] == ps[i + 1..];
        Free(ps[i]);
      }
      AllReleased(ps[|ps|..], layout);
    }

    /** What tlsf_check insists on, read from memory and bitmaps, holds of every list and every node. */
    lemma CheckPasses(fl: nat, sl: nat)
      requires Valid() && Index(fl, sl).InTable()
      ensures !flBitmap[fl] ==> !slBitmap[fl][sl]
      ensures !slBitmap[fl][sl] <==> blocks[fl * 32 + sl] == NULL
      ensures forall b | b in lists[fl * 32 + sl] ::
        && IsFree(mem, b) && !IsPrevFree(mem, b)
        && !IsFree(mem, BlockNext(mem, b)) && IsPrevFree(mem, BlockNext(mem, b))
        && BlockSize(mem, b) >= BLOCK_SIZE_MIN && MappingInsert(BlockSize(mem, b)) == Index(fl, sl)
    {
      ghost var k := fl * 32 + sl;
      ListedIsSpaced(layout, lists, {});
      assert slBitmap[..][fl][sl] == (lists[k] != []);
      assert lists[k] != [] ==> lists[k][0] in lists[k];
      forall b | b in lists[k]
        ensures IsFree(mem, b) && !IsPrevFree(mem, b)
        ensures !IsFree(mem, BlockNext(mem, b)) && IsPrevFree(mem, BlockNext(mem, b))
        ensures BlockSize(mem, b) >= BLOCK_SIZE_MIN && MappingInsert(BlockSize(mem, b)) == Index(fl, sl)
      {
        assert BlockOk(layout, b);
        IsolatedWhenCoalesced(mem, layout, b);
        HeaderReads(mem, layout, b);
        HeaderReads(mem, layout, Next(layout, b));
        MappingInsertInTable(layout[b].size);
      }
    }
  }

  /** A run in which an aligned allocation falls short: a pool of one block of 24 bytes serves 1000 bytes at the
      alignment 2^63, unaligned. */
  method ShortBlock() returns (c: Control, p: int)
    ensures fresh(c) && c.Valid() && p != 0 && p % TOP_ALIGN != 0
    ensures p - 16 in Live(c.layout) && Live(c.layout)[p - 16] <= 24
  {
    hide Indexes, Sound, PowerOfTwo, PaddedRequest, Unserved;
    c := new Control();
    var pool := c.AddPool(0x1_0000, 40);
    TopIsPower();
    SmallestServes(c.layout, 0x1_0000 - OVERHEAD);
    PaddedAtTop(1000);
    p := c.Memalign(TOP_ALIGN, 1000);
  }

  lemma SmallestServes(m: Layout, b: int)
    requires b in m && m[b].free && m[b].size == BLOCK_SIZE_MIN
    ensures !Unserved(m, BLOCK_SIZE_MIN)
  {
  }
}
