/** What clients keep in their blocks: no operation of the allocator writes into the area of a block that is live. */
module TlsfData {
  import opened TlsfMapping
  import opened TlsfHeap
  import opened TlsfLists
  import opened TlsfPools

  /** Every word of every area is as it was. */
  ghost predicate DataKept(mem: Memory, mem': Memory, live: map<int, nat>) {
    forall b, a | b in live && b + 16 <= a < b + 16 + live[b] :: Read(mem', a) == Read(mem, a)
  }

  lemma KeptTwice(mem: Memory, mem1: Memory, mem2: Memory, live: map<int, nat>)
    requires DataKept(mem, mem1, live) && DataKept(mem1, mem2, live)
    ensures DataKept(mem, mem2, live)
  {
  }

  /** A word the allocator may use: block_null's links, a header word, or the area of a free block. */
  ghost predicate Own(m: Layout, x: int, a: int) {
    || (x == NULL && a < POOL_FLOOR)
    || (x in m && a == x + 8)
    || (x in m && m[x].free && x + 8 <= a < x + 16 + m[x].size)
  }

  lemma OwnIsNotData(m: Layout, x: int, a: int)
    requires Tiled(m) && Own(m, x, a)
    ensures forall b | b in Live(m) :: a < b + 16 || b + 16 + Live(m)[b] <= a
  {
    forall b | b in Live(m)
      ensures a < b + 16 || b + 16 + Live(m)[b] <= a
    {
      assert BlockOk(m, b);
      if x in m && x != b {
        LiveAreasDisjoint(m, b, x);
      }
    }
  }

  lemma RemoveData(mem: Memory, m: Layout, lists: Lists, S: set<int>, k: nat, i: nat)
    requires Tiled(m) && Listed(m, lists, S) && Linked(mem, lists) && k < |lists| && i < |lists[k]|
    ensures DataKept(mem, RemoveMemory(mem, lists[k][i]), Live(m))
  {
    var l := lists[k];
    assert Links(mem, l) && LinkAt(mem, l, i);
    var prev, next := Read(mem, l[i] + 24), Read(mem, l[i] + 16);
    assert (prev == NULL || prev in l) && (next == NULL || next in l);
    LinksAreOwn(m, prev);
    LinksAreOwn(m, next);
  }

  lemma LinksAreOwn(m: Layout, x: int)
    requires Tiled(m) && (x == NULL || (x in m && m[x].free))
    ensures forall b | b in Live(m) :: x + 16 < b + 16 || b + 16 + Live(m)[b] <= x + 16
    ensures forall b | b in Live(m) :: x + 24 < b + 16 || b + 16 + Live(m)[b] <= x + 24
  {
    assert x in m ==> BlockOk(m, x);
    OwnIsNotData(m, x, x + 16);
    OwnIsNotData(m, x, x + 24);
  }

  lemma InsertData(mem: Memory, m: Layout, lists: Lists, S: set<int>, k: nat, b: int)
    requires Tiled(m) && Listed(m, lists, S) && k < |lists| && b in S
    ensures DataKept(mem, InsertMemory(mem, b, Head(lists[k])), Live(m))
  {
    assert Head(lists[k]) != NULL ==> Head(lists[k]) in lists[k];
    LinksAreOwn(m, b);
    LinksAreOwn(m, Head(lists[k]));
  }

  lemma MergeData(mem: Memory, m: Layout, p: int, b: int)
    requires Physical(mem, m) && Neighbours(m, p, b)
    ensures DataKept(mem, Absorb(mem, p, b), Live(m))
  {
    hide Absorb, Tiled, Live;
    HeaderReads(mem, m, b);
    AbsorbedEnd(mem, m, p, b);
    AbsorbWords(mem, p, b, Next(m, b));
    OwnIsNotData(m, p, p + 8);
    OwnIsNotData(m, b, Next(m, b));
  }

  lemma AbsorbedEnd(mem: Memory, m: Layout, p: int, b: int)
    requires Physical(mem, m) && Neighbours(m, p, b)
    ensures Next(m, b) >= b + 8
    ensures var sum := Read(mem, p + 8) + m[b].size + OVERHEAD; Next(m, b) == p + OVERHEAD + sum - sum % 4
  {
    assert BlockOk(m, b) && BlockOk(m, p);
    HeaderFlags(mem, m, p);
    assert HeaderOk(mem, m, p);
    GarbageFlags(m[p].size + OVERHEAD + m[b].size, Read(mem, p + 8) % 4);
  }

  lemma AbsorbWords(mem: Memory, p: int, b: int, n: int)
    requires var sum := Read(mem, p + 8) + BlockSize(mem, b) + OVERHEAD; n == p + OVERHEAD + sum - sum % 4
    ensures forall a | a != p + 8 && a != n :: Read(Absorb(mem, p, b), a) == Read(mem, a)
  {
  }

  lemma SplitData(mem: Memory, m: Layout, b: int, size: nat)
    requires Physical(mem, m) && Splittable(m, b, size)
    ensures var r := b + OVERHEAD + size; DataKept(mem, SetPrevFree(LinkNext(Split(mem, b, size), b), r), Live(m))
  {
    hide Split, SetPrevFree, LinkNext, SplitWords, DataKept, Tiled;
    SplitFinish(mem, m, b, size);
    SplitWordsData(mem, SetPrevFree(LinkNext(Split(mem, b, size), b), b + OVERHEAD + size), m, b, size);
  }

  lemma SplitWordsData(mem: Memory, mem': Memory, m: Layout, b: int, size: nat)
    requires Tiled(m) && Splittable(m, b, size) && SplitWords(mem, mem', m, b, size)
    ensures DataKept(mem, mem', Live(m))
  {
    var r, n := b + OVERHEAD + size, Next(m, b);
    assert BlockOk(m, b);
    OwnIsNotData(m, b, b + 8);
    OwnIsNotData(m, b, r);
    OwnIsNotData(m, b, r + 8);
    OwnIsNotData(m, b, n);
    OwnIsNotData(m, n, n + 8);
  }

  lemma UseData(mem: Memory, m: Layout, b: int)
    requires Physical(mem, m) && b in m && m[b].free
    ensures DataKept(mem, MarkAsUsed(mem, b), Live(m))
  {
    assert BlockOk(m, b);
    HeaderReads(mem, m, b);
    OwnIsNotData(m, b, b + 8);
    OwnIsNotData(m, Next(m, b), Next(m, b) + 8);
  }

  /** A released block's own area is given up; every other one is kept. */
  lemma FreeData(mem: Memory, m: Layout, b: int)
    requires Physical(mem, m) && b in Live(m)
    ensures DataKept(mem, MarkAsFree(mem, b), Live(m) - {b})
  {
    assert BlockOk(m, b);
    var n := Next(m, b);
    HeaderReads(mem, m, b);
    OwnIsNotData(m, b, b + 8);
    OwnIsNotData(m, n, n + 8);
    forall c | c in Live(m) && c != b
      ensures n < c + 16 || c + 16 + Live(m)[c] <= n
    {
      LiveAreasDisjoint(m, b, c);
      LiveAreasDisjoint(m, c, b);
    }
  }

  /** The words of a new pool, and the back link of the old list head, are nobody's data. */
  lemma PoolData(mem: Memory, m: Layout, lists: Lists, lo: int, hi: int, k: nat, v: int)
    requires Physical(mem, m) && Listed(m, lists, {}) && PoolEnds(lo, hi) && RegionClear(m, lo, hi) && k < |lists|
    ensures DataKept(mem, InsertMemory(mem[lo + 8 := v], lo, Head(lists[k]))[hi := lo][hi + 8 := 2], Live(m))
  {
    assert Head(lists[k]) != NULL ==> Head(lists[k]) in lists[k];
    LinksAreOwn(m, Head(lists[k]));
    forall b | b in Live(m)
      ensures b + 16 + Live(m)[b] <= lo + 8 || hi + 16 <= b + 16
    {
      assert BlockOk(m, b);
      Successor(m, b);
    }
  }

  /** One block's words may be written without disturbing another's. */
  lemma ClientData(mem: Memory, m: Layout, b: int, a: int, v: int)
    requires Tiled(m) && b in Live(m) && b + 16 <= a < b + 16 + Live(m)[b]
    ensures DataKept(mem, mem[a := v], Live(m) - {b})
  {
    forall c | c in Live(m) && c != b
      ensures a < c + 16 || c + 16 + Live(m)[c] <= a
    {
      LiveAreasDisjoint(m, b, c);
      LiveAreasDisjoint(m, c, b);
    }
  }
}
