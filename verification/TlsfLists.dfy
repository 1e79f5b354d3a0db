/** Doubly linked free lists threaded through the free blocks, terminated by block_null at both ends. */
module TlsfLists {
  import opened Sequences
  import opened TlsfMapping
  import opened TlsfHeap

  ghost predicate Gap(x: int, y: int) {
    x + HEADER_SIZE <= y || y + HEADER_SIZE <= x
  }

  /** No node is on two lists or twice on one, and the link words of different nodes are different words. */
  ghost predicate Spaced(lists: Lists) {
    && (forall k, x | 0 <= k < |lists| && x in lists[k] :: x >= HEADER_SIZE)
    && (forall k | 0 <= k < |lists| :: Distinct(lists[k]))
    && (forall j, k, x, y | 0 <= j < |lists| && 0 <= k < |lists| && x in lists[j] && y in lists[k] ::
          if x == y then j == k else Gap(x, y))
  }

  lemma ListedIsSpaced(m: Layout, lists: Lists, S: set<int>)
    requires Tiled(m) && Listed(m, lists, S)
    ensures Spaced(lists)
  {
    forall k, x | 0 <= k < |lists| && x in lists[k]
      ensures x >= HEADER_SIZE
    {
      assert BlockOk(m, x);
    }
    forall j, k, x, y | 0 <= j < |lists| && 0 <= k < |lists| && x in lists[j] && y in lists[k]
      ensures if x == y then j == k else Gap(x, y)
    {
      assert BlockOk(m, x) && BlockOk(m, y) && Apart(m, x, y) && Apart(m, y, x);
    }
  }

  lemma SpacedPair(lists: Lists, j: nat, k: nat, x: int, y: int)
    requires Spaced(lists) && j < |lists| && k < |lists| && x in lists[j] && y in lists[k]
    ensures (if x == y then j == k else Gap(x, y)) && x >= HEADER_SIZE
  {
  }

  function Head(l: seq<int>): int {
    if l == [] then NULL else l[0]
  }

  // Insertion at the head -------------------------------------------------------------------------

  function InsertMemory(mem: Memory, b: int, current: int): Memory {
    mem[b + 16 := current][b + 24 := NULL][current + 24 := b]
  }

  function Inserted(lists: Lists, k: nat, b: int): Lists
    requires k < |lists|
  {
    lists[k := [b] + lists[k]]
  }

  /** Insertion changes no link of another node, except the prev_free of the old head. */
  lemma InsertKeeps(mem: Memory, b: int, current: int, x: int)
    requires b >= HEADER_SIZE && x >= HEADER_SIZE && Gap(x, b)
    requires current == NULL || x == current || Gap(x, current)
    ensures Read(InsertMemory(mem, b, current), x + 16) == Read(mem, x + 16)
    ensures x != current ==> Read(InsertMemory(mem, b, current), x + 24) == Read(mem, x + 24)
  {
  }

  lemma InsertLinks(mem: Memory, lists: Lists, k: nat, b: int)
    requires Spaced(lists) && Linked(mem, lists) && k < |lists| && b >= HEADER_SIZE
    requires forall j, x | 0 <= j < |lists| && x in lists[j] :: Gap(x, b)
    ensures Linked(InsertMemory(mem, b, Head(lists[k])), Inserted(lists, k, b))
  {
    var mem', lists' := InsertMemory(mem, b, Head(lists[k])), Inserted(lists, k, b);
    assert lists[k] != [] ==> lists[k][0] in lists[k];
    forall j | 0 <= j < |lists'|
      ensures Links(mem', lists'[j])
    {
      assert Links(mem, lists[j]);
      forall i {:trigger LinkAt(mem', lists'[j], i)} | 0 <= i < |lists'[j]|
        ensures LinkAt(mem', lists'[j], i)
      {
        if j != k {
          assert LinkAt(mem, lists[j], i) && lists[j][i] in lists[j];
          if lists[k] != [] { SpacedPair(lists, j, k, lists[j][i], lists[k][0]); }
          InsertKeeps(mem, b, Head(lists[k]), lists[j][i]);
        } else if i > 0 {
          assert LinkAt(mem, lists[k], i - 1) && lists[k][i - 1] in lists[k];
          assert i > 1 ==> lists[k][i - 1] != lists[k][0] by { assert Distinct(lists[k]); }
          InsertKeeps(mem, b, Head(lists[k]), lists[k][i - 1]);
          assert lists'[k][i] == lists[k][i - 1] && (i + 1 < |lists'[k]| ==> lists'[k][i + 1] == lists[k][i]);
          assert i > 1 ==> lists'[k][i - 1] == lists[k][i - 2];
        } else {
          assert lists[k] != [] ==> Gap(lists[k][0], b) && lists'[k][1] == lists[k][0];
        }
      }
    }
  }

  // Removal ---------------------------------------------------------------------------------------

  function RemoveMemory(mem: Memory, b: int): Memory {
    var prev, next := Read(mem, b + 24), Read(mem, b + 16);
    mem[next + 24 := prev][prev + 16 := next]
  }

  /** Removal changes only the two links that pointed at the removed node. */
  lemma RemoveKeeps(mem: Memory, b: int, x: int)
    requires x >= HEADER_SIZE
    requires var p := Read(mem, b + 24); p == NULL || x == p || Gap(x, p)
    requires var n := Read(mem, b + 16); n == NULL || x == n || Gap(x, n)
    ensures Read(RemoveMemory(mem, b), x + 16) ==
      if x == Read(mem, b + 24) then Read(mem, b + 16) else Read(mem, x + 16)
    ensures Read(RemoveMemory(mem, b), x + 24) ==
      if x == Read(mem, b + 16) then Read(mem, b + 24) else Read(mem, x + 24)
  {
  }

  lemma RemoveLinks(mem: Memory, lists: Lists, k: nat, i: nat)
    requires Spaced(lists) && Linked(mem, lists) && k < |lists| && i < |lists[k]|
    ensures Linked(RemoveMemory(mem, lists[k][i]), lists[k := Without(lists[k], i)])
  {
    hide Spaced, LinkAt, RemoveMemory, Without;
    var l := lists[k];
    var mem', lists' := RemoveMemory(mem, l[i]), lists[k := Without(l, i)];
    forall j | 0 <= j < |lists'|
      ensures Links(mem', lists'[j])
    {
      assert Links(mem, lists[j]) && Links(mem, l);
      forall n {:trigger LinkAt(mem', lists'[j], n)} | 0 <= n < |lists'[j]|
        ensures LinkAt(mem', lists'[j], n)
      {
        if j == k {
          RemoveLink(mem, lists, k, i, n);
        } else {
          KeptLink(mem, lists, k, i, j, n);
        }
      }
    }
  }

  /** A link of another list. */
  lemma KeptLink(mem: Memory, lists: Lists, k: nat, i: nat, j: nat, n: nat)
    requires Spaced(lists) && k < |lists| && i < |lists[k]| && j < |lists| && j != k && n < |lists[j]|
    requires LinkAt(mem, lists[k], i) && LinkAt(mem, lists[j], n)
    ensures LinkAt(RemoveMemory(mem, lists[k][i]), lists[j], n)
  {
    hide Spaced, RemoveMemory;
    var l := lists[k];
    if i > 0 { SpacedPair(lists, j, k, lists[j][n], l[i - 1]); }
    if i + 1 < |l| { SpacedPair(lists, j, k, lists[j][n], l[i + 1]); }
    SpacedPair(lists, j, j, lists[j][n], lists[j][n]);
    RemoveKeeps(mem, l[i], lists[j][n]);
  }

  /** A link of the list that the node is removed from. */
  lemma RemoveLink(mem: Memory, lists: Lists, k: nat, i: nat, n: nat)
    requires k < |lists| && i < |lists[k]| && Spaced(lists) && Links(mem, lists[k]) && n < |Without(lists[k], i)|
    ensures LinkAt(RemoveMemory(mem, lists[k][i]), Without(lists[k], i), n)
  {
    hide Spaced, RemoveMemory;
    var l, l' := lists[k], Without(lists[k], i);
    var o := if n < i then n else n + 1;
    assert LinkAt(mem, l, i) && LinkAt(mem, l, o) && l'[n] == l[o];
    assert n + 1 < |l'| ==> l'[n + 1] == l[if n + 1 < i then n + 1 else n + 2];
    assert n > 0 ==> l'[n - 1] == l[if n - 1 < i then n - 1 else n];
    if i > 0 { SpacedNodes(lists, k, o, i - 1); }
    if i + 1 < |l| { SpacedNodes(lists, k, o, i + 1); }
    SpacedPair(lists, k, k, l[o], l[o]);
    RemoveKeeps(mem, l[i], l[o]);
  }

  lemma SpacedNodes(lists: Lists, k: nat, i: nat, j: nat)
    requires Spaced(lists) && k < |lists| && i < |lists[k]| && j < |lists[k]|
    ensures if i == j then lists[k][i] == lists[k][j] else lists[k][i] != lists[k][j] && Gap(lists[k][i], lists[k][j])
  {
    assert Distinct(lists[k]) && lists[k][i] in lists[k] && lists[k][j] in lists[k];
  }

  // What insertion and removal do to the listing -----------------------------------------------------

  lemma InsertListed(m: Layout, lists: Lists, S: set<int>, b: int)
    requires Listed(m, lists, S) && b in S && 0 <= Class(m[b].size) < |lists|
    ensures Listed(m, Inserted(lists, Class(m[b].size), b), S - {b})
  {
    var k := Class(m[b].size);
    var lists' := Inserted(lists, k, b);
    assert forall j, x | 0 <= j < |lists'| && x in lists'[j] :: x in lists[j] || (j == k && x == b);
    assert Distinct(lists[k]) && b !in lists[k];
    assert Distinct(lists'[k]) by {
      assert forall i | 0 < i < |lists'[k]| :: lists'[k][i] == lists[k][i - 1] && lists[k][i - 1] in lists[k];
    }
    forall x {:trigger InItsList(m, lists', x)} | x in m && m[x].free && x !in S - {b}
      ensures InItsList(m, lists', x)
    {
      if x != b {
        assert InItsList(m, lists, x);
      } else {
        assert lists'[k][0] == b;
      }
    }
  }

  lemma RemoveListed(m: Layout, lists: Lists, S: set<int>, k: nat, i: nat)
    requires Listed(m, lists, S) && k < |lists| && i < |lists[k]|
    ensures Listed(m, lists[k := Without(lists[k], i)], S + {lists[k][i]})
  {
    var b := lists[k][i];
    var l, l' := lists[k], Without(lists[k], i);
    var lists' := lists[k := l'];
    assert b in lists[k] && Distinct(l);
    assert forall n | 0 <= n < |l'| :: l'[n] == l[if n < i then n else n + 1];
    assert b !in l' && Distinct(l');
    assert forall j, x | 0 <= j < |lists'| && x in lists'[j] :: x in lists[j];
    forall x {:trigger InItsList(m, lists', x)} | x in m && m[x].free && x !in S + {b}
      ensures InItsList(m, lists', x)
    {
      assert InItsList(m, lists, x);
      WithoutKeeps(l, i, x);
    }
  }

  lemma WithoutKeeps(l: seq<int>, i: nat, x: int)
    requires i < |l|
    ensures x in l && x != l[i] ==> x in Without(l, i)
  {
    if x in l && x != l[i] {
      var n :| 0 <= n < |l| && l[n] == x;
      assert Without(l, i)[if n < i then n else n - 1] == x;
    }
  }

  // Framing of the lists under changes of the picture -------------------------------------------------

  /** Lists survive any change that keeps the links and the sizes of the listed blocks. */
  lemma LinkedFrame(mem: Memory, mem': Memory, m: Layout, lists: Lists, S: set<int>)
    requires Linked(mem, lists) && Listed(m, lists, S) && KeepsLinks(mem, mem', m - S)
    ensures Linked(mem', lists)
  {
    forall k | 0 <= k < |lists|
      ensures Links(mem', lists[k])
    {
      assert Links(mem, lists[k]);
      forall i {:trigger LinkAt(mem', lists[k], i)} | 0 <= i < |lists[k]|
        ensures LinkAt(mem', lists[k], i)
      {
        assert LinkAt(mem, lists[k], i) && lists[k][i] in lists[k];
        assert lists[k][i] in m - S && (m - S)[lists[k][i]].free;
      }
    }
  }

  lemma ListedFrame(m: Layout, m': Layout, lists: Lists, S: set<int>, S': set<int>)
    requires Listed(m, lists, S)
    requires forall x | x in m && m[x].free && x !in S :: x in m' && m'[x].free && m'[x].size == m[x].size && x !in S'
    requires forall x | x in m' && m'[x].free && x !in S' :: x in m && m[x].free && m'[x].size == m[x].size && x !in S
    requires forall x | x in S' :: x in m' && m'[x].free
    ensures Listed(m', lists, S')
  {
    forall x {:trigger InItsList(m', lists, x)} | x in m' && m'[x].free && x !in S'
      ensures InItsList(m', lists, x)
    {
      assert InItsList(m, lists, x);
    }
  }

  /** The link words written by insertion and removal are no header words. */
  lemma RemovePhysical(mem: Memory, m: Layout, lists: Lists, S: set<int>, k: nat, i: nat)
    requires Physical(mem, m) && Listed(m, lists, S) && Linked(mem, lists)
    requires k < |lists| && i < |lists[k]|
    ensures Physical(RemoveMemory(mem, lists[k][i]), m)
  {
    var l := lists[k];
    assert Links(mem, l) && LinkAt(mem, l, i);
    var prev, next := Read(mem, l[i] + 24), Read(mem, l[i] + 16);
    assert prev == NULL || prev in l;
    assert next == NULL || next in l;
    WriteLink(mem, m, next, next + 24, prev);
    WriteLink(mem[next + 24 := prev], m, prev, prev + 16, next);
  }

  lemma InsertPhysical(mem: Memory, m: Layout, lists: Lists, S: set<int>, k: nat, b: int)
    requires Physical(mem, m) && Listed(m, lists, S) && k < |lists| && b in S
    ensures Physical(InsertMemory(mem, b, Head(lists[k])), m)
  {
    var current := Head(lists[k]);
    assert current == NULL || current in lists[k];
    WriteLink(mem, m, b, b + 16, current);
    WriteLink(mem[b + 16 := current], m, b, b + 24, NULL);
    WriteLink(mem[b + 16 := current][b + 24 := NULL], m, current, current + 24, b);
  }

  // The invariant across one change -----------------------------------------------------------------

  /** Memory, picture and lists agree, with the free blocks of S off their lists. */
  ghost predicate Sound(mem: Memory, m: Layout, lists: Lists, S: set<int>) {
    && Physical(mem, m)
    && Linked(mem, lists)
    && Listed(m, lists, S)
    && Coalesced(m, S)
  }

  /** After an absorb the merged block takes the place of both. */
  lemma MergeKeeps(mem: Memory, m: Layout, lists: Lists, p: int, b: int)
    requires Sound(mem, m, lists, {p, b}) && Neighbours(m, p, b)
    ensures Sound(Absorb(mem, p, b), Merged(m, p, b), lists, {p})
  {
    var mem', m' := Absorb(mem, p, b), Merged(m, p, b);
    assert BlockOk(m, p) && BlockOk(m, b);
    AbsorbOk(mem, m, p, b);
    LinkedFrame(mem, mem', m, lists, {p, b});
    ListedFrame(m, m', lists, {p, b}, {p});
    forall x {:trigger Next(m', x)} | x in m' && m'[x].free && x != p && Next(m', x) in m' && m'[Next(m', x)].free
      ensures Next(m', x) == p
    {
      assert Next(m, x) == Next(m', x);
    }
  }

  /** The two halves of the off-list block b: only they can be adjacent and free. */
  lemma SplitCoalesced(m: Layout, b: int, size: nat)
    requires Tiled(m) && Splittable(m, b, size) && Coalesced(m, {b}) && Next(m, b) in m && !m[Next(m, b)].free
    ensures Coalesced(SplitAt(m, b, size), {b})
    ensures !m[b].prevFree ==> Coalesced(SplitAt(m, b, size), {b + OVERHEAD + size})
  {
    var r, m' := b + OVERHEAD + size, SplitAt(m, b, size);
    SplitFresh(m, b, size);
    forall x {:trigger Next(m', x)} | x in m' && m'[x].free && Next(m', x) in m' && m'[Next(m', x)].free
      ensures x == b || Next(m', x) == b
      ensures !m[b].prevFree ==> x == b
    {
      if x != b && x != r {
        assert BlockOk(m, x) && Next(m, x) == Next(m', x);
      }
    }
  }

  lemma SplitKeeps(mem: Memory, m: Layout, lists: Lists, b: int, size: nat)
    requires Sound(mem, m, lists, {b})
    requires Splittable(m, b, size) && Next(m, b) in m && !m[Next(m, b)].free
    ensures var r, m', mem1 := b + OVERHEAD + size, SplitAt(m, b, size), Split(mem, b, size);
      var mem' := SetPrevFree(LinkNext(mem1, b), r);
      && mem' == LinkNext(SetPrevFree(mem1, r), b)
      && Sound(mem', m', lists, {b, r})
      && Coalesced(m', {b})
      && (!m[b].prevFree ==> Coalesced(m', {r}))
  {
    var r, m' := b + OVERHEAD + size, SplitAt(m, b, size);
    var mem' := SetPrevFree(LinkNext(Split(mem, b, size), b), r);
    hide Split, SetPrevFree, LinkNext, SplitWords, HeaderOk, BlockOk, Apart;
    SplitFinish(mem, m, b, size);
    SplitFresh(m, b, size);
    SplitOk(mem, mem', m, b, size);
    SplitCoalesced(m, b, size);
    LinkedFrame(mem, mem', m, lists, {b});
    ListedFrame(m, m', lists, {b}, {b, r});
  }

  /** Block b, off the lists, is handed out. */
  lemma UseKeeps(mem: Memory, m: Layout, lists: Lists, b: int)
    requires Sound(mem, m, lists, {b})
    ensures b in m && Next(m, b) in m
    ensures Sound(MarkAsUsed(mem, b), Flagged(m, b, false), lists, {})
  {
    assert BlockOk(m, b);
    Successor(m, b);
    var mem', m' := MarkAsUsed(mem, b), Flagged(m, b, false);
    MarkAsUsedOk(mem, m, b);
    LinkedFrame(mem, mem', m, lists, {b});
    ListedFrame(m, m', lists, {b}, {});
    assert forall x {:trigger Next(m', x)} | x in m' && m'[x].free && Next(m', x) in m' ::
             Next(m, x) == Next(m', x) && x != b;
  }

  /** Block b is given back and not yet listed. */
  lemma FreeKeeps(mem: Memory, m: Layout, lists: Lists, b: int)
    requires Sound(mem, m, lists, {}) && b in m && !m[b].free && m[b].size > 0
    ensures Next(m, b) in m
    ensures Sound(MarkAsFree(mem, b), Flagged(m, b, true), lists, {b})
  {
    assert BlockOk(m, b);
    Successor(m, b);
    var mem', m' := MarkAsFree(mem, b), Flagged(m, b, true);
    MarkAsFreeOk(mem, m, b);
    LinkedFrame(mem, mem', m, lists, {});
    ListedFrame(m, m', lists, {}, {b});
    forall x {:trigger Next(m', x)} | x in m' && m'[x].free && x != b && Next(m', x) in m' && m'[Next(m', x)].free
      ensures Next(m', x) == b
    {
      assert Next(m, x) == Next(m', x);
    }
  }

  // Client writes ---------------------------------------------------------------------------------------

  /** A word inside the client area of a used block is no live header or link word: the owner may write it. */
  lemma ClientWriteKeeps(mem: Memory, m: Layout, lists: Lists, b: int, a: int, v: int)
    requires Sound(mem, m, lists, {}) && b in m && !m[b].free && m[b].size > 0
    requires b + 16 <= a < b + 16 + m[b].size && a % ALIGN_SIZE == 0
    ensures Sound(mem[a := v], m, lists, {})
  {
    var mem' := mem[a := v];
    assert BlockOk(m, b);
    Successor(m, b);
    WordInside(b, m[b].size, a);
    forall c {:trigger HeaderOk(mem', m, c)} | c in m
      ensures HeaderOk(mem', m, c)
    {
      assert HeaderOk(mem, m, c) && BlockOk(m, c) && Apart(m, b, c) && Apart(m, c, b);
    }
    forall x | x in m && m[x].free
      ensures Read(mem', x + 16) == Read(mem, x + 16) && Read(mem', x + 24) == Read(mem, x + 24)
    {
      assert BlockOk(m, x) && Apart(m, b, x) && Apart(m, x, b);
    }
    assert m - {} == m;
    LinkedFrame(mem, mem', m, lists, {});
  }

  lemma WordInside(b: int, size: int, a: int)
    requires b % ALIGN_SIZE == 0 && size % ALIGN_SIZE == 0 && a % ALIGN_SIZE == 0 && a < b + 16 + size
    ensures a <= b + 8 + size
  {
  }

  // A new pool -------------------------------------------------------------------------------------------

  /** The memory of a pool with these ends is outside every existing pool. */
  ghost predicate RegionClear(m: Layout, lo: int, hi: int) {
    forall b | b in m :: m[b].hi + OVERHEAD <= lo || hi + OVERHEAD <= m[b].lo
  }

  function WithPool(m: Layout, lo: int, hi: int): Layout
    requires lo + OVERHEAD <= hi
  {
    m[lo := Block(hi - lo - OVERHEAD, true, false, lo, hi)][hi := Block(0, false, true, lo, hi)]
  }

  ghost predicate PoolEnds(lo: int, hi: int) {
    && lo % ALIGN_SIZE == 0 && (hi - lo) % ALIGN_SIZE == 0 && POOL_FLOOR <= lo
    && BLOCK_SIZE_MIN <= hi - lo - OVERHEAD < BLOCK_SIZE_MAX && hi + 16 <= POOL_CEILING
  }

  lemma PoolTiled(m: Layout, lo: int, hi: int)
    requires Tiled(m) && PoolEnds(lo, hi) && RegionClear(m, lo, hi)
    ensures lo !in m && hi !in m && Tiled(WithPool(m, lo, hi))
  {
    var m' := WithPool(m, lo, hi);
    assert lo in m ==> BlockOk(m, lo);
    assert hi in m ==> BlockOk(m, hi);
    forall c {:trigger BlockOk(m', c)} | c in m'
      ensures BlockOk(m', c)
    {
      if c != lo && c != hi {
        assert BlockOk(m, c);
      }
    }
    forall c, d {:trigger Apart(m', c, d)} | c in m' && d in m'
      ensures Apart(m', c, d)
    {
      if c in m {
        assert BlockOk(m, c);
        if c != m[c].hi { Successor(m, c); }
      }
      if d in m { assert BlockOk(m, d); }
      if c in m && d in m { assert Apart(m, c, d); }
    }
  }

  /** The header words of the new pool are written outside the old pools. */
  lemma PoolKeeps(mem: Memory, mem': Memory, m: Layout, lo: int, hi: int, link: int)
    requires Physical(mem, m) && PoolEnds(lo, hi) && RegionClear(m, lo, hi)
    requires link == NULL + 24 || exists x :: x in m && m[x].free && link == x + 24
    requires forall a | a < lo + 8 || a > hi + 8 :: a == link || Read(mem', a) == Read(mem, a)
    requires Read(mem', lo + 8) == hi - lo - OVERHEAD + 1 && Read(mem', hi + 8) == 2 && Read(mem', hi) == lo
    ensures Physical(mem', WithPool(m, lo, hi))
  {
    var m' := WithPool(m, lo, hi);
    PoolTiled(m, lo, hi);
    forall c {:trigger HeaderOk(mem', m', c)} | c in m'
      ensures HeaderOk(mem', m', c)
    {
      if c in m {
        assert BlockOk(m, c) && HeaderOk(mem, m, c);
        if link == NULL + 24 {
          LinkWordsApart(m, NULL, c);
        } else {
          var x :| x in m && m[x].free && link == x + 24;
          LinkWordsApart(m, x, c);
        }
        if m[c].prevFree {
          assert BlockOk(m, Read(mem, c));
          Successor(m, Read(mem, c));
        }
      }
    }
  }

  /** The first block's header can be written and listed before the sentinel exists. */
  lemma PoolListSetup(mem: Memory, m: Layout, lists: Lists, lo: int, hi: int, v: int)
    requires Sound(mem, m, lists, {}) && PoolEnds(lo, hi) && RegionClear(m, lo, hi)
    ensures Spaced(lists) && Linked(mem[lo + 8 := v], lists)
    ensures forall j, x | 0 <= j < |lists| && x in lists[j] :: Gap(x, lo)
  {
    ListedIsSpaced(m, lists, {});
    forall x | x in m && m[x].free
      ensures Gap(x, lo) && x + 16 != lo + 8 && x + 24 != lo + 8
    {
      assert BlockOk(m, x);
      Successor(m, x);
    }
    assert m - {} == m;
    LinkedFrame(mem, mem[lo + 8 := v], m, lists, {});
  }

  lemma CurrentOutside(m: Layout, lo: int, hi: int, current: int)
    requires Tiled(m) && PoolEnds(lo, hi) && RegionClear(m, lo, hi)
    requires current == NULL || (current in m && m[current].free)
    ensures current + 24 < lo + 8 || current + 24 > hi + 8
  {
    if current != NULL {
      assert BlockOk(m, current);
      Successor(m, current);
    }
  }

  lemma PoolCoalesced(m: Layout, lo: int, hi: int)
    requires Tiled(m) && PoolEnds(lo, hi) && RegionClear(m, lo, hi) && Coalesced(m, {})
    ensures Coalesced(WithPool(m, lo, hi), {})
  {
    var m' := WithPool(m, lo, hi);
    PoolTiled(m, lo, hi);
    forall x {:trigger Next(m', x)} | x in m' && m'[x].free && Next(m', x) in m'
      ensures m'[Next(m', x)].free ==> x in m && m[x].free && Next(m, x) in m && m[Next(m, x)].free
    {
      if x in m {
        assert BlockOk(m, x);
        Successor(m, x);
      }
    }
  }

  /** Writing the sentinel disturbs no link. */
  lemma SentinelKeepsLinks(mem: Memory, m: Layout, lo: int, hi: int)
    requires Tiled(m) && PoolEnds(lo, hi) && RegionClear(m, lo, hi)
    ensures KeepsLinks(mem, mem[hi := lo][hi + 8 := 2], WithPool(m, lo, hi))
  {
    forall x | x in m && m[x].free
      ensures x + 16 < lo || x + 16 > hi + 8
      ensures x + 24 < lo || x + 24 > hi + 8
    {
      assert BlockOk(m, x);
      Successor(m, x);
    }
  }

  lemma PoolListed(m: Layout, lists: Lists, lo: int, hi: int)
    requires Tiled(m) && PoolEnds(lo, hi) && RegionClear(m, lo, hi) && Listed(m, lists, {})
    requires 0 <= Class(hi - lo - OVERHEAD) < |lists|
    ensures Listed(WithPool(m, lo, hi), Inserted(lists, Class(hi - lo - OVERHEAD), lo), {})
  {
    PoolTiled(m, lo, hi);
    ListedFrame(m, WithPool(m, lo, hi), lists, {}, {lo});
    InsertListed(WithPool(m, lo, hi), lists, {lo}, lo);
    assert {lo} - {lo} == {};
  }

  lemma PoolFinal(mem: Memory, m: Layout, lists: Lists, lo: int, hi: int, mem2: Memory)
    requires Sound(mem, m, lists, {}) && PoolEnds(lo, hi) && RegionClear(m, lo, hi)
    requires 0 <= Class(hi - lo - OVERHEAD) < |lists|
    requires mem2 == InsertMemory(mem[lo + 8 := hi - lo - OVERHEAD + 1], lo, Head(lists[Class(hi - lo - OVERHEAD)]))
    requires Linked(mem2, Inserted(lists, Class(hi - lo - OVERHEAD), lo))
    ensures Read(mem2, lo + 8) == hi - lo - OVERHEAD + 1
    ensures Sound(mem2[hi := lo][hi + 8 := 2], WithPool(m, lo, hi), Inserted(lists, Class(hi - lo - OVERHEAD), lo), {})
  {
    var k := Class(hi - lo - OVERHEAD);
    var current := Head(lists[k]);
    var m', mem' := WithPool(m, lo, hi), mem2[hi := lo][hi + 8 := 2];
    assert current != NULL ==> current in lists[k];
    CurrentOutside(m, lo, hi, current);
    PoolKeeps(mem, mem', m, lo, hi, current + 24);
    PoolListed(m, lists, lo, hi);
    PoolCoalesced(m, lo, hi);
    SentinelKeepsLinks(mem2, m, lo, hi);
    assert m' - {} == m';
    LinkedFrame(mem2, mem', m', Inserted(lists, k, lo), {});
  }
}
