/** The segmented array: segments of doubling size, so that elements never move. */
module ArrayOf {
  import opened Bits

  const FIRST_BIT := 6    // TOMMY_ARRAYOF_BIT
  const SIZE_BIT := 64    // TOMMY_SIZE_BIT

  /** A block of memory. */
  datatype Segment = Segment(base: int, size: nat)

  predicate Apart(a: Segment, b: Segment) {
    a.base + a.size <= b.base || b.base + b.size <= a.base
  }

  /** The segment with the elements whose highest bit is `bit`: those with lower bits share the first one. */
  function SegmentOf(bit: nat): nat {
    if bit < FIRST_BIT then 0 else bit - FIRST_BIT + 1
  }

  /** The first position in segment k, and the number of positions in it. */
  function FirstOf(k: nat): nat {
    if k == 0 then 0 else Pow2(k + FIRST_BIT - 1)
  }

  function SizeOf(k: nat): nat {
    if k == 0 then Pow2(FIRST_BIT) else Pow2(k + FIRST_BIT - 1)
  }

  /** The highest set bit, 0 for 0: `ilog2(pos | 1)`. */
  function HighBit(pos: nat): nat {
    Log2(if pos == 0 then 1 else pos)
  }

  lemma HighBitBounds(pos: nat)
    ensures pos < 2 * Pow2(HighBit(pos)) && (pos > 0 ==> Pow2(HighBit(pos)) <= pos)
  {
    Log2Bounds(if pos == 0 then 1 else pos);
  }

  /** Each position is in the segment of its highest bit. */
  lemma InItsSegment(pos: nat)
    ensures var k := SegmentOf(HighBit(pos)); FirstOf(k) <= pos < FirstOf(k) + SizeOf(k)
  {
    HighBitBounds(pos);
    var b := HighBit(pos);
    if b < FIRST_BIT { Pow2Monotone(b, FIRST_BIT); } else { Pow2Monotone(FIRST_BIT, b); }
  }

  class ArrayOf {
    const elementSize: nat
    var bucket: seq<int>
    var bucketBit: nat
    var bucketMax: nat
    var count: nat
    ghost var segments: seq<Segment>

    /** tommy_arrayof_init; base is the address of the first block. */
    constructor (elementSize: nat, base: nat)
      requires elementSize > 0
      ensures Valid() && count == 0 && segments == [Segment(base, Pow2(FIRST_BIT) * elementSize)]
    {
      this.elementSize := elementSize;
      bucketBit := FIRST_BIT;
      bucketMax := Pow2(FIRST_BIT);
      bucket := seq(SIZE_BIT, _ => base);
      count := 0;
      segments := [Segment(base, Pow2(FIRST_BIT) * elementSize)];
    }

    /** Bucket entries lead to their segments, less the offset of the segment's first position. */
    ghost predicate EntryOk(b: nat)
      requires b < |bucket| && SegmentOf(b) < |segments|
      reads this
    {
      bucket[b] == segments[SegmentOf(b)].base - FirstOf(SegmentOf(b)) * elementSize
    }

    ghost predicate Valid()
      reads this
    {
      Shape() && count <= bucketMax
    }

    ghost predicate Shape()
      reads this
    {
      && elementSize > 0 && FIRST_BIT <= bucketBit < SIZE_BIT && |bucket| == SIZE_BIT
      && bucketMax == Pow2(bucketBit)
      && |segments| == bucketBit - FIRST_BIT + 1
      && (forall k: nat | k < |segments| :: segments[k].size == SizeOf(k) * elementSize)
      && (forall j, k | 0 <= j < k < |segments| :: Apart(segments[j], segments[k]))
      && (forall b: nat {:trigger EntryOk(b)} | b < bucketBit :: EntryOk(b))
    }

    /** tommy_arrayof_ref: the address of a position. */
    function Ref(pos: nat): int
      requires HighBit(pos) < |bucket|
      reads this
    {
      bucket[HighBit(pos)] + pos * elementSize
    }

    lemma HighBitInRange(pos: nat)
      requires Valid() && pos < bucketMax
      ensures HighBit(pos) < bucketBit && SegmentOf(HighBit(pos)) < |segments|
    {
      HighBitBounds(pos);
      if HighBit(pos) >= bucketBit { Pow2Monotone(bucketBit, HighBit(pos)); }
    }

    /** The cell of a position lies in its segment. */
    lemma RefInSegment(pos: nat)
      requires Valid() && pos < bucketMax
      ensures HighBit(pos) < |bucket| && SegmentOf(HighBit(pos)) < |segments|
      ensures var s := segments[SegmentOf(HighBit(pos))];
              s.base <= Ref(pos) && Ref(pos) + elementSize <= s.base + s.size
    {
      HighBitInRange(pos);
      InItsSegment(pos);
      var k := SegmentOf(HighBit(pos));
      assert EntryOk(HighBit(pos));
      Times(FirstOf(k), pos, SizeOf(k), elementSize);
    }

    /** Different positions have different cells. */
    lemma RefsApart(p: nat, q: nat)
      requires Valid() && p < bucketMax && q < bucketMax && p != q
      ensures HighBit(p) < |bucket| && HighBit(q) < |bucket|
      ensures Apart(Segment(Ref(p), elementSize), Segment(Ref(q), elementSize))
    {
      RefInSegment(p);
      RefInSegment(q);
      var j, k := SegmentOf(HighBit(p)), SegmentOf(HighBit(q));
      if j == k {
        HighBitInRange(p);
        HighBitInRange(q);
        assert EntryOk(HighBit(p)) && EntryOk(HighBit(q));
        if p < q { Step(p, q, elementSize); } else { Step(q, p, elementSize); }
      } else if j < k {
        assert Apart(segments[j], segments[k]);
      } else {
        assert Apart(segments[k], segments[j]);
      }
    }

    /** tommy_arrayof_grow; the addresses are those of the blocks that the allocation returns. */
    method Grow(count': nat, addresses: nat -> nat)
      requires Valid() && count' <= Pow2(SIZE_BIT - 1)
      requires NewBlocks(segments, addresses, elementSize)
      modifies this
      ensures Valid() && count == (if count' > old(count) then count' else old(count))
      ensures old(segments) <= segments && old(bucketMax) <= bucketMax
      ensures bucketMax == old(bucketMax) || bucketMax / 2 < count'
      ensures forall k: nat | |old(segments)| <= k < |segments| :: segments[k].base == addresses(k)
      ensures forall pos: nat | pos < old(bucketMax) :: HighBit(pos) < |bucket| && Ref(pos) == old(Ref(pos))
    {
      hide Pow2, HighBit;
      HighBits();
      if count >= count' {
        return;
      }
      count := count';
      forall b: nat {:trigger EntryOk(b)} | b < bucketBit
        ensures EntryOk(b)
      {
        assert old(EntryOk(b));
      }
      while count' > bucketMax
        invariant Shape() && count == count' && NewBlocks(segments, addresses, elementSize)
        invariant old(segments) <= segments && old(bucketMax) <= bucketMax && old(bucketBit) <= bucketBit
        invariant bucketMax == old(bucketMax) || bucketMax / 2 < count'
        invariant forall k: nat | |old(segments)| <= k < |segments| :: segments[k].base == addresses(k)
        invariant forall b | 0 <= b < old(bucketBit) :: bucket[b] == old(bucket[b])
        decreases SIZE_BIT - bucketBit
      {
        MoreBits(count', bucketBit);
        AddSegment(addresses(SegmentOf(bucketBit)), addresses);
      }
    }

    /** One more segment, for the positions from bucketMax on. */
    method AddSegment(segment: nat, ghost addresses: nat -> nat)
      requires Shape() && bucketBit + 1 < SIZE_BIT
      requires segment == addresses(|segments|) && NewBlocks(segments, addresses, elementSize)
      modifies this
      ensures Shape() && count == old(count) && bucketBit == old(bucketBit) + 1 && bucketMax == 2 * old(bucketMax)
      ensures segments == old(segments) + [Segment(segment, SizeOf(|old(segments)|) * elementSize)]
      ensures NewBlocks(segments, addresses, elementSize)
      ensures forall b | 0 <= b < old(bucketBit) :: bucket[b] == old(bucket[b])
    {
      var bucket0 := bucket;
      bucket := bucket[bucketBit := segment - bucketMax * elementSize];
      ghost var segments0 := segments;
      segments := segments + [Segment(segment, SizeOf(|segments|) * elementSize)];
      assert old(Shape());
      forall b: nat {:trigger EntryOk(b)} | b < bucketBit + 1
        ensures EntryOk(b)
      {
        if b < bucketBit { assert old(EntryOk(b)); }
      }
      bucketBit := bucketBit + 1;
      bucketMax := Pow2(bucketBit);
      forall b: nat {:trigger EntryOk(b)} | b < bucketBit
        ensures EntryOk(b)
      {
        if b < bucketBit - 1 { assert old(EntryOk(b)); }
      }
    }
  }

  /** The allocation returns blocks apart from those in use and from each other. */
  ghost predicate NewBlocks(segments: seq<Segment>, addresses: nat -> nat, elementSize: nat) {
    && (forall k: nat, j: nat {:trigger segments[k], addresses(j)} | k < |segments| <= j < SIZE_BIT ::
          Apart(segments[k], Segment(addresses(j), SizeOf(j) * elementSize)))
    && (forall j: nat, k: nat {:trigger addresses(j), addresses(k)} | |segments| <= j < k < SIZE_BIT ::
          Apart(Segment(addresses(j), SizeOf(j) * elementSize), Segment(addresses(k), SizeOf(k) * elementSize)))
  }

  lemma MoreBits(count: nat, bit: nat)
    requires Pow2(bit) < count <= Pow2(SIZE_BIT - 1)
    ensures bit + 1 < SIZE_BIT
  {
    if bit >= SIZE_BIT - 1 { Pow2Monotone(SIZE_BIT - 1, bit); }
  }

  lemma HighBits()
    ensures forall pos: nat, b: nat {:trigger HighBit(pos), Pow2(b)} | pos < Pow2(b) && b > 0 :: HighBit(pos) < b
  {
    forall pos: nat, b: nat {:trigger HighBit(pos), Pow2(b)} | pos < Pow2(b) && b > 0
      ensures HighBit(pos) < b
    {
      HighBitBounds(pos);
      if HighBit(pos) >= b { Pow2Monotone(b, HighBit(pos)); }
    }
  }

  lemma Times(first: nat, pos: nat, n: nat, e: nat)
    requires first <= pos
    ensures first * e <= pos * e
    ensures pos < first + n ==> pos * e + e <= first * e + n * e
  {
    if first < pos { Step(first, pos, e); }
    if pos < first + n {
      Step(pos, first + n, e);
      assert (first + n) * e == first * e + n * e;
    }
  }

  lemma Step(p: nat, q: nat, e: nat)
    requires p < q
    ensures p * e + e <= q * e
  {
    var d := q - p - 1;
    assert q * e == (p + 1 + d) * e == p * e + e + d * e;
  }
}
