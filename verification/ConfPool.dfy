/** The pools behind a configuration's program entries: one more pool is added when an allocation fails. */
module ConfPool {
  import opened Bits
  import opened Wrappers
  import opened TlsfMapping
  import opened TlsfHeap
  import opened TlsfLists
  import opened TlsfPools
  import opened TlsfData
  import opened Tlsf

  const POOL_SIZE := 0x1_0000
  const POOL_OVERHEAD := 256
  const POOL_SIZE_MIN := POOL_SIZE - POOL_OVERHEAD
  const POOL_SIZE_MAX := BLOCK_SIZE_MAX - POOL_OVERHEAD
  const DATA_OFF := 16         // the two links of the pool list
  const CONTROL_SIZE := 4456   // sizeof(control_t)

  function PoolSize(size: nat): nat {
    if size < POOL_SIZE_MIN then POOL_SIZE else if size < POOL_SIZE_MAX / 2 then 2 * size else size
  }

  /** The size of the one free block in a new pool for this request. */
  function NewBlock(size: nat): nat {
    PoolBytes(PoolSize(size) - DATA_OFF)
  }

  /** Pools of 64 KiB, of twice the request, or of the request itself, and what their blocks have of it. */
  lemma PoolSizes(size: nat)
    ensures PoolSize(size) == if size < 65280 then 65536 else if size < 8388480 then 2 * size else size
    ensures PoolSize(size) <= POOL_SIZE_MAX <==> size <= 16776960
    ensures size <= 16776960 ==>
      NewBlock(size) ==
        if size < 65280 then 65504 else if size < 8388480 then (2 * size - 32) / 8 * 8 else (size - 32) / 8 * 8
  {
  }

  /** The requests for which a new pool is enough. The doubling comes too late for the sizes just below 64 KiB,
      whose class is rounded up past a 64 KiB pool, and stops too early for the sizes from 8 MiB on. */
  predicate Served(size: nat) {
    0 < size <= 64512 || POOL_SIZE_MIN <= size < POOL_SIZE_MAX / 2
  }

  /** The rounding of a request is less than a 32nd part of it. */
  lemma SearchRounds(adjust: nat)
    ensures 32 * (SearchSize(adjust) - adjust) <= adjust
    ensures 0x8000 <= adjust < 0x1_0000 ==> SearchSize(adjust) == adjust + 1023
    ensures adjust < 0x1_0000 ==> SearchSize(adjust) <= adjust + 1023
  {
    if adjust >= SMALL_BLOCK_SIZE {
      Log2Large(adjust);
      var f := Log2(adjust);
      GranuleBounds(adjust, f, Pow2(f - 5));
      Powers();
      if adjust < 0x1_0000 {
        Log2Unique(0xFFFF, 15);
        Log2Monotone(adjust, 0xFFFF);
        Pow2Monotone(f - 5, 10);
      }
      if 0x8000 <= adjust < 0x1_0000 {
        Log2Unique(adjust, 15);
      }
    }
  }

  lemma Powers()
    ensures Pow2(10) == 1024 && Pow2(11) == 2048 && Pow2(15) == 0x8000 && Pow2(16) == 0x1_0000
  {
    Pow16();
    assert Pow2(5) == 32;
    Pow2Add(5, 5);
  }

  /** Any block from 63 KiB to 64 KiB is in the last class below 64 KiB. */
  lemma LastSmallClass(block: nat)
    requires 64512 <= block < 0x1_0000
    ensures Class(block) == 287 && Class(0x1_0000) == 288
  {
    Powers();
    ClassOfGranule(block, 15, 1024, 63);
    ClassOfGranule(0x1_0000, 16, 2048, 32);
  }

  /** A fresh pool serves the request it was made for exactly for these sizes. */
  lemma FreshPoolServes(size: nat)
    requires 0 < size && PoolSize(size) <= POOL_SIZE_MAX
    ensures var adjust := AdjustRequestSize(size, ALIGN_SIZE);
      adjust != 0 && MappingSearch(adjust).Flat() <= Class(NewBlock(size)) <==> Served(size)
  {
    hide MappingInsert, SearchSize;
    var adjust := AdjustRequestSize(size, ALIGN_SIZE);
    AdjustRequestSpec(size);
    AlignUpSpec(size, ALIGN_SIZE);
    PoolBytesSpec(PoolSize(size) - DATA_OFF);
    SearchRounds(adjust);
    if size < POOL_SIZE_MIN {
      LastSmallClass(NewBlock(size));
      LastSmallClass(0xFFFF);
      if adjust <= 64512 {
        ClassMonotone(SearchSize(adjust), 0xFFFF);
      } else {
        ClassMonotone(0x1_0000, SearchSize(adjust));
      }
    } else if size < POOL_SIZE_MAX / 2 {
      ClassMonotone(SearchSize(adjust), NewBlock(size));
    } else if adjust != 0 && MappingSearch(adjust).Flat() <= Class(NewBlock(size)) {
      SearchFits(adjust, NewBlock(size));
    }
  }

  lemma NewPoolServes(size: nat)
    requires PoolSize(size) <= POOL_SIZE_MAX
    ensures var adjust := AdjustRequestSize(size, ALIGN_SIZE);
      adjust == 0 || Class(NewBlock(size)) < MappingSearch(adjust).Flat() <==> !Served(size)
  {
    if size > 0 {
      FreshPoolServes(size);
    }
  }

  /** Where the next pool would be put, if memory can be had for it. */
  ghost predicate Placeable(m: Layout, region: Option<int>, size: nat) {
    region.Some? && PoolSize(size) <= POOL_SIZE_MAX ==>
      var base := region.value + DATA_OFF;
      && base % ALIGN_SIZE == 0 && POOL_FLOOR + OVERHEAD <= base
      && base + PoolSize(size) - DATA_OFF <= POOL_CEILING
      && RegionClear(m, base - OVERHEAD, base + NewBlock(size))
  }

  /** Once nothing else fits, a request is served after adding a pool exactly when that pool's block serves it. */
  lemma OnlyNewBlock(m: Layout, lo: int, hi: int, adjust: nat)
    requires Tiled(m) && PoolEnds(lo, hi) && RegionClear(m, lo, hi) && Unserved(m, adjust)
    ensures Unserved(WithPool(m, lo, hi), adjust) <==>
      adjust == 0 || Class(hi - lo - OVERHEAD) < MappingSearch(adjust).Flat()
  {
    hide Tiled, Class, MappingSearch;
    PoolTiled(m, lo, hi);
    assert lo in WithPool(m, lo, hi) && WithPool(m, lo, hi)[lo].free;
  }

  lemma NewPoolLive(m: Layout, lo: int, hi: int)
    requires Tiled(m) && PoolEnds(lo, hi) && RegionClear(m, lo, hi)
    ensures Live(WithPool(m, lo, hi)) == Live(m)
    ensures Pools(WithPool(m, lo, hi)) == Pools(m)[lo := hi]
  {
    PoolTiled(m, lo, hi);
    assert Live(WithPool(m, lo, hi)).Keys == Live(m).Keys;
    assert Pools(WithPool(m, lo, hi)).Keys == Pools(m).Keys + {lo};
  }

  /** Where nothing else fits, the block that serves is the new pool's. */
  lemma ServedByPool(m: Layout, m': Layout, lo: int, hi: int, lists: Lists, p: int, adjust: nat)
    requires Tiled(m) && PoolEnds(lo, hi) && RegionClear(m, lo, hi) && Unserved(m, adjust) && adjust != 0
    requires FirstFit(WithPool(m, lo, hi), lists, adjust, p - 16)
    requires CutFrom(WithPool(m, lo, hi), m', p, p - 16, adjust)
    ensures p == lo + 16 && p - 16 in Live(m')
    ensures Live(m')[p - 16] == if hi - lo - OVERHEAD >= adjust + HEADER_SIZE then adjust else hi - lo - OVERHEAD
  {
    hide Tiled, Class, MappingSearch, Live;
  }

  /** Allocation, if need be from a new pool. A pool that turns out too small stays. */
  method MallocOrGrow(tlsf: Control, size: nat, region: Option<int>) returns (p: int, added: bool)
    requires tlsf.Valid() && size < 0x1_0000_0000 && Placeable(tlsf.layout, region, size)
    modifies tlsf, tlsf.slBitmap, tlsf.blocks
    ensures tlsf.Valid() && DataKept(old(tlsf.mem), tlsf.mem, old(Live(tlsf.layout)))
    ensures p == 0 <==>
      && Unserved(old(tlsf.layout), AdjustRequestSize(size, ALIGN_SIZE))
      && (region.None? || PoolSize(size) > POOL_SIZE_MAX || !Served(size))
    ensures added <==>
      && Unserved(old(tlsf.layout), AdjustRequestSize(size, ALIGN_SIZE))
      && region.Some? && PoolSize(size) <= POOL_SIZE_MAX
    ensures Pools(tlsf.layout) ==
      if added then
        var lo := region.value + DATA_OFF - OVERHEAD;
        old(Pools(tlsf.layout))[lo := lo + OVERHEAD + NewBlock(size)]
      else old(Pools(tlsf.layout))
    ensures p == 0 ==> Live(tlsf.layout) == old(Live(tlsf.layout))
    ensures p == 0 ==>
      if added then
        var lo := region.value + DATA_OFF - OVERHEAD;
        tlsf.layout == WithPool(old(tlsf.layout), lo, lo + OVERHEAD + NewBlock(size))
      else tlsf.layout == old(tlsf.layout)
    ensures p != 0 ==>
      && p % ALIGN_SIZE == 0
      && old(p - 16 !in Live(tlsf.layout)) && p - 16 in Live(tlsf.layout) && Live(tlsf.layout)[p - 16] >= size
      && Live(tlsf.layout) == old(Live(tlsf.layout))[p - 16 := Live(tlsf.layout)[p - 16]]
    ensures p != 0 ==>
      var adjust := AdjustRequestSize(size, ALIGN_SIZE);
      if added then
        p == region.value + 24
        && Live(tlsf.layout)[p - 16] == if NewBlock(size) >= adjust + HEADER_SIZE then adjust else NewBlock(size)
      else
        FirstFit(old(tlsf.layout), old(tlsf.lists), adjust, p - 16)
        && CutFrom(old(tlsf.layout), tlsf.layout, p, p - 16, adjust)
  {
    hide Class, MappingSearch, Unserved, Live, Pools, DataKept, PoolBytes, RegionClear, Served;
    hide AdjustRequestSize, Linked, Listed, Coalesced, Indexes, BlockOk, Apart, HeaderOk;
    added := false;
    p := tlsf.Malloc(size);
    if p == 0 {
      var poolSize := PoolSize(size);
      if poolSize > POOL_SIZE_MAX || region.None? {
        return;
      }
      added := true;
      var base := region.value + DATA_OFF;
      PoolBytesSpec(poolSize - DATA_OFF);
      ghost var lo, hi := base - OVERHEAD, base + NewBlock(size);
      OnlyNewBlock(tlsf.layout, lo, hi, AdjustRequestSize(size, ALIGN_SIZE));
      NewPoolLive(tlsf.layout, lo, hi);
      NewPoolServes(size);
      ghost var mem := tlsf.mem;
      var pool := tlsf.AddPool(base, poolSize - DATA_OFF);
      ghost var mem1 := tlsf.mem;
      ghost var lists1 := tlsf.lists;
      p := tlsf.Malloc(size);
      if p != 0 {
        ServedByPool(old(tlsf.layout), tlsf.layout, lo, hi, lists1, p, AdjustRequestSize(size, ALIGN_SIZE));
      }
      KeptTwice(mem, mem1, tlsf.mem, old(Live(tlsf.layout)));
    }
  }

  /** Where the pools in the list begin: the first one made, the last of the list, holds the control structure. */
  ghost function Starts(pools: seq<int>): set<int> {
    if pools == [] then {}
    else if |pools| == 1 then {pools[0] + DATA_OFF + CONTROL_SIZE - OVERHEAD}
    else Starts(pools[1..]) + {pools[0] + DATA_OFF - OVERHEAD}
  }

  /** The pools of a configuration and the allocator in the first of them, if that could be made. */
  class ConfPools {
    var tlsf: Control?
    var pools: seq<int>

    ghost function Repr(): set<object>
      reads this
    {
      if tlsf == null then {this} else {this, tlsf, tlsf.slBitmap, tlsf.blocks}
    }

    ghost function Picture(): Layout
      reads this, tlsf
    {
      if tlsf == null then map[] else tlsf.layout
    }

    /** The list has exactly the allocator's pools. */
    ghost predicate Valid()
      reads this, Repr()
    {
      && (tlsf == null <==> pools == [])
      && (tlsf != null ==> tlsf.Valid())
      && Pools(Picture()).Keys == Starts(pools)
    }

    constructor ()
      ensures Valid() && pools == [] && tlsf == null
    {
      tlsf, pools := null, [];
      new;
      assert Pools(Picture()) == map[];
    }

    /** `fort_conf_pool_init`: the first pool starts with the control structure. */
    method Init(size: nat, region: Option<int>)
      requires Valid() && pools == [] && size < 0x1_0000_0000
      requires region.Some? ==>
        region.value % ALIGN_SIZE == 0 && POOL_FLOOR <= region.value && region.value + BLOCK_SIZE_MAX <= POOL_CEILING
      modifies this
      ensures Valid() && (tlsf != null ==> fresh(tlsf) && fresh(tlsf.slBitmap) && fresh(tlsf.blocks))
      ensures pools == if region.Some? && PoolSize(size) <= POOL_SIZE_MAX then [region.value] else []
      ensures pools != [] ==>
        var lo := region.value + DATA_OFF + CONTROL_SIZE - OVERHEAD;
        var bytes := PoolBytes(PoolSize(size) - DATA_OFF - CONTROL_SIZE);
        Picture() == WithPool(map[], lo, lo + OVERHEAD + bytes)
    {
      hide Indexes, Sound, Pools;
      var poolSize := PoolSize(size);
      if region.None? || poolSize > POOL_SIZE_MAX {
        return;
      }
      PoolBytesSpec(poolSize - DATA_OFF - CONTROL_SIZE);
      var control := new Control();
      var base := region.value + DATA_OFF + CONTROL_SIZE;
      NoPools();
      NewPoolLive(map[], base - OVERHEAD, base + PoolBytes(poolSize - DATA_OFF - CONTROL_SIZE));
      var pool := control.AddPool(base, poolSize - DATA_OFF - CONTROL_SIZE);
      tlsf, pools := control, [region.value];
    }

    /** `fort_conf_pool_malloc` with the system's answer to the request for a new pool. */
    method Malloc(size: nat, region: Option<int>) returns (p: int)
      requires Valid() && size < 0x1_0000_0000 && Placeable(Picture(), region, size)
      modifies Repr()
      ensures Valid() && tlsf == old(tlsf)
      ensures tlsf != null ==> DataKept(old(tlsf.mem), tlsf.mem, old(Live(Picture())))
      ensures p == 0 <==>
        || old(pools) == []
        || (&& Unserved(old(Picture()), AdjustRequestSize(size, ALIGN_SIZE))
            && (region.None? || PoolSize(size) > POOL_SIZE_MAX || !Served(size)))
      ensures pools ==
        if old(pools) != [] && Unserved(old(Picture()), AdjustRequestSize(size, ALIGN_SIZE))
           && region.Some? && PoolSize(size) <= POOL_SIZE_MAX then [region.value] + old(pools)
        else old(pools)
      ensures p == 0 ==> Live(Picture()) == old(Live(Picture()))
      ensures p == 0 ==>
        if pools != old(pools) then
          var lo := region.value + DATA_OFF - OVERHEAD;
          Picture() == WithPool(old(Picture()), lo, lo + OVERHEAD + NewBlock(size))
        else Picture() == old(Picture())
      ensures p != 0 ==>
        && p % ALIGN_SIZE == 0
        && old(p - 16 !in Live(Picture())) && p - 16 in Live(Picture()) && Live(Picture())[p - 16] >= size
        && Live(Picture()) == old(Live(Picture()))[p - 16 := Live(Picture())[p - 16]]
      ensures p != 0 ==>
        var adjust := AdjustRequestSize(size, ALIGN_SIZE);
        if pools != old(pools) then
          p == region.value + 24
          && Live(Picture())[p - 16] == if NewBlock(size) >= adjust + HEADER_SIZE then adjust else NewBlock(size)
        else
          tlsf != null && FirstFit(old(Picture()), old(tlsf.lists), adjust, p - 16)
          && CutFrom(old(Picture()), Picture(), p, p - 16, adjust)
    {
      hide Indexes, Sound, Pools, Live, Unserved, Served, Placeable, AdjustRequestSize, DataKept, WithPool, NewBlock;
      if pools == [] {
        return 0;
      }
      ghost var pools0 := pools;
      var added;
      p, added := MallocOrGrow(tlsf, size, region);
      if added {
        pools := [region.value] + pools;
        assert pools[1..] == pools0;
      }
    }
  }

  lemma NoPools()
    ensures Pools(map[]) == map[]
  {
  }

  /** With a first pool of 64 KiB, a first request of less than 65280 bytes fails iff it is above 64512 bytes, and then
      leaves a second pool that is one free block of 65504 bytes. */
  method FirstRequest(size: nat) returns (c: ConfPools, p: int)
    requires 0 < size < POOL_SIZE_MIN
    ensures fresh(c) && c.Valid() && (p != 0 <==> size <= 64512)
    ensures p == 0 ==>
      && c.pools == [0x4_0000, 0x1_0000]
      && 0x4_0008 in c.Picture() && c.Picture()[0x4_0008].free && c.Picture()[0x4_0008].size == 65504
  {
    hide PoolBytes, Served, Live, Pools, Unserved, Placeable, NewBlock, AdjustRequestSize, Sound, Indexes;
    c := new ConfPools();
    c.Init(1000, Some(0x1_0000));
    SecondPool(size);
    p := c.Malloc(size, Some(0x4_0000));
  }

  /** Behind a first pool of 64 KiB, one free block of 61048 bytes. */
  lemma SecondPool(size: nat)
    requires 0 < size < POOL_SIZE_MIN
    ensures PoolBytes(POOL_SIZE - DATA_OFF - CONTROL_SIZE) == 61048
    ensures NewBlock(size) == 65504 && (Served(size) <==> size <= 64512)
    ensures var m := WithPool(map[], 0x1_0000 + 4464, 0x1_0000 + 4472 + 61048);
      && Placeable(m, Some(0x4_0000), size)
      && (size > 64512 ==> Unserved(m, AdjustRequestSize(size, ALIGN_SIZE)))
  {
    if size > 64512 {
      var adjust := AdjustRequestSize(size, ALIGN_SIZE);
      AdjustRequestSpec(size);
      SearchRounds(adjust);
      ClassMonotone(0x1_0000, SearchSize(adjust));
      LastSmallClass(64512);
      ClassMonotone(61048, 64512);
    }
  }

  /** A run: with the first pool, 64513 bytes are refused although the new pool has a free block of 65504 bytes. */
  method TooSmallPool() returns (c: ConfPools, p: int)
    ensures fresh(c) && c.Valid() && |c.pools| == 2 && p == 0
    ensures exists b :: b in c.Picture() && c.Picture()[b].free && c.Picture()[b].size >= 64513 + ALIGN_SIZE
  {
    c, p := FirstRequest(64513);
    assert 0x4_0008 in c.Picture();
  }
}
