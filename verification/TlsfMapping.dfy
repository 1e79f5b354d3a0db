/** Size classes of the two-level segregated fit allocator, with the constants of the driver build. */
module TlsfMapping {
  import opened Bits

  const ALIGN_SIZE := 8
  const SL_INDEX_COUNT_LOG2 := 5
  const SL_INDEX_COUNT := 32
  const FL_INDEX_MAX := 24      // log2 of the driver's largest pool, 16 MiB
  const FL_INDEX_SHIFT := 8
  const FL_INDEX_COUNT := 17
  const SMALL_BLOCK_SIZE := 256
  const BLOCK_SIZE_MIN := 24    // sizeof(block_header_t) without prev_phys_block
  const BLOCK_SIZE_MAX := 0x100_0000
  const HEADER_SIZE := 32       // sizeof(block_header_t)
  const OVERHEAD := 8           // block_header_overhead
  const SIZE_T := 0x1_0000_0000_0000_0000
  const TOP_ALIGN := 0x8000_0000_0000_0000   // the largest power of two of size_t

  lemma ConstantsAgree()
    ensures BLOCK_SIZE_MAX == Pow2(FL_INDEX_MAX)
    ensures SMALL_BLOCK_SIZE == Pow2(FL_INDEX_SHIFT)
    ensures FL_INDEX_COUNT == FL_INDEX_MAX - FL_INDEX_SHIFT + 1
  {
    assert Pow2(8) == 256 by { assert Pow2(4) == 16; }
    assert Pow2(16) == 256 * 256 by { Pow2Add(8, 8); }
    Pow2Add(16, 8);
  }

  // ---------------------------------------------------------------------------------------------
  // Rounding to a power-of-two alignment
  // ---------------------------------------------------------------------------------------------

  ghost predicate PowerOfTwo(align: nat) {
    exists k: nat :: align == Pow2(k)
  }

  /** `(x + (align - 1)) & ~(align - 1)` in size_t arithmetic. */
  function AlignUp(x: nat, align: nat): nat
    requires align > 0
  {
    var y := (x + (align - 1)) % SIZE_T;
    y - y % align
  }

  /** `x - (x & (align - 1))` */
  function AlignDown(x: nat, align: nat): nat
    requires align > 0
  {
    x - x % align
  }

  lemma AlignUpSpec(x: nat, align: nat)
    requires align > 0 && x + align - 1 < SIZE_T
    ensures x <= AlignUp(x, align) < x + align
    ensures AlignUp(x, align) % align == 0
  {
    var y := x + (align - 1);
    assert y == (y / align) * align + y % align;
    assert AlignUp(x, align) == (y / align) * align;
    ModOfMultiple(y / align, align);
  }

  lemma ModOfMultiple(k: nat, q: nat)
    requires q > 0
    ensures (k * q) % q == 0
  {
    assert k * q == ((k * q) / q) * q + (k * q) % q;
    DivBounds(k * q, q, k);
    DivBounds(k * q, q, k + 1);
  }

  /** The request rounded to `align` and to the least block size; 0 when it is empty or too large. */
  function AdjustRequestSize(size: nat, align: nat): nat
    requires align > 0
  {
    if size == 0 then 0
    else
      var aligned := AlignUp(size, align);
      if aligned < BLOCK_SIZE_MAX then if aligned < BLOCK_SIZE_MIN then BLOCK_SIZE_MIN else aligned else 0
  }

  /** What a non-zero result guarantees: it is a block size, no larger than it has to be, and it covers the request
      exactly when the rounding did not wrap past the top of size_t. */
  lemma AdjustRequestSpec(size: nat)
    requires size < SIZE_T
    ensures var a := AdjustRequestSize(size, ALIGN_SIZE);
      a != 0 ==> BLOCK_SIZE_MIN <= a < BLOCK_SIZE_MAX && a % ALIGN_SIZE == 0
                 && (a >= size <==> size + ALIGN_SIZE - 1 < SIZE_T)
                 && (a == BLOCK_SIZE_MIN || a < size + ALIGN_SIZE)
    ensures size + ALIGN_SIZE - 1 < SIZE_T ==>
      (AdjustRequestSize(size, ALIGN_SIZE) == 0 <==> size == 0 || size > BLOCK_SIZE_MAX - ALIGN_SIZE)
  {
    if size + ALIGN_SIZE - 1 < SIZE_T {
      AlignUpSpec(size, ALIGN_SIZE);
    }
  }

  // ---------------------------------------------------------------------------------------------
  // The class of a size
  // ---------------------------------------------------------------------------------------------

  datatype Index = Index(fl: int, sl: int) {
    /** Position in the flattened table of list heads. */
    function Flat(): int {
      fl * SL_INDEX_COUNT + sl
    }

    predicate InTable() {
      0 <= fl < FL_INDEX_COUNT && 0 <= sl < SL_INDEX_COUNT
    }
  }

  /** `mapping_insert`: the exclusive or clears bit 5, which is set (see MappingInsertBounds). */
  function MappingInsert(size: nat): Index {
    if size < SMALL_BLOCK_SIZE then
      Index(0, size / (SMALL_BLOCK_SIZE / SL_INDEX_COUNT))
    else
      Log2Large(size);
      var fl := Log2(size);
      Index(fl - (FL_INDEX_SHIFT - 1), size / Pow2(fl - SL_INDEX_COUNT_LOG2) - 32)
  }

  /** `mapping_search`: rounds up to the next class first. */
  function SearchSize(size: nat): nat {
    if size >= SMALL_BLOCK_SIZE then
      Log2Large(size);
      size + (Pow2(Log2(size) - SL_INDEX_COUNT_LOG2) - 1)
    else size
  }

  function MappingSearch(size: nat): Index {
    MappingInsert(SearchSize(size))
  }

  /** The flattened list number that a free block of this size belongs to. */
  function Class(size: nat): int {
    MappingInsert(size).Flat()
  }

  lemma Log2Large(size: nat)
    requires size >= SMALL_BLOCK_SIZE
    ensures Log2(size) >= FL_INDEX_SHIFT
  {
    ConstantsAgree();
    Log2Unique(SMALL_BLOCK_SIZE, FL_INDEX_SHIFT);
    Log2Monotone(SMALL_BLOCK_SIZE, size);
  }

  lemma Pow5()
    ensures Pow2(5) == 32
  {
    assert Pow2(3) == 8;
  }

  /** A large size as quotient and granule: 32 granules of Pow2(fl - 5) bytes up to twice as many. */
  lemma GranuleBounds(size: nat, f: nat, q: nat)
    requires size >= SMALL_BLOCK_SIZE && f == Log2(size) && f >= FL_INDEX_SHIFT && q == Pow2(f - SL_INDEX_COUNT_LOG2)
    ensures Pow2(f) == 32 * q
    ensures 32 * q <= size < 64 * q
    ensures 32 <= size / q < 64
  {
    hide Pow2;
    Pow5();
    Pow2Add(f - 5, 5);
    Log2Bounds(size);
    DivBounds(size, q, 32);
    DivBounds(size, q, 64);
  }

  /** The indices are inside the table exactly for sizes below block_size_max. */
  lemma MappingInsertInTable(size: nat)
    ensures 0 <= MappingInsert(size).sl < SL_INDEX_COUNT
    ensures MappingInsert(size).fl >= 0
    ensures MappingInsert(size).InTable() <==> size < BLOCK_SIZE_MAX
  {
    ConstantsAgree();
    if size >= SMALL_BLOCK_SIZE {
      Log2Large(size);
      var f := Log2(size);
      GranuleBounds(size, f, Pow2(f - 5));
      Log2Bounds(size);
      if f < FL_INDEX_MAX {
        Pow2Monotone(f, FL_INDEX_MAX);
      } else {
        Pow2Monotone(FL_INDEX_MAX, f);
      }
    }
  }

  /** The class of a block of exactly the largest size is one behind the last row of the table. */
  lemma LargestOutOfTable()
    ensures MappingInsert(BLOCK_SIZE_MAX) == Index(FL_INDEX_COUNT, 0)
  {
    ConstantsAgree();
    Log2Unique(BLOCK_SIZE_MAX, FL_INDEX_MAX);
    assert Pow2(25) == 2 * Pow2(24);
    GranuleBounds(BLOCK_SIZE_MAX, 24, Pow2(19));
    QuotientIs(BLOCK_SIZE_MAX, Pow2(19), 32);
  }

  /** Smaller sizes are never in a later class. */
  lemma ClassMonotone(a: nat, b: nat)
    requires a <= b
    ensures Class(a) <= Class(b)
  {
    MappingInsertInTable(a);
    MappingInsertInTable(b);
    if a >= SMALL_BLOCK_SIZE {
      Log2Large(a);
      Log2Monotone(a, b);
      if Log2(a) == Log2(b) {
        DivMonotone(a, b, Pow2(Log2(a) - 5));
      }
    } else if b >= SMALL_BLOCK_SIZE {
      Log2Large(b);
    }
  }

  /** Fit: a block whose class is at or above the searched class holds the request. */
  lemma SearchFits(request: nat, block: nat)
    requires request % ALIGN_SIZE == 0 && block % ALIGN_SIZE == 0
    requires MappingSearch(request).Flat() <= Class(block)
    ensures request <= block
  {
    if block < request {
      if request < SMALL_BLOCK_SIZE {
      } else {
        SearchClassAbove(request, block);
      }
    }
  }

  /** The class in closed form: first level from the logarithm, second level from the granule. */
  lemma ClassOfGranule(size: nat, f: nat, q: nat, g: nat)
    requires f >= FL_INDEX_SHIFT && q == Pow2(f - SL_INDEX_COUNT_LOG2) && 32 <= g < 64
    requires g * q <= size < g * q + q
    ensures size >= SMALL_BLOCK_SIZE
    ensures Class(size) == (f - 7) * 32 + g - 32
  {
    GranuleIsLarge(f, q);
    QuotientIs(size, q, g);
    assert 32 * q <= g * q <= 63 * q by { Scale(32, g, q); Scale(g, 63, q); }
    Log2Unique(size, f);
  }

  lemma Scale(a: int, b: int, q: nat)
    requires a <= b
    ensures a * q <= b * q
  {
  }

  lemma QuotientIs(n: nat, q: nat, g: nat)
    requires q > 0 && g * q <= n < g * q + q
    ensures n / q == g
  {
    assert (g + 1) * q == g * q + q;
    DivBounds(n, q, g);
    DivBounds(n, q, g + 1);
  }

  lemma GranuleIsLarge(f: nat, q: nat)
    requires f >= FL_INDEX_SHIFT && q == Pow2(f - SL_INDEX_COUNT_LOG2)
    ensures q >= 8 && Pow2(f) == 32 * q
  {
    Pow2Monotone(3, f - 5);
    assert Pow2(3) == 8;
    Pow2Add(f - 5, 5);
    assert Pow2(5) == 32;
  }

  /** Below 32 granules of this level, the class is below the whole level. */
  lemma ClassBelowLevel(size: nat, f: nat)
    requires f >= FL_INDEX_SHIFT && size < Pow2(f)
    ensures Class(size) < (f - 7) * 32
  {
    MappingInsertInTable(size);
    if size >= SMALL_BLOCK_SIZE {
      Log2Large(size);
      Log2Bounds(size);
      if Log2(size) >= f {
        Pow2Monotone(f, Log2(size));
      }
    }
  }

  /** n = (g - 1) * q + rest with 0 <= rest < q, and the boundary after it is within q - 1 of n + 1. */
  lemma NextBoundary(n: nat, q: nat) returns (g: nat)
    requires q > 0
    ensures g > 0 && (g - 1) * q == g * q - q
    ensures g * q - q <= n < g * q <= n + q
    ensures 32 * q <= n + 1 ==> g >= 32
    ensures n < 64 * q ==> g <= 64
  {
    g := n / q + 1;
    assert n == (n / q) * q + n % q;
    assert g * q == (n / q) * q + q;
    DivBounds(n, q, 31);
    DivBounds(n, q, 64);
  }

  /** The searched class in closed form: that of the request if it starts its class, and the next one otherwise. */
  lemma SearchClass(request: nat, f: nat, q: nat, g: nat)
    requires f >= FL_INDEX_SHIFT && q == Pow2(f - SL_INDEX_COUNT_LOG2) && 32 <= g < 64
    requires g * q <= request < g * q + q
    ensures MappingSearch(request).Flat() == (f - 7) * 32 + g - 32 + (if request == g * q then 0 else 1)
  {
    hide MappingInsert;
    ClassOfGranule(request, f, q, g);
    GranuleIsLarge(f, q);
    assert 32 * q <= g * q <= 63 * q by { Scale(32, g, q); Scale(g, 63, q); }
    Log2Unique(request, f);
    var searched := SearchSize(request);
    if request == g * q {
      ClassOfGranule(searched, f, q, g);
    } else if g < 63 {
      assert (g + 1) * q == g * q + q;
      ClassOfGranule(searched, f, q, g + 1);
    } else {
      assert Pow2(f + 1 - SL_INDEX_COUNT_LOG2) == 2 * q;
      ClassOfGranule(searched, f + 1, 2 * q, 32);
    }
  }

  /** Small sizes have a class for each word, and are searched for in it. */
  lemma SmallClass(size: nat)
    requires size < SMALL_BLOCK_SIZE
    ensures Class(size) == MappingSearch(size).Flat() == size / 8
  {
  }

  lemma SearchClassAbove(request: nat, block: nat)
    requires request >= SMALL_BLOCK_SIZE && block < request
    ensures Class(block) < MappingSearch(request).Flat()
  {
    hide MappingInsert;
    Log2Large(request);
    var f := Log2(request);
    var q := Pow2(f - 5);
    GranuleBounds(request, f, q);
    var g := NextBoundary(request - 1, q);
    var boundary := g * q;
    // the rounded size reaches the boundary, the block stays below it
    ClassMonotone(block, request - 1);
    ClassMonotone(boundary, SearchSize(request));
    BoundaryClass(f, q, g);
    if g == 32 {
      ClassBelowLevel(request - 1, f);
    } else {
      ClassOfGranule(request - 1, f, q, g - 1);
    }
  }

  lemma BoundaryClass(f: nat, q: nat, g: nat)
    requires f >= FL_INDEX_SHIFT && q == Pow2(f - SL_INDEX_COUNT_LOG2) && 32 <= g <= 64
    ensures Class(g * q) == (f - 7) * 32 + g - 32
  {
    GranuleIsLarge(f, q);
    if g == 64 {
      assert Pow2(f + 1 - SL_INDEX_COUNT_LOG2) == 2 * q;
      assert g * q == 32 * (2 * q);
      ClassOfGranule(g * q, f + 1, 2 * q, 32);
    } else {
      ClassOfGranule(g * q, f, q, g);
    }
  }

  // ---------------------------------------------------------------------------------------------
  // Aligned allocation
  // ---------------------------------------------------------------------------------------------

  /** The request padded so that an aligned block and a leading free block fit. */
  function PaddedRequest(adjust: nat, align: nat): nat
    requires align > 0
  {
    AdjustRequestSize((adjust + align + HEADER_SIZE) % SIZE_T, align)
  }

  lemma PowerIsWordMultiple(align: nat)
    requires PowerOfTwo(align) && align > ALIGN_SIZE
    ensures align % ALIGN_SIZE == 0 && align >= 16 && (align < 32 ==> align == 16)
  {
    var k: nat :| align == Pow2(k);
    assert Pow2(3) == 8 && Pow2(4) == 16 && Pow2(5) == 32 by { assert Pow2(2) == 4; }
    if k < 4 { Pow2Monotone(k, 3); }
    if k > 4 { Pow2Monotone(5, k); }
    Pow2Add(k - 3, 3);
    ModOfMultiple(Pow2(k - 3), 8);
  }

  /** A small power of two divides every word address. */
  lemma SmallPowerDivides(x: nat, align: nat)
    requires PowerOfTwo(align) && align <= ALIGN_SIZE && x % ALIGN_SIZE == 0 && x + align - 1 < SIZE_T
    ensures AlignUp(x, align) == x
  {
    var k: nat :| align == Pow2(k);
    assert Pow2(1) == 2 && Pow2(2) == 4 && Pow2(3) == 8 && Pow2(4) == 16;
    if k > 3 { Pow2Monotone(4, k); }
    assert align == 1 || align == 2 || align == 4 || align == 8;
    DownTo(x / 8, align);
  }

  /** A word address with all the bits below the alignment set. */
  lemma DownTo(n: nat, align: nat)
    requires align == 1 || align == 2 || align == 4 || align == 8
    ensures (8 * n + align - 1) % align == align - 1
  {
    if align == 1 {
      RemainderIs(8 * n, 1, 8 * n, 0);
    } else if align == 2 {
      RemainderIs(8 * n + 1, 2, 4 * n, 1);
    } else if align == 4 {
      RemainderIs(8 * n + 3, 4, 2 * n, 3);
    } else {
      RemainderIs(8 * n + 7, 8, n, 7);
    }
  }

  lemma RemainderIs(x: nat, align: nat, q: nat, r: nat)
    requires r < align && x == q * align + r
    ensures x % align == r
  {
    QuotientIs(x, align, q);
  }

  /** The padding covers the alignment gap exactly when the alignment is below the top power of size_t:
      at 2^63 the rounding wraps and the padded request shrinks to the least block size. */
  lemma PaddedRequestSpec(adjust: nat, align: nat)
    requires PowerOfTwo(align) && align < SIZE_T && BLOCK_SIZE_MIN <= adjust < BLOCK_SIZE_MAX && align > ALIGN_SIZE
    ensures var padded := PaddedRequest(adjust, align);
      padded == 0 || padded >= adjust + align + HEADER_SIZE <==> align < TOP_ALIGN
    ensures var padded := PaddedRequest(adjust, align);
      && padded < BLOCK_SIZE_MAX && padded % ALIGN_SIZE == 0
      && (align < TOP_ALIGN && padded != 0 ==> padded < adjust + 2 * align + HEADER_SIZE)
      && (adjust + 2 * align + HEADER_SIZE <= BLOCK_SIZE_MAX ==> padded != 0)
    ensures align < TOP_ALIGN ==> forall m: nat {:trigger m % align} ::
      m % align == 0 && 0 <= m - (adjust + align + HEADER_SIZE) < align ==>
        PaddedRequest(adjust, align) == if m < BLOCK_SIZE_MAX then m else 0
  {
    hide PaddedRequest, Pow2;
    TopPower(align);
    if align < TOP_ALIGN {
      PaddedBelowTop(adjust, align);
    } else {
      PaddedAtTop(adjust);
    }
  }

  lemma PaddedBelowTop(adjust: nat, align: nat)
    requires PowerOfTwo(align) && BLOCK_SIZE_MIN <= adjust < BLOCK_SIZE_MAX
             && ALIGN_SIZE < align <= 0x4000_0000_0000_0000
    ensures var padded := PaddedRequest(adjust, align);
      && padded < BLOCK_SIZE_MAX && padded % ALIGN_SIZE == 0
      && (padded == 0 || adjust + align + HEADER_SIZE <= padded < adjust + 2 * align + HEADER_SIZE)
      && (adjust + 2 * align + HEADER_SIZE <= BLOCK_SIZE_MAX ==> padded != 0)
    ensures forall m: nat {:trigger m % align} ::
      m % align == 0 && 0 <= m - (adjust + align + HEADER_SIZE) < align ==>
        PaddedRequest(adjust, align) == if m < BLOCK_SIZE_MAX then m else 0
  {
    PowerIsWordMultiple(align);
    var sum := adjust + align + HEADER_SIZE;
    assert sum % SIZE_T == sum;
    AlignUpSpec(sum, align);
    MultipleOfMultiple(AlignUp(sum, align), align);
    forall m: nat {:trigger m % align} | m % align == 0 && 0 <= m - sum < align
      ensures m == AlignUp(sum, align)
    {
      if m < AlignUp(sum, align) { NextMultiple(m, align, AlignUp(sum, align)); }
      if m > AlignUp(sum, align) { NextMultiple(AlignUp(sum, align), align, m); }
    }
  }

  lemma NextMultiple(a: nat, align: nat, b: nat)
    requires align > 0 && a % align == 0 && b % align == 0 && a < b
    ensures a + align <= b
  {
    var i, j := a / align, b / align;
    assert a == i * align && b == j * align;
    if j <= i { Scale(j, i, align); }
    Scale(i + 1, j, align);
    assert (i + 1) * align == a + align;
  }

  lemma PaddedAtTop(adjust: nat)
    requires BLOCK_SIZE_MIN <= adjust < BLOCK_SIZE_MAX
    ensures PaddedRequest(adjust, TOP_ALIGN) == BLOCK_SIZE_MIN
  {
    var sum := adjust + TOP_ALIGN + HEADER_SIZE;
    assert (sum + 0x7FFF_FFFF_FFFF_FFFF) % SIZE_T == adjust + HEADER_SIZE - 1;
  }

  lemma MultipleOfMultiple(x: nat, align: nat)
    requires align > 0 && align % ALIGN_SIZE == 0 && x % align == 0
    ensures x % ALIGN_SIZE == 0
  {
    var a, q := align / ALIGN_SIZE, x / align;
    assert x == q * align && align == a * ALIGN_SIZE;
    assert x == (q * a) * ALIGN_SIZE;
    ModOfMultiple(q * a, ALIGN_SIZE);
  }

  lemma Pow16()
    ensures Pow2(16) == 0x1_0000
  {
    assert Pow2(8) == 256 by { assert Pow2(4) == 16; }
    Pow2Add(8, 8);
  }

  lemma Pow48()
    ensures Pow2(48) == 0x1_0000_0000_0000
  {
    Pow16();
    Pow2Add(16, 16);
    Pow2Add(32, 16);
  }

  lemma TopPowers()
    ensures Pow2(62) == 0x4000_0000_0000_0000
    ensures Pow2(63) == TOP_ALIGN && Pow2(64) == SIZE_T
  {
    Pow48();
    assert Pow2(8) == 256 by { assert Pow2(4) == 16; }
    assert Pow2(14) == 16384 by { assert Pow2(11) == 2048; }
    Pow2Add(48, 14);
  }

  lemma TopIsPower()
    ensures PowerOfTwo(TOP_ALIGN)
  {
    TopPowers();
  }

  /** A power of two below 2^64 is at most 2^63, and at most 2^62 when it is not 2^63. */
  lemma TopPower(align: nat)
    requires PowerOfTwo(align) && align < SIZE_T
    ensures align <= TOP_ALIGN
    ensures align < TOP_ALIGN ==> align <= 0x4000_0000_0000_0000
  {
    var k: nat :| align == Pow2(k);
    TopPowers();
    if k < 63 { Pow2Monotone(k, 62); }
    if k > 63 { Pow2Monotone(64, k); }
  }

  lemma GapIsWords(ptr: nat, aligned: nat, align: nat)
    requires ptr % ALIGN_SIZE == 0 && aligned % ALIGN_SIZE == 0 && align % ALIGN_SIZE == 0
    ensures (aligned - ptr) % ALIGN_SIZE == 0 && (aligned + align - ptr) % ALIGN_SIZE == 0
    ensures (aligned + align) % ALIGN_SIZE == 0 && (aligned + 32 - ptr) % ALIGN_SIZE == 0
  {
  }

  lemma NoMultipleBetween(a: nat, align: nat, k: int, b: nat)
    requires align > 0 && a % align == 0 && b % align == 0 && a + (k - 1) * align < b < a + (k + 1) * align
    ensures b == a + k * align
  {
    var i, j := a / align, b / align;
    assert a == i * align && b == j * align;
    assert (i + k - 1) * align == a + (k - 1) * align && (i + k + 1) * align == a + (k + 1) * align;
    if j <= i + k - 1 { Scale(j, i + k - 1, align); }
    if j >= i + k + 1 { Scale(i + k + 1, j, align); }
    assert j == i + k;
  }

  // The two computations of tlsf_memalign, as the methods its body calls; their contracts are linear.

  method PadRequest(adjust: nat, align: nat) returns (padded: nat)
    requires PowerOfTwo(align) && align < SIZE_T && BLOCK_SIZE_MIN <= adjust < BLOCK_SIZE_MAX
    ensures padded == PaddedRequest(adjust, align)
    ensures align == TOP_ALIGN ==> padded == BLOCK_SIZE_MIN
    ensures ALIGN_SIZE < align < TOP_ALIGN ==>
      && padded < BLOCK_SIZE_MAX && padded % ALIGN_SIZE == 0
      && (padded == 0 || adjust + align + HEADER_SIZE <= padded < adjust + 2 * align + HEADER_SIZE)
      && (adjust + 2 * align + HEADER_SIZE <= BLOCK_SIZE_MAX ==> padded != 0)
  {
    padded := PaddedRequest(adjust, align);
    if align > ALIGN_SIZE {
      TopPower(align);
      PaddedRequestSpec(adjust, align);
      PaddedAtTop(adjust);
    }
  }

  /** Divisibility by repeated subtraction, so that contracts about a variable alignment stay linear. */
  predicate MultipleOf(p: nat, align: nat)
    requires align > 0
  {
    if p < align then p == 0 else MultipleOf(p - align, align)
  }

  lemma {:induction false} MultipleOfIsMod(p: nat, align: nat)
    requires align > 0
    ensures MultipleOf(p, align) <==> p % align == 0
  {
    if p >= align {
      MultipleOfIsMod(p - align, align);
      ModStep(p, align);
    }
  }

  lemma ModStep(p: nat, align: nat)
    requires 0 < align <= p
    ensures (p - align) % align == p % align
  {
    var q, r := p / align, p % align;
    assert p - align == (q - 1) * align + r;
    QuotientIs(p - align, align, q - 1);
  }

  /** At the alignment 2^63 there are two aligned addresses, and the second is 0. */
  lemma AlignUpAtTop(x: nat)
    requires x < SIZE_T
    ensures AlignUp(x, TOP_ALIGN) == if 0 < x <= TOP_ALIGN then TOP_ALIGN else 0
  {
    var y := (x + (TOP_ALIGN - 1)) % SIZE_T;
    assert y == if x <= TOP_ALIGN then x + (TOP_ALIGN - 1) else x - TOP_ALIGN - 1;
  }

  /** The bytes in front of the aligned address, in size_t arithmetic; when they are too few for a free block, those
      in front of a later aligned address. */
  function AlignmentGap(ptr: nat, align: nat): nat
    requires align > 0
  {
    var aligned := AlignUp(ptr, align);
    var gap := (aligned - ptr) % SIZE_T;
    if gap != 0 && gap < HEADER_SIZE then
      var gapRemain := HEADER_SIZE - gap;
      var offset := if gapRemain < align then align else gapRemain;
      (AlignUp((aligned + offset) % SIZE_T, align) - ptr) % SIZE_T
    else gap
  }

  /** The gap is none, or enough for a free block and within the padding. At the alignment 2^63, it leads to that very
      address or is more than any block has. */
  lemma AlignmentGapSpec(ptr: nat, align: nat)
    requires PowerOfTwo(align) && ptr % ALIGN_SIZE == 0 && 0 < ptr
    requires ptr + 4 * BLOCK_SIZE_MAX < SIZE_T && (align <= BLOCK_SIZE_MAX || align == TOP_ALIGN)
    ensures var gap := AlignmentGap(ptr, align);
      && gap % ALIGN_SIZE == 0 && (gap == 0 || gap >= HEADER_SIZE)
      && (align <= BLOCK_SIZE_MAX ==> MultipleOf(ptr + gap, align) && (gap == 0 || gap <= align + 24))
      && (align <= ALIGN_SIZE ==> gap == 0)
      && (align == TOP_ALIGN ==> ptr + gap == TOP_ALIGN || gap >= 4 * BLOCK_SIZE_MAX)
      && (align <= BLOCK_SIZE_MAX ==> forall a: nat {:trigger MultipleOf(a, align)} ::
            MultipleOf(a, align) && (a == ptr || a >= ptr + HEADER_SIZE) ==> ptr + gap <= a)
  {
    hide AlignmentGap, MultipleOf, PowerOfTwo;
    PowerPositive(align);
    if align == TOP_ALIGN {
      GapAtTop(ptr);
    } else {
      GapBelowTop(ptr, align);
      forall a: nat {:trigger MultipleOf(a, align)} | MultipleOf(a, align) && (a == ptr || a >= ptr + HEADER_SIZE)
        ensures ptr + AlignmentGap(ptr, align) <= a
      {
        MultipleOfIsMod(a, align);
        GapIsLeast(ptr, align, a - ptr);
      }
    }
  }

  lemma PowerPositive(align: nat)
    requires PowerOfTwo(align)
    ensures align > 0
  {
  }

  lemma GapAtTop(ptr: nat)
    requires ptr % ALIGN_SIZE == 0 && 0 < ptr && ptr + 4 * BLOCK_SIZE_MAX < SIZE_T
    ensures var gap := AlignmentGap(ptr, TOP_ALIGN);
      && gap % ALIGN_SIZE == 0 && (gap == 0 || gap >= HEADER_SIZE)
      && (ptr + gap == TOP_ALIGN || gap >= 4 * BLOCK_SIZE_MAX)
  {
    hide AlignUp;
    AlignUpAtTop(ptr);
    AlignUpAtTop(0);
  }

  lemma GapBelowTop(ptr: nat, align: nat)
    requires PowerOfTwo(align) && ptr % ALIGN_SIZE == 0 && 0 < ptr
    requires ptr + 4 * BLOCK_SIZE_MAX < SIZE_T && align <= BLOCK_SIZE_MAX
    ensures var gap := AlignmentGap(ptr, align);
      && gap % ALIGN_SIZE == 0 && (gap == 0 || HEADER_SIZE <= gap <= align + 24)
      && MultipleOf(ptr + gap, align) && (align <= ALIGN_SIZE ==> gap == 0)
  {
    hide AlignUp, MultipleOf, PowerOfTwo, AlignmentGap;
    PowerPositive(align);
    var aligned := AlignUp(ptr, align);
    AlignUpSpec(ptr, align);
    GapSteps(ptr, align, aligned);
    var gap := aligned - ptr;
    var offset := if HEADER_SIZE - gap < align then align else HEADER_SIZE - gap;
    GapUnwrapped(ptr, align, aligned);
    if gap != 0 && gap < HEADER_SIZE {
      var next := AlignUp(aligned + offset, align);
      AlignUpSpec(aligned + offset, align);
      SecondBoundary(ptr, align, aligned, offset, next);
    }
    MultipleOfIsMod(ptr + AlignmentGap(ptr, align), align);
  }

  /** No other aligned address that leaves no gap or enough for a free block comes first. */
  lemma GapIsLeast(ptr: nat, align: nat, g: nat)
    requires PowerOfTwo(align) && ptr % ALIGN_SIZE == 0
    requires ptr + 4 * BLOCK_SIZE_MAX < SIZE_T && 0 < align <= BLOCK_SIZE_MAX
    requires (ptr + g) % align == 0 && (g == 0 || g >= HEADER_SIZE)
    ensures AlignmentGap(ptr, align) <= g
  {
    hide AlignUp, PowerOfTwo, AlignmentGap;
    var aligned := AlignUp(ptr, align);
    AlignUpSpec(ptr, align);
    GapSteps(ptr, align, aligned);
    GapUnwrapped(ptr, align, aligned);
    if ptr + g < aligned { NextMultiple(ptr + g, align, aligned); }
    var gap := aligned - ptr;
    if gap != 0 && gap < HEADER_SIZE {
      var offset := if HEADER_SIZE - gap < align then align else HEADER_SIZE - gap;
      var next := AlignUp(aligned + offset, align);
      AlignUpSpec(aligned + offset, align);
      SecondBoundary(ptr, align, aligned, offset, next);
      NextMultiple(aligned, align, ptr + g);
      if offset != align && ptr + g > aligned + 16 {
        Sixteens(aligned);
        NextMultiple(aligned + 16, 16, ptr + g);
      }
    }
  }

  lemma Sixteens(x: nat)
    requires x % 16 == 0
    ensures (x + 16) % 16 == 0
  {
  }

  /** Nothing wraps. */
  lemma GapUnwrapped(ptr: nat, align: nat, aligned: nat)
    requires 0 < align <= BLOCK_SIZE_MAX && ptr + 4 * BLOCK_SIZE_MAX < SIZE_T
    requires aligned == AlignUp(ptr, align) && ptr <= aligned < ptr + align
    ensures var gap := aligned - ptr;
      var offset := if HEADER_SIZE - gap < align then align else HEADER_SIZE - gap;
      AlignmentGap(ptr, align) ==
        if gap != 0 && gap < HEADER_SIZE then AlignUp(aligned + offset, align) - ptr else gap
  {
    hide AlignUp;
    var gap := aligned - ptr;
    if gap != 0 && gap < HEADER_SIZE {
      var offset := if HEADER_SIZE - gap < align then align else HEADER_SIZE - gap;
      AlignUpAbove(aligned + offset, align);
    }
  }

  lemma AlignUpAbove(x: nat, align: nat)
    requires 0 < align && x + align - 1 < SIZE_T
    ensures x <= AlignUp(x, align) < x + align
  {
    hide AlignUp;
    AlignUpSpec(x, align);
  }

  lemma GapSteps(ptr: nat, align: nat, aligned: nat)
    requires PowerOfTwo(align) && ptr % ALIGN_SIZE == 0 && ptr + align < SIZE_T && aligned == AlignUp(ptr, align)
    ensures (aligned - ptr) % ALIGN_SIZE == 0 && (align <= ALIGN_SIZE ==> aligned == ptr)
    ensures align > ALIGN_SIZE ==> align % ALIGN_SIZE == 0 && align >= 16 && (align < 32 ==> align == 16)
  {
    AlignUpSpec(ptr, align);
    if align <= ALIGN_SIZE {
      SmallPowerDivides(ptr, align);
    } else {
      PowerIsWordMultiple(align);
      MultipleOfMultiple(aligned, align);
      GapIsWords(ptr, aligned, align);
    }
  }

  lemma WordSum(a: int, b: int)
    requires a % ALIGN_SIZE == 0 && b % ALIGN_SIZE == 0
    ensures (a + b) % ALIGN_SIZE == 0
  {
  }

  /** From an aligned address, an offset of one alignment stays aligned; the only larger one is 24 for 16. */
  lemma SecondBoundary(ptr: nat, align: nat, aligned: nat, offset: nat, next: nat)
    requires align >= 16 && aligned % align == 0 && (offset == align || (align == 16 && offset == 24))
    requires next % align == 0 && aligned + offset <= next < aligned + offset + align && ptr <= aligned
    requires align % ALIGN_SIZE == 0 && (aligned - ptr) % ALIGN_SIZE == 0
    ensures next == aligned + (if offset == align then align else 32)
    ensures (next - ptr) % ALIGN_SIZE == 0
  {
    if offset == align {
      NoMultipleBetween(aligned, align, 1, next);
    } else {
      NoMultipleBetween(aligned, 16, 2, next);
    }
    WordSum(aligned - ptr, next - aligned);
  }
}
