/** The stable bottom-up merge sort of chains, with one bucket per bit of a binary counter. */
module MergeSort {
  import opened Bits
  import opened Sequences
  import opened StableSort
  import opened TommyChain

  const BUCKETS := 64   // TOMMY_SIZE_BIT

  // ---------------------------------------------------------------------------------------------
  // The counter
  // ---------------------------------------------------------------------------------------------

  /** `c >> i` */
  function Shift(c: nat, i: nat): nat {
    if i == 0 then c else Shift(c / 2, i - 1)
  }

  predicate BitSet(c: nat, i: nat) {
    Shift(c, i) % 2 == 1
  }

  predicate LowOnes(c: nat, i: nat) {
    i == 0 || (c % 2 == 1 && LowOnes(c / 2, i - 1))
  }

  lemma {:induction false} ShiftStep(c: nat, i: nat)
    ensures Shift(c, i + 1) == Shift(c, i) / 2
  {
    if i > 0 { ShiftStep(c / 2, i - 1); }
  }

  lemma {:induction false} ShiftBound(c: nat, i: nat)
    requires Shift(c, i) >= 1
    ensures c >= Pow2(i)
  {
    if i > 0 { ShiftBound(c / 2, i - 1); }
  }

  lemma {:induction false} LowOnesBound(c: nat, i: nat)
    requires LowOnes(c, i)
    ensures c + 1 >= Pow2(i)
  {
    if i > 0 { LowOnesBound(c / 2, i - 1); }
  }

  lemma {:induction false} LowOnesStep(c: nat, i: nat)
    requires LowOnes(c, i) && BitSet(c, i)
    ensures LowOnes(c, i + 1)
  {
    if i > 0 { LowOnesStep(c / 2, i - 1); }
  }

  /** Incrementing clears the low ones, sets the bit above them and leaves the rest. */
  lemma {:induction false} Increment(c: nat, i: nat, k: nat)
    requires LowOnes(c, i) && !BitSet(c, i)
    ensures BitSet(c + 1, k) <==> k == i || (k > i && BitSet(c, k))
  {
    if i == 0 {
      if k > 0 { assert (c + 1) / 2 == c / 2; }
    } else {
      assert (c + 1) / 2 == c / 2 + 1;
      if k > 0 { Increment(c / 2, i - 1, k - 1); }
    }
  }

  lemma {:induction false} NoBitsAbove(c: nat, i: nat, k: nat)
    requires Shift(c, i) == 1 && k > i
    ensures !BitSet(c, k)
  {
    if i == 0 {
      ZeroShift(k - 1);
    } else {
      NoBitsAbove(c / 2, i - 1, k - 1);
    }
  }

  lemma {:induction false} ZeroShift(k: nat)
    ensures Shift(0, k) == 0
  {
    if k > 0 { ZeroShift(k - 1); }
  }

  // ---------------------------------------------------------------------------------------------
  // The buckets
  // ---------------------------------------------------------------------------------------------

  type Runs = s: seq<seq<Node>> | |s| == BUCKETS witness seq(BUCKETS, _ => [])

  /** The contents of the buckets from i up, oldest (highest) first. */
  ghost function Cat(segs: Runs, i: nat): seq<Node>
    requires i <= BUCKETS
    decreases BUCKETS - i
  {
    if i == BUCKETS then [] else Cat(segs, i + 1) + segs[i]
  }

  lemma CatUnfold(segs: Runs, i: nat)
    requires i < BUCKETS
    ensures Cat(segs, i) == Cat(segs, i + 1) + segs[i]
  {
  }

  lemma {:induction false} CatAgree(segs: Runs, segs': Runs, i: nat)
    requires i <= BUCKETS && forall k | i <= k < BUCKETS :: segs[k] == segs'[k]
    ensures Cat(segs, i) == Cat(segs', i)
    decreases BUCKETS - i
  {
    if i < BUCKETS { CatAgree(segs, segs', i + 1); }
  }

  lemma {:induction false} CatSkip(segs: Runs, i: nat)
    requires i <= BUCKETS && forall k | 0 <= k < i :: segs[k] == []
    ensures Cat(segs, 0) == Cat(segs, i)
  {
    if i > 0 {
      hide Cat;
      CatSkip(segs, i - 1);
      CatUnfold(segs, i - 1);
      assert Cat(segs, i) + [] == Cat(segs, i);
    }
  }

  lemma {:induction false} CatEmpty(segs: Runs, i: nat)
    requires i <= BUCKETS && forall k | i <= k < BUCKETS :: segs[k] == []
    ensures Cat(segs, i) == []
    decreases BUCKETS - i
  {
    if i < BUCKETS { CatEmpty(segs, i + 1); }
  }

  ghost predicate Bucket(bit: Chain, run: seq<Node>, seg: seq<Node>, full: bool, i: nat, cmp: Compare)
    reads run
  {
    if full then
      IsChain(bit, run) && IsStableSort(seg, run, cmp) && |run| == Pow2(i)
    else
      seg == [] && run == []
  }

  ghost function Nodes(s: seq<Node>): set<Node> {
    set n | n in s
  }

  ghost predicate Disjoint(segs: Runs) {
    forall i, j | 0 <= i < j < BUCKETS :: Nodes(segs[i]) !! Nodes(segs[j])
  }

  lemma StableNodes(seg: seq<Node>, run: seq<Node>, cmp: Compare)
    requires multiset(run) == multiset(seg)
    ensures Nodes(run) == Nodes(seg)
  {
    forall n
      ensures n in run <==> n in seg
    {
      assert n in run <==> n in multiset(run);
    }
  }

  /** All buckets agree with the bits of the counter. */
  ghost predicate Buckets(bit: seq<Chain>, runs: Runs, segs: Runs, counter: nat, from: nat, cmp: Compare)
    requires |bit| == BUCKETS
    reads AllNodes(runs)
  {
    forall k {:trigger BitSet(counter, k)} | from <= k < BUCKETS ::
      Bucket(bit[k], runs[k], segs[k], BitSet(counter, k), k, cmp)
  }

  ghost function AllNodes(runs: Runs): (nodes: set<Node>)
    ensures forall k, n | 0 <= k < BUCKETS && n in runs[k] :: n in nodes
  {
    set k, n | 0 <= k < BUCKETS && n in runs[k] :: n
  }

  lemma DistinctUnion(a: seq<Node>, b: seq<Node>)
    requires Distinct(a) && Distinct(b) && Nodes(a) !! Nodes(b)
    ensures Distinct(a + b)
  {
    forall i, j | 0 <= i < j < |a + b|
      ensures (a + b)[i] != (a + b)[j]
    {
      if i < |a| <= j {
        assert a[i] in Nodes(a) && b[j - |a|] in Nodes(b);
      }
    }
  }

  lemma ConcatNodes(a: seq<Node>, b: seq<Node>)
    ensures Nodes(a + b) == Nodes(a) + Nodes(b)
  {
  }

  lemma MergeLength(a: seq<Node>, b: seq<Node>, cmp: Compare)
    ensures |Merge(a, b, cmp)| == |a| + |b|
  {
    MergeMultiset(a, b, cmp);
    assert |multiset(Merge(a, b, cmp))| == |multiset(a) + multiset(b)|;
  }

  /** The nodes of the buckets above i are not those of bucket i or of the carry. */
  lemma BucketsApart(bit: seq<Chain>, runs: Runs, segs: Runs, counter: nat, i: nat, run: seq<Node>, seg: seq<Node>,
                     cmp: Compare)
    requires |bit| == BUCKETS && i < BUCKETS && Buckets(bit, runs, segs, counter, i, cmp) && Disjoint(segs)
    requires multiset(run) == multiset(seg)
    requires forall k | i <= k < BUCKETS :: Nodes(seg) !! Nodes(segs[k])
    ensures forall k, n | i < k < BUCKETS && n in runs[k] :: n !in Nodes(runs[i] + run)
  {
    assert Bucket(bit[i], runs[i], segs[i], BitSet(counter, i), i, cmp);
    StableNodes(segs[i], runs[i], cmp);
    StableNodes(seg, run, cmp);
    ConcatNodes(runs[i], run);
    forall k, n | i < k < BUCKETS && n in runs[k]
      ensures n !in Nodes(runs[i] + run)
    {
      assert Bucket(bit[k], runs[k], segs[k], BitSet(counter, k), k, cmp);
      StableNodes(segs[k], runs[k], cmp);
      assert n in Nodes(runs[k]) && n in Nodes(segs[k]);
    }
  }

  /** Merges the carry into the full bucket i, whose nodes are older. */
  method CarryStep(bit: seq<Chain>, last: Chain, i: nat, counter: nat, cmp: Compare,
                   ghost runs: Runs, ghost segs: Runs, ghost run: seq<Node>, ghost seg: seq<Node>,
                   ghost region: set<Node>)
    returns (last': Chain, ghost run': seq<Node>)
    requires |bit| == BUCKETS && i < BUCKETS && BitSet(counter, i) && TotalPreorder(cmp)
    requires Buckets(bit, runs, segs, counter, i, cmp) && Disjoint(segs)
    requires IsChain(last, run) && IsStableSort(seg, run, cmp)
    requires forall k | i <= k < BUCKETS :: Nodes(seg) !! Nodes(segs[k])
    requires Nodes(segs[i]) <= region && Nodes(seg) <= region
    modifies region
    ensures IsChain(last', run') && IsStableSort(segs[i] + seg, run', cmp) && |run'| == Pow2(i) + |run|
    ensures Buckets(bit, runs, segs, counter, i + 1, cmp)
  {
    ghost var full := BitSet(counter, i);
    assert Bucket(bit[i], runs[i], segs[i], full, i, cmp);
    StableNodes(segs[i], runs[i], cmp);
    StableNodes(seg, run, cmp);
    DistinctUnion(runs[i], run);
    MergeStable(segs[i], seg, runs[i], run, cmp);
    MergeLength(runs[i], run, cmp);
    BucketsApart(bit, runs, segs, counter, i, run, seg, cmp);
    run' := Merge(runs[i], run, cmp);
    ghost var older, touched := runs[i], Nodes(runs[i] + run);
    last' := ChainMergeDegenerated(bit[i], last, cmp, older, run, touched);
    forall k {:trigger BitSet(counter, k)} | i + 1 <= k < BUCKETS
      ensures Bucket(bit[k], runs[k], segs[k], BitSet(counter, k), k, cmp)
    {
      assert old(Bucket(bit[k], runs[k], segs[k], BitSet(counter, k), k, cmp));
      assert forall n | n in runs[k] :: n !in touched;
    }
  }

  ghost function PlaceRun(runs: Runs, i: nat, run: seq<Node>): Runs {
    seq(BUCKETS, k requires 0 <= k < BUCKETS => if k < i then [] else if k == i then run else runs[k])
  }

  lemma PlacedBuckets(bit: seq<Chain>, last: Chain, runs: Runs, segs: Runs, counter: nat, i: nat, run: seq<Node>,
                      seg: seq<Node>, cmp: Compare)
    requires |bit| == BUCKETS && i < BUCKETS && LowOnes(counter, i) && !BitSet(counter, i)
    requires Buckets(bit, runs, segs, counter, i, cmp)
    requires Bucket(last, run, seg, true, i, cmp)
    ensures Buckets(bit[i := last], PlaceRun(runs, i, run), PlaceRun(segs, i, seg), counter + 1, 0, cmp)
  {
    var runs', segs' := PlaceRun(runs, i, run), PlaceRun(segs, i, seg);
    forall k {:trigger BitSet(counter + 1, k)} | 0 <= k < BUCKETS
      ensures Bucket(bit[i := last][k], runs'[k], segs'[k], BitSet(counter + 1, k), k, cmp)
    {
      Increment(counter, i, k);
      if k > i {
        assert Bucket(bit[k], runs[k], segs[k], BitSet(counter, k), k, cmp);
      }
    }
  }

  lemma PlacedCat(segs: Runs, i: nat, seg: seq<Node>)
    requires i < BUCKETS && segs[i] == []
    ensures Cat(PlaceRun(segs, i, seg), 0) == Cat(segs, i) + seg
  {
    var segs' := PlaceRun(segs, i, seg);
    CatSkip(segs', i);
    CatAgree(segs', segs, i + 1);
    assert Cat(segs, i + 1) + [] == Cat(segs, i + 1);
  }

  /** The counter never has as many bits as there are buckets. */
  lemma CounterInRange(counter: nat, i: nat)
    requires LowOnes(counter, i) && counter + 1 < Pow2(BUCKETS)
    ensures i < BUCKETS
  {
    LowOnesBound(counter, i);
    if i >= BUCKETS {
      Pow2Monotone(BUCKETS, i);
    }
  }

  /** Slots below the first bucket in use do not matter. */
  lemma BucketsIgnore(bit: seq<Chain>, last: Chain, runs: Runs, segs: Runs, counter: nat, i: nat, cmp: Compare)
    requires |bit| == BUCKETS && i < BUCKETS && Buckets(bit, runs, segs, counter, i + 1, cmp)
    ensures Buckets(bit[i := last], runs, segs, counter, i + 1, cmp)
  {
    forall k {:trigger BitSet(counter, k)} | i + 1 <= k < BUCKETS
      ensures Bucket(bit[i := last][k], runs[k], segs[k], BitSet(counter, k), k, cmp)
    {
      assert Bucket(bit[k], runs[k], segs[k], BitSet(counter, k), k, cmp);
    }
  }

  lemma Doubles(i: nat)
    ensures Pow2(i + 1) == 2 * Pow2(i)
  {
  }

  /** What the carry holds after it has absorbed the buckets below i. */
  ghost predicate Carried(segs: Runs, seg: seq<Node>, i: nat, node: Node, region: set<Node>) {
    && i <= BUCKETS && Nodes(seg) <= region
    && Cat(segs, 0) + [node] == Cat(segs, i) + seg
    && forall k | i <= k < BUCKETS :: Nodes(seg) !! Nodes(segs[k])
  }

  lemma CarriedFirst(segs: Runs, node: Node, region: set<Node>)
    requires node in region && forall k | 0 <= k < BUCKETS :: node !in segs[k]
    ensures Carried(segs, [node], 0, node, region)
  {
  }

  lemma CarriedNext(segs: Runs, seg: seq<Node>, i: nat, node: Node, region: set<Node>)
    requires Carried(segs, seg, i, node, region) && i < BUCKETS && Disjoint(segs) && Nodes(segs[i]) <= region
    ensures Carried(segs, segs[i] + seg, i + 1, node, region)
  {
    hide Cat, Nodes;
    ConcatNodes(segs[i], seg);
    CatUnfold(segs, i);
    assert Cat(segs, i) + seg == Cat(segs, i + 1) + (segs[i] + seg);
  }

  lemma CarriedLast(segs: Runs, seg: seq<Node>, i: nat, node: Node, region: set<Node>)
    requires Carried(segs, seg, i, node, region) && i < BUCKETS && segs[i] == [] && Disjoint(segs)
             && Within(segs, region)
    ensures Disjoint(PlaceRun(segs, i, seg)) && Within(PlaceRun(segs, i, seg), region)
    ensures Cat(PlaceRun(segs, i, seg), 0) == Cat(segs, 0) + [node]
  {
    hide Cat, Nodes;
    PlacedCat(segs, i, seg);
    EmptyNodes();
  }

  lemma EmptyNodes()
    ensures Nodes([]) == {}
  {
  }

  ghost predicate Within(segs: Runs, region: set<Node>) {
    forall k | 0 <= k < BUCKETS :: Nodes(segs[k]) <= region
  }

  lemma EmptyBucket(bit: seq<Chain>, runs: Runs, segs: Runs, counter: nat, i: nat, cmp: Compare)
    requires |bit| == BUCKETS && i < BUCKETS && Buckets(bit, runs, segs, counter, i, cmp) && !BitSet(counter, i)
    ensures segs[i] == []
  {
    assert Bucket(bit[i], runs[i], segs[i], BitSet(counter, i), i, cmp);
  }

  /** Adds one node, propagating the carry through the full low buckets. */
  method AddNode(bit: seq<Chain>, counter: nat, node: Node, cmp: Compare, ghost runs: Runs, ghost segs: Runs,
                 ghost region: set<Node>)
    returns (bit': seq<Chain>, ghost runs': Runs, ghost segs': Runs)
    requires |bit| == BUCKETS && counter + 1 < Pow2(BUCKETS) && TotalPreorder(cmp)
    requires Buckets(bit, runs, segs, counter, 0, cmp) && Disjoint(segs) && Within(segs, region)
    requires node in region && forall k | 0 <= k < BUCKETS :: node !in segs[k]
    modifies region
    ensures |bit'| == BUCKETS
    ensures Buckets(bit', runs', segs', counter + 1, 0, cmp) && Disjoint(segs') && Within(segs', region)
    ensures Cat(segs', 0) == Cat(segs, 0) + [node]
  {
    hide Buckets, Cat, IsStableSort, TotalPreorder, Disjoint, Shift, LowOnes, Pow2, PlaceRun, Linked;
    bit' := bit;
    var last := Chain(node, node);
    var i, mask := 0, counter;
    ghost var run, seg := [node], [node];
    FirstRun(node, counter, cmp);
    CarriedFirst(segs, node, region);
    while mask % 2 != 0
      invariant Carried(segs, seg, i, node, region) && |bit'| == BUCKETS
      invariant mask == Shift(counter, i) && LowOnes(counter, i)
      invariant IsChain(last, run) && IsStableSort(seg, run, cmp) && |run| == Pow2(i)
      invariant Buckets(bit', runs, segs, counter, i, cmp)
      decreases mask
    {
      CounterInRange(counter, i);
      LowOnesStep(counter, i);
      ShiftStep(counter, i);
      CarriedNext(segs, seg, i, node, region);
      Doubles(i);
      last, run := CarryStep(bit', last, i, counter, cmp, runs, segs, run, seg, region);
      BucketsIgnore(bit', last, runs, segs, counter, i, cmp);
      bit' := bit'[i := last];
      seg := segs[i] + seg;
      mask := mask / 2;
      i := i + 1;
    }
    CounterInRange(counter, i);
    EmptyBucket(bit', runs, segs, counter, i, cmp);
    PlacedBuckets(bit', last, runs, segs, counter, i, run, seg, cmp);
    CarriedLast(segs, seg, i, node, region);
    bit' := bit'[i := last];
    runs', segs' := PlaceRun(runs, i, run), PlaceRun(segs, i, seg);
  }

  lemma FirstRun(node: Node, counter: nat, cmp: Compare)
    ensures IsChain(Chain(node, node), [node]) && IsStableSort([node], [node], cmp) && |[node]| == Pow2(0)
    ensures Shift(counter, 0) == counter && LowOnes(counter, 0)
  {
  }

  // ---------------------------------------------------------------------------------------------
  // The sort
  // ---------------------------------------------------------------------------------------------

  lemma {:induction false} CatMembers(segs: Runs, i: nat, k: nat)
    requires i <= k < BUCKETS
    ensures forall n | n in segs[k] :: n in Cat(segs, i)
    decreases k - i
  {
    if i < k { CatMembers(segs, i + 1, k); }
  }

  /** What the sort knows after j nodes. */
  ghost predicate Sorting(bit: seq<Chain>, runs: Runs, segs: Runs, s: seq<Node>, j: nat, cmp: Compare)
    reads AllNodes(runs)
  {
    && j <= |s| && |bit| == BUCKETS
    && Buckets(bit, runs, segs, j, 0, cmp) && Disjoint(segs)
    && Cat(segs, 0) == s[..j]
  }

  lemma SortingStart(bit: seq<Chain>, runs: Runs, s: seq<Node>, cmp: Compare)
    requires |bit| == BUCKETS && forall k | 0 <= k < BUCKETS :: runs[k] == []
    ensures Sorting(bit, runs, runs, s, 0, cmp)
  {
    forall k {:trigger BitSet(0, k)} | 0 <= k < BUCKETS
      ensures Bucket(bit[k], runs[k], runs[k], BitSet(0, k), k, cmp)
    {
      ZeroShift(k);
    }
    CatEmpty(runs, 0);
  }

  /** The buckets hold earlier nodes only. */
  lemma EarlierNodes(bit: seq<Chain>, runs: Runs, segs: Runs, s: seq<Node>, j: nat, cmp: Compare)
    requires Sorting(bit, runs, segs, s, j, cmp) && Distinct(s) && j < |s|
    ensures forall k | 0 <= k < BUCKETS :: s[j] !in segs[k]
    ensures Within(segs, Nodes(s[..j + 1])) && s[j] in Nodes(s[..j + 1]) && Nodes(s[..j + 1]) <= Nodes(s)
    ensures s[..j] + [s[j]] == s[..j + 1]
  {
    hide Buckets, Disjoint, Cat;
    assert s[..j] + [s[j]] == s[..j + 1];
    assert s[j] !in s[..j] && forall n | n in s[..j] :: n in s[..j + 1];
    forall k | 0 <= k < BUCKETS
      ensures s[j] !in segs[k] && Nodes(segs[k]) <= Nodes(s[..j + 1])
    {
      CatMembers(segs, 0, k);
    }
  }

  /** The number of trailing zero bits. */
  function Ctz(c: nat): nat
    requires c > 0
  {
    if c % 2 == 1 then 0 else Ctz(c / 2) + 1
  }

  lemma {:induction false} CtzBits(c: nat, k: nat)
    requires c > 0
    ensures BitSet(c, Ctz(c)) && (k < Ctz(c) ==> !BitSet(c, k))
  {
    if c % 2 == 0 {
      CtzBits(c / 2, if k > 0 then k - 1 else 0);
    }
  }

  /** What the final merge knows when it has reached bucket i. */
  ghost predicate Folding(segs: Runs, s: seq<Node>, seg: seq<Node>, i: nat) {
    && i < BUCKETS && Cat(segs, i + 1) + seg == s
    && forall k | i < k < BUCKETS :: Nodes(seg) !! Nodes(segs[k])
  }

  lemma ShiftInRange(counter: nat, i: nat)
    requires Shift(counter, i) >= 1 && counter < Pow2(BUCKETS)
    ensures i < BUCKETS
  {
    ShiftBound(counter, i);
    if i >= BUCKETS {
      Pow2Monotone(BUCKETS, i);
    }
  }

  lemma BelowCtz(bit: seq<Chain>, runs: Runs, segs: Runs, counter: nat, cmp: Compare)
    requires |bit| == BUCKETS && Buckets(bit, runs, segs, counter, 0, cmp) && 0 < counter < Pow2(BUCKETS)
    ensures Ctz(counter) < BUCKETS && forall k | 0 <= k < Ctz(counter) :: segs[k] == []
  {
    var i := Ctz(counter);
    hide Shift, Ctz;
    CtzBits(counter, i);
    ShiftInRange(counter, i);
    forall k | 0 <= k < i
      ensures segs[k] == []
    {
      CtzBits(counter, k);
      assert Bucket(bit[k], runs[k], segs[k], BitSet(counter, k), k, cmp);
    }
  }

  lemma FoldingStart(bit: seq<Chain>, runs: Runs, segs: Runs, s: seq<Node>, counter: nat, cmp: Compare)
    requires Sorting(bit, runs, segs, s, counter, cmp) && 0 < counter == |s| < Pow2(BUCKETS)
    ensures Ctz(counter) < BUCKETS && Folding(segs, s, segs[Ctz(counter)], Ctz(counter))
  {
    var i := Ctz(counter);
    hide Cat, Shift, Ctz, Nodes, Buckets;
    BelowCtz(bit, runs, segs, counter, cmp);
    CatSkip(segs, i);
    CatUnfold(segs, i);
    assert s[..counter] == s;
  }

  lemma FoldingNext(segs: Runs, s: seq<Node>, seg: seq<Node>, i: nat)
    requires Folding(segs, s, seg, i) && i + 1 < BUCKETS && Disjoint(segs)
    ensures Folding(segs, s, segs[i + 1] + seg, i + 1)
    ensures Nodes(segs[i + 1]) <= Nodes(s) && Nodes(seg) <= Nodes(s)
  {
    hide Cat;
    ConcatNodes(segs[i + 1], seg);
    CatUnfold(segs, i + 1);
    CatMembers(segs, i + 1, i + 1);
    assert Cat(segs, i + 1) + seg == Cat(segs, i + 2) + (segs[i + 1] + seg);
  }

  lemma FoldingEnd(bit: seq<Chain>, runs: Runs, segs: Runs, s: seq<Node>, seg: seq<Node>, counter: nat, i: nat,
                   cmp: Compare)
    requires |bit| == BUCKETS && Folding(segs, s, seg, i) && Shift(counter, i) == 1
             && Buckets(bit, runs, segs, counter, i + 1, cmp)
    ensures seg == s
  {
    forall k | i < k < BUCKETS
      ensures segs[k] == []
    {
      NoBitsAbove(counter, i, k);
      assert Bucket(bit[k], runs[k], segs[k], BitSet(counter, k), k, cmp);
    }
    CatEmpty(segs, i + 1);
  }

  lemma FoldingFirst(bit: seq<Chain>, runs: Runs, segs: Runs, s: seq<Node>, counter: nat, cmp: Compare)
    requires Sorting(bit, runs, segs, s, counter, cmp) && 0 < counter == |s| < Pow2(BUCKETS)
    ensures |bit| == BUCKETS && Ctz(counter) < BUCKETS && Shift(counter, Ctz(counter)) >= 1
    ensures IsChain(bit[Ctz(counter)], runs[Ctz(counter)]) && IsStableSort(segs[Ctz(counter)], runs[Ctz(counter)], cmp)
    ensures Buckets(bit, runs, segs, counter, Ctz(counter) + 1, cmp) && Disjoint(segs)
  {
    hide Cat, Shift, Ctz;
    var i := Ctz(counter);
    CtzBits(counter, i);
    ShiftInRange(counter, i);
    assert Bucket(bit[i], runs[i], segs[i], BitSet(counter, i), i, cmp);
    BucketsFrom(bit, runs, segs, counter, 0, i + 1, cmp);
  }

  lemma BucketsFrom(bit: seq<Chain>, runs: Runs, segs: Runs, counter: nat, from: nat, from': nat, cmp: Compare)
    requires |bit| == BUCKETS && Buckets(bit, runs, segs, counter, from, cmp) && from <= from'
    ensures Buckets(bit, runs, segs, counter, from', cmp)
  {
  }

  /** Merges the buckets from the lowest up, older nodes first. */
  method MergeBuckets(bits: seq<Chain>, counter: nat, cmp: Compare, ghost runs: Runs, ghost segs: Runs,
                      ghost s: seq<Node>)
    returns (chain: Chain, ghost run: seq<Node>)
    requires TotalPreorder(cmp) && 0 < counter == |s| < Pow2(BUCKETS)
    requires Sorting(bits, runs, segs, s, counter, cmp)
    modifies Nodes(s)
    ensures IsChain(chain, run) && IsStableSort(s, run, cmp)
  {
    hide Sorting, Buckets, IsStableSort, TotalPreorder, Distinct, Linked, Folding, Shift, Disjoint, Pow2, Bucket, Ctz,
      Nodes;
    FoldingFirst(bits, runs, segs, s, counter, cmp);
    FoldingStart(bits, runs, segs, s, counter, cmp);
    var bit := bits;
    var i := Ctz(counter);
    var mask := Shift(counter, i);
    ghost var seg := segs[i];
    run := runs[i];
    while mask != 1
      invariant mask == Shift(counter, i) >= 1 && |bit| == BUCKETS
      invariant Folding(segs, s, seg, i) && i < BUCKETS
      invariant IsChain(bit[i], run) && IsStableSort(seg, run, cmp)
      invariant Buckets(bit, runs, segs, counter, i + 1, cmp)
      decreases mask
    {
      ShiftStep(counter, i);
      ShiftInRange(counter, i + 1);
      mask := mask / 2;
      FoldingNext(segs, s, seg, i);
      if mask % 2 != 0 {
        var last: Chain;
        FoldingApart(segs, s, seg, i);
        last, run := CarryStep(bit, bit[i], i + 1, counter, cmp, runs, segs, run, seg, Nodes(s));
        BucketsIgnore(bit, last, runs, segs, counter, i + 1, cmp);
        bit := bit[i + 1 := last];
      } else {
        EmptyBucket(bit, runs, segs, counter, i + 1, cmp);
        BucketsFrom(bit, runs, segs, counter, i + 1, i + 2, cmp);
        BucketsIgnore(bit, bit[i], runs, segs, counter, i + 1, cmp);
        bit := bit[i + 1 := bit[i]];
        assert [] + seg == seg;
      }
      seg := segs[i + 1] + seg;
      i := i + 1;
    }
    FoldingEnd(bit, runs, segs, s, seg, counter, i, cmp);
    chain := bit[i];
  }

  lemma FoldingApart(segs: Runs, s: seq<Node>, seg: seq<Node>, i: nat)
    requires Folding(segs, s, seg, i)
    ensures forall k | i + 1 <= k < BUCKETS :: Nodes(seg) !! Nodes(segs[k])
  {
  }

  lemma NextNode(s: seq<Node>, j: nat)
    requires Distinct(s) && j < |s| && Linked(s[j..])
    ensures j < |s| - 1 ==> s[j].next == s[j + 1]
    ensures Linked(s[j + 1..]) && Nodes(s[..j + 1]) !! Nodes(s[j + 1..])
    ensures s[j] == s[|s| - 1] <==> j == |s| - 1
  {
    var t := s[j..];
    assert t == [t[0]] + s[j + 1..];
    LinkedParts([t[0]], s[j + 1..]);
  }

  lemma SortingUnfold(bit: seq<Chain>, runs: Runs, segs: Runs, s: seq<Node>, j: nat, cmp: Compare)
    requires j <= |s| && |bit| == BUCKETS
    ensures Sorting(bit, runs, segs, s, j, cmp) <==>
            Buckets(bit, runs, segs, j, 0, cmp) && Disjoint(segs) && Cat(segs, 0) == s[..j]
  {
  }

  /** Sorts a chain by relinking its nodes. */
  method ChainMergesort(chain: Chain, cmp: Compare, ghost s: seq<Node>) returns (chain': Chain, ghost r: seq<Node>)
    requires IsChain(chain, s) && TotalPreorder(cmp) && |s| < Pow2(BUCKETS)
    modifies Nodes(s)
    ensures IsChain(chain', r) && IsStableSort(s, r, cmp)
  {
    hide Sorting, Buckets, IsStableSort, TotalPreorder, Distinct, Linked, Shift, Disjoint, Pow2, Bucket, Within, Cat;
    var bit := seq(BUCKETS, _ => Chain(null, null));
    ghost var runs: Runs, segs: Runs := seq(BUCKETS, _ => []), seq(BUCKETS, _ => []);
    assert s[0..] == s;
    var node, tail, counter := chain.head, chain.tail, 0;
    SortingStart(bit, runs, s, cmp);
    while true
      invariant counter < |s| && node == s[counter] && |bit| == BUCKETS
      invariant Sorting(bit, runs, segs, s, counter, cmp)
      invariant Linked(s[counter..])
      decreases |s| - counter
    {
      EarlierNodes(bit, runs, segs, s, counter, cmp);
      SortingUnfold(bit, runs, segs, s, counter, cmp);
      NextNode(s, counter);
      var next := node.next;
      bit, runs, segs := AddNode(bit, counter, node, cmp, runs, segs, Nodes(s[..counter + 1]));
      counter := counter + 1;
      SortingUnfold(bit, runs, segs, s, counter, cmp);
      if node == tail {
        break;
      }
      node := next;
    }
    chain', r := MergeBuckets(bit, counter, cmp, runs, segs, s);
  }
}
