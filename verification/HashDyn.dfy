/** The resizing hash table: an array of bucket lists whose length is a power of two. */
module HashDyn {
  import opened Bits
  import opened MergeSort
  import opened Sequences
  import opened StableSort
  import opened TommyChain
  import opened TommyList

  const MIN_BIT := 4   // TOMMY_HASHDYN_BIT

  /** The nodes with a hash, in their order. */
  ghost function WithIndex(s: seq<Node>, h: nat): seq<Node> {
    if s == [] then []
    else if s[0].index == h then [s[0]] + WithIndex(s[1..], h)
    else WithIndex(s[1..], h)
  }

  lemma {:induction false} WithIndexConcat(s: seq<Node>, t: seq<Node>, h: nat)
    ensures WithIndex(s + t, h) == WithIndex(s, h) + WithIndex(t, h)
  {
    if s == [] {
      assert s + t == t;
    } else {
      assert (s + t)[1..] == s[1..] + t;
      WithIndexConcat(s[1..], t, h);
    }
  }

  lemma {:induction false} WithIndexNone(s: seq<Node>, h: nat)
    requires forall n | n in s :: n.index != h
    ensures WithIndex(s, h) == []
  {
    if s != [] { WithIndexNone(s[1..], h); }
  }

  lemma {:induction false} WithIndexMembers(s: seq<Node>, h: nat, n: Node)
    ensures n in WithIndex(s, h) <==> n in s && n.index == h
  {
    if s != [] {
      WithIndexMembers(s[1..], h, n);
      assert n in s <==> n == s[0] || n in s[1..];
    }
  }

  /** The nodes of a bucket that a table of twice the size keeps in it, or moves to its upper half. */
  ghost function Half(s: seq<Node>, max: nat, upper: bool): seq<Node>
    requires max > 0
  {
    if s == [] then []
    else if (s[0].index % (2 * max) >= max) == upper then [s[0]] + Half(s[1..], max, upper)
    else Half(s[1..], max, upper)
  }

  lemma {:induction false} HalfAdd(s: seq<Node>, n: Node, max: nat, upper: bool)
    requires max > 0
    ensures Half(s + [n], max, upper) ==
            Half(s, max, upper) + (if (n.index % (2 * max) >= max) == upper then [n] else [])
  {
    if s == [] {
      assert s + [n] == [n] && [n][1..] == [];
    } else {
      assert (s + [n])[1..] == s[1..] + [n];
      HalfAdd(s[1..], n, max, upper);
    }
  }

  lemma {:induction false} HalfMembers(s: seq<Node>, max: nat, upper: bool, n: Node)
    requires max > 0
    ensures n in Half(s, max, upper) <==> n in s && (n.index % (2 * max) >= max) == upper
  {
    if s != [] {
      HalfMembers(s[1..], max, upper, n);
      assert n in s <==> n == s[0] || n in s[1..];
    }
  }

  /** Each half keeps the order of equal hashes. */
  lemma {:induction false} HalfWithIndex(s: seq<Node>, max: nat, h: nat)
    requires max > 0
    ensures WithIndex(Half(s, max, h % (2 * max) >= max), h) == WithIndex(s, h)
    ensures |Half(s, max, false)| + |Half(s, max, true)| == |s|
  {
    if s != [] { HalfWithIndex(s[1..], max, h); }
  }

  lemma ModDouble(h: nat, max: nat)
    requires max > 0
    ensures h % (2 * max) == if h % (2 * max) >= max then h % max + max else h % max
  {
    var m2 := 2 * max;
    var q, r := Euclid(h, m2);
    ModTwice(h, max, m2, q, r);
  }

  lemma Euclid(h: nat, m: nat) returns (q: nat, r: nat)
    requires m > 0
    ensures h == m * q + r && r < m && r == h % m
  {
    q, r := h / m, h % m;
  }

  lemma ModTwice(h: nat, m: nat, m2: nat, q: nat, r: nat)
    requires m > 0 && m2 == 2 * m && 0 <= r < m2 && h == m2 * q + r
    ensures h % m == if r >= m then r - m else r
  {
    Twice(m, q);
    if r >= m {
      ModIs(h, m, 2 * q + 1, r - m);
    } else {
      ModIs(h, m, 2 * q, r);
    }
  }

  lemma Twice(m: nat, q: nat)
    ensures (2 * m) * q == m * (2 * q) && m * (2 * q + 1) == m * (2 * q) + m
  {
    assert (2 * m) * q == 2 * (m * q) && m * (2 * q) == 2 * (m * q);
  }

  lemma ModIs(h: nat, m: nat, q: nat, r: nat)
    requires 0 <= r < m && h == m * q + r
    ensures h % m == r
  {
    assert (q + 1) * m == q * m + m;
    assert q * m <= h < (q + 1) * m;
    DivBounds(h, m, q);
    DivBounds(h, m, q + 1);
    var d := h / m;
    assert d == q;
    assert h == m * d + h % m;
  }

  /** The rest of a list that is being taken apart. */
  ghost predicate IsTail(t: seq<Node>)
    reads t
  {
    Linked(t) && (t != [] ==> t[|t| - 1].next == null)
  }

  lemma NextTail(s: seq<Node>, k: nat)
    requires Distinct(s) && k < |s| && IsTail(s[k..])
    ensures s[k].next == (if k + 1 < |s| then s[k + 1] else null)
    ensures IsTail(s[k + 1..]) && Nodes(s[..k + 1]) !! Nodes(s[k + 1..])
    ensures s[..k + 1] == s[..k] + [s[k]] && s[k] !in s[..k] && Nodes(s[..k]) + {s[k]} == Nodes(s[..k + 1]) <= Nodes(s)
  {
    NextNode(s, k);
    assert s[k..][|s[k..]| - 1] == s[|s| - 1];
    assert k + 1 < |s| ==> s[k + 1..][|s[k + 1..]| - 1] == s[|s| - 1];
  }

  lemma HalfNodes(s: seq<Node>, max: nat, upper: bool)
    requires max > 0
    ensures Nodes(Half(s, max, upper)) <= Nodes(s)
  {
    forall n | n in Half(s, max, upper)
      ensures n in s
    {
      HalfMembers(s, max, upper, n);
    }
  }

  lemma HalvesApart(s: seq<Node>, max: nat)
    requires max > 0
    ensures Nodes(Half(s, max, false)) !! Nodes(Half(s, max, true))
  {
    forall n | n in s
      ensures !(n in Half(s, max, false) && n in Half(s, max, true))
    {
      HalfMembers(s, max, false, n);
      HalfMembers(s, max, true, n);
    }
    HalfNodes(s, max, false);
  }

  ghost predicate InBucket(s: seq<Node>, max: nat, p: nat)
    requires max > 0
  {
    forall n | n in s :: n.index % max == p
  }

  /** `index & new_bucket_mask`, for a mask of one more bit. */
  function NewPosition(index: nat, max: nat): nat
    requires max > 0
  {
    index % (2 * max)
  }

  /** Splits the list of bucket i between two buckets of a table of twice the size. */
  method SplitBucket(head: Node?, i: nat, max: nat, ghost s: seq<Node>) returns (lower: Node?, upper: Node?)
    requires IsList(head, s) && i < max && InBucket(s, max, i)
    modifies Nodes(s)
    ensures IsList(lower, Half(s, max, false)) && IsList(upper, Half(s, max, true))
  {
    hide Linked, Distinct, IsList, IsTail, Half, InBucket, NewPosition;
    ListTail(head, s);
    lower, upper := null, null;
    var j := head;
    ghost var k := 0;
    while j != null
      invariant k <= |s| && j == (if k < |s| then s[k] else null)
      invariant IsList(lower, Half(s[..k], max, false)) && IsList(upper, Half(s[..k], max, true))
      invariant IsTail(s[k..])
      decreases |s| - k
    {
      NextTail(s, k);
      SplitStep(s, k, i, max);
      var next := j.next;
      var pos := NewPosition(j.index, max);
      ghost var lo, up := Half(s[..k], max, false), Half(s[..k], max, true);
      ghost var touched := (if pos == i then Nodes(lo) else Nodes(up)) + {j};
      ghost var rest := s[k + 1..];
      assert ApartFrom(rest, touched);
      label L:
      if pos == i {
        lower := InsertTail(lower, j, lo);
        assert old@L(IsList(upper, up)) && ApartFrom(up, touched);
      } else {
        upper := InsertTail(upper, j, up);
        assert old@L(IsList(lower, lo)) && ApartFrom(lo, touched);
      }
      assert old@L(IsTail(rest));
      j := next;
      k := k + 1;
    }
    assert s[..k] == s;
  }

  lemma ListTail(head: Node?, s: seq<Node>)
    requires IsList(head, s)
    ensures Distinct(s) && IsTail(s[0..]) && head == (if s == [] then null else s[0])
    ensures IsList(null, [])
    ensures s[..0] == [] && forall max: nat, upper {:trigger Half([], max, upper)} | max > 0 ::
              Half([], max, upper) == []
  {
    assert s[0..] == s;
  }

  ghost predicate ApartFrom(s: seq<Node>, region: set<Node>) {
    forall n | n in s :: n !in region
  }

  lemma SplitStep(s: seq<Node>, k: nat, i: nat, max: nat)
    requires k < |s| && Distinct(s) && i < max && InBucket(s, max, i)
    ensures var n, lo, up := s[k], Half(s[..k], max, false), Half(s[..k], max, true);
            && n !in lo && n !in up && ApartFrom(up, Nodes(lo) + {n}) && ApartFrom(lo, Nodes(up) + {n})
            && Nodes(lo) + {n} <= Nodes(s[..k + 1]) && Nodes(up) + {n} <= Nodes(s[..k + 1])
            && Nodes(s[..k + 1]) <= Nodes(s)
            && (NewPosition(n.index, max) == i ==>
                 Half(s[..k + 1], max, false) == lo + [n] && Half(s[..k + 1], max, true) == up)
            && (NewPosition(n.index, max) != i ==>
                 Half(s[..k + 1], max, false) == lo && Half(s[..k + 1], max, true) == up + [n])
  {
    var n := s[k];
    assert s[..k + 1] == s[..k] + [n];
    HalfAdd(s[..k], n, max, false);
    HalfAdd(s[..k], n, max, true);
    HalfNodes(s[..k], max, false);
    HalfNodes(s[..k], max, true);
    HalvesApart(s[..k], max);
    ModDouble(n.index, max);
    assert n !in Nodes(s[..k]);
  }

  // ---------------------------------------------------------------------------------------------
  // The buckets
  // ---------------------------------------------------------------------------------------------

  ghost function All(lists: seq<seq<Node>>): (nodes: set<Node>)
    ensures forall p, n | 0 <= p < |lists| && n in lists[p] :: n in nodes
  {
    set p, n | 0 <= p < |lists| && n in lists[p] :: n
  }

  /** Bucket p is a list of nodes whose hash leads to it. */
  ghost predicate BucketOk(head: Node?, s: seq<Node>, max: nat, p: nat)
    requires max > 0
    reads s
  {
    IsList(head, s) && InBucket(s, max, p)
  }

  ghost predicate Table(bucket: seq<Node?>, lists: seq<seq<Node>>)
    reads All(lists)
  {
    && |bucket| == |lists| > 0
    && forall p: nat {:trigger lists[p]} | p < |lists| :: BucketOk(bucket[p], lists[p], |lists|, p)
  }

  ghost predicate Placed(lists: seq<seq<Node>>) {
    |lists| > 0 && forall p: nat {:trigger lists[p]} | p < |lists| :: InBucket(lists[p], |lists|, p)
  }

  /** The nodes with a hash: all of them are in one bucket. */
  ghost function Lookup(lists: seq<seq<Node>>, h: nat): seq<Node>
    requires |lists| > 0
  {
    WithIndex(lists[h % |lists|], h)
  }

  lemma LookupMembers(lists: seq<seq<Node>>, h: nat, n: Node)
    requires Placed(lists)
    ensures n in Lookup(lists, h) <==> n in All(lists) && n.index == h
  {
    WithIndexMembers(lists[h % |lists|], h, n);
    forall p: nat | p < |lists| && n in lists[p]
      ensures p == n.index % |lists|
    {
      assert InBucket(lists[p], |lists|, p);
    }
  }

  lemma BucketsApart(lists: seq<seq<Node>>, p: nat, q: nat)
    requires Placed(lists) && p < |lists| && q < |lists| && p != q
    ensures Nodes(lists[p]) !! Nodes(lists[q])
  {
    assert InBucket(lists[p], |lists|, p) && InBucket(lists[q], |lists|, q);
  }

  // ---------------------------------------------------------------------------------------------
  // Growing
  // ---------------------------------------------------------------------------------------------

  /** The lists of a table of twice the size. */
  ghost function Doubled(lists: seq<seq<Node>>): (lists': seq<seq<Node>>)
    requires |lists| > 0
    ensures |lists'| == 2 * |lists|
  {
    var max := |lists|;
    seq(2 * max, p requires 0 <= p < 2 * max =>
      if p < max then Half(lists[p], max, false) else Half(lists[p - max], max, true))
  }

  lemma DoubledMembers(lists: seq<seq<Node>>, p: nat, n: Node)
    requires Placed(lists) && p < 2 * |lists|
    ensures n in Doubled(lists)[p] <==>
              n in lists[if p < |lists| then p else p - |lists|] && n.index % (2 * |lists|) == p
  {
    var max := |lists|;
    var q := if p < max then p else p - max;
    HalfMembers(lists[q], max, p >= max, n);
    ModDouble(n.index, max);
    assert InBucket(lists[q], max, q);
  }

  lemma DoubledPlaced(lists: seq<seq<Node>>)
    requires |lists| > 0 && Placed(lists)
    ensures Placed(Doubled(lists)) && All(Doubled(lists)) == All(lists)
  {
    hide Doubled, Placed, All;
    var max, lists' := |lists|, Doubled(lists);
    forall p: nat {:trigger lists'[p]} | p < 2 * max
      ensures InBucket(lists'[p], 2 * max, p)
    {
      forall n: Node | n in lists'[p]
        ensures n.index % (2 * max) == p
      {
        DoubledMembers(lists, p, n);
      }
    }
    PlacedIs(lists');
    forall n | n in All(lists)
      ensures n in All(lists')
    {
      var p := Where(lists, n);
      HomeBucket(lists, p, n);
      DoubledMembers(lists, n.index % (2 * max), n);
      ModDouble(n.index, max);
      assert n in lists'[n.index % (2 * max)];
    }
    forall n | n in All(lists')
      ensures n in All(lists)
    {
      var p := Where(lists', n);
      DoubledMembers(lists, p, n);
    }
    assert All(lists') == All(lists);
  }

  lemma Where(lists: seq<seq<Node>>, n: Node) returns (p: nat)
    requires n in All(lists)
    ensures p < |lists| && n in lists[p]
  {
    p :| p < |lists| && n in lists[p];
  }

  lemma PlacedIs(lists: seq<seq<Node>>)
    requires |lists| > 0 && forall p: nat {:trigger lists[p]} | p < |lists| :: InBucket(lists[p], |lists|, p)
    ensures Placed(lists)
  {
  }

  lemma HomeBucket(lists: seq<seq<Node>>, p: nat, n: Node)
    requires Placed(lists) && p < |lists| && n in lists[p]
    ensures n.index % |lists| == p
  {
    assert InBucket(lists[p], |lists|, p);
  }

  /** Growing keeps the nodes of each hash, in their order. */
  lemma DoubledLookup(lists: seq<seq<Node>>, h: nat)
    requires |lists| > 0
    ensures Lookup(Doubled(lists), h) == Lookup(lists, h)
  {
    ModDouble(h, |lists|);
    HalfWithIndex(lists[h % |lists|], |lists|, h);
  }

  ghost predicate Split(lower: Node?, upper: Node?, lo: seq<Node>, up: seq<Node>)
    reads lo, up
  {
    IsList(lower, lo) && IsList(upper, up)
  }

  /** The nodes of bucket i are in no other bucket, nor in the halves of one. */
  lemma OnlyBucket(lists: seq<seq<Node>>, i: nat)
    requires Placed(lists) && i < |lists|
    ensures Nodes(lists[i]) <= All(lists) && InBucket(lists[i], |lists|, i)
    ensures forall p: nat {:trigger lists[p]} | p < |lists| && p != i ::
              && ApartFrom(lists[p], Nodes(lists[i]))
              && ApartFrom(Half(lists[p], |lists|, false), Nodes(lists[i]))
              && ApartFrom(Half(lists[p], |lists|, true), Nodes(lists[i]))
  {
    hide All, Half;
    assert InBucket(lists[i], |lists|, i);
    forall p: nat {:trigger lists[p]} | p < |lists| && p != i
      ensures ApartFrom(lists[p], Nodes(lists[i]))
      ensures ApartFrom(Half(lists[p], |lists|, false), Nodes(lists[i]))
      ensures ApartFrom(Half(lists[p], |lists|, true), Nodes(lists[i]))
    {
      BucketsApart(lists, i, p);
      HalfNodes(lists[p], |lists|, false);
      HalfNodes(lists[p], |lists|, true);
    }
  }

  lemma TableFacts(bucket: seq<Node?>, lists: seq<seq<Node>>)
    requires Table(bucket, lists)
    ensures Placed(lists) && |bucket| == |lists|
    ensures forall p: nat {:trigger lists[p]} | p < |lists| :: BucketOk(bucket[p], lists[p], |lists|, p)
  {
  }

  lemma DoubledTable(bucket': seq<Node?>, lists: seq<seq<Node>>)
    requires Placed(lists) && |bucket'| == 2 * |lists|
    requires forall p: nat {:trigger lists[p]} | p < |lists| ::
               Split(bucket'[p], bucket'[p + |lists|], Half(lists[p], |lists|, false), Half(lists[p], |lists|, true))
    ensures Table(bucket', Doubled(lists))
  {
    hide IsList, Half, All, InBucket;
    var lists', max := Doubled(lists), |lists|;
    DoubledPlaced(lists);
    forall p: nat {:trigger lists'[p]} | p < 2 * max
      ensures BucketOk(bucket'[p], lists'[p], 2 * max, p)
    {
      assert lists'[p] == Half(lists[if p < max then p else p - max], max, p >= max);
    }
  }

  /** tommy_hashdyn_resize to twice the size. */
  method Grow(bucket: seq<Node?>, ghost lists: seq<seq<Node>>) returns (bucket': seq<Node?>)
    requires Table(bucket, lists)
    modifies All(lists)
    ensures Table(bucket', Doubled(lists))
  {
    hide IsList, Half, InBucket, Table, Placed, All;
    TableFacts(bucket, lists);
    var max := |bucket|;
    bucket' := seq(2 * max, _ => null);
    var i := 0;
    while i < max
      invariant i <= max && |bucket'| == 2 * max
      invariant forall p: nat {:trigger lists[p]} | i <= p < max :: BucketOk(bucket[p], lists[p], max, p)
      invariant forall p: nat {:trigger lists[p]} | p < i ::
                  Split(bucket'[p], bucket'[p + max], Half(lists[p], max, false), Half(lists[p], max, true))
    {
      OnlyBucket(lists, i);
      BucketMeans(bucket[i], lists[i], max, i);
      ghost var region, before := Nodes(lists[i]), bucket';
      label L:
      var lower, upper := SplitBucket(bucket[i], i, max, lists[i]);
      forall p: nat {:trigger lists[p]} | i < p < max
        ensures BucketOk(bucket[p], lists[p], max, p)
      {
        assert old@L(BucketOk(bucket[p], lists[p], max, p)) && ApartFrom(lists[p], region);
      }
      forall p: nat {:trigger lists[p]} | p < i
        ensures Split(before[p], before[p + max], Half(lists[p], max, false), Half(lists[p], max, true))
      {
        assert old@L(Split(before[p], before[p + max], Half(lists[p], max, false), Half(lists[p], max, true)));
        assert ApartFrom(Half(lists[p], max, false), region) && ApartFrom(Half(lists[p], max, true), region);
      }
      bucket' := bucket'[i := lower][i + max := upper];
      i := i + 1;
    }
    DoubledTable(bucket', lists);
  }

  lemma BucketMeans(head: Node?, s: seq<Node>, max: nat, p: nat)
    requires max > 0 && BucketOk(head, s, max, p)
    ensures IsList(head, s) && InBucket(s, max, p)
  {
  }

  // ---------------------------------------------------------------------------------------------
  // Shrinking
  // ---------------------------------------------------------------------------------------------

  /** The lists of a table of half the size: upper lists are appended to lower ones. */
  ghost function Halved(lists: seq<seq<Node>>): (lists': seq<seq<Node>>)
    ensures |lists'| == |lists| / 2
  {
    seq(|lists| / 2, p requires 0 <= p < |lists| / 2 => lists[p] + lists[p + |lists| / 2])
  }

  lemma HalvedPlaced(lists: seq<seq<Node>>, half: nat)
    requires Placed(lists) && |lists| == 2 * half && half > 0
    ensures Placed(Halved(lists)) && All(Halved(lists)) == All(lists)
  {
    hide Placed, All;
    var lists' := Halved(lists);
    forall p: nat {:trigger lists'[p]} | p < half
      ensures InBucket(lists'[p], half, p)
    {
      forall n: Node | n in lists'[p]
        ensures n.index % half == p
      {
        HomeBucket(lists, if n in lists[p] then p else p + half, n);
        ModDouble(n.index, half);
      }
    }
    PlacedIs(lists');
    forall n | n in All(lists)
      ensures n in All(lists')
    {
      var p := Where(lists, n);
      assert n in lists'[if p < half then p else p - half];
    }
    forall n | n in All(lists')
      ensures n in All(lists)
    {
      var p := Where(lists', n);
      assert n in lists[p] || n in lists[p + half];
    }
    assert All(lists') == All(lists);
  }

  /** Shrinking keeps the nodes of each hash, in their order. */
  lemma HalvedLookup(lists: seq<seq<Node>>, half: nat, h: nat)
    requires Placed(lists) && |lists| == 2 * half && half > 0
    ensures Lookup(Halved(lists), h) == Lookup(lists, h)
  {
    hide Placed;
    var p := h % half;
    ModDouble(h, half);
    WithIndexConcat(lists[p], lists[p + half], h);
    var other := if h % (2 * half) == p then p + half else p;
    forall n | n in lists[other]
      ensures n.index != h
    {
      HomeBucket(lists, other, n);
    }
    WithIndexNone(lists[other], h);
  }

  lemma OnlyTwoBuckets(lists: seq<seq<Node>>, half: nat, i: nat)
    requires Placed(lists) && |lists| == 2 * half && i < half
    ensures Nodes(lists[i]) !! Nodes(lists[i + half]) && Nodes(lists[i]) + Nodes(lists[i + half]) <= All(lists)
    ensures forall p: nat {:trigger lists[p]} | p < |lists| && p != i && p != i + half ::
              ApartFrom(lists[p], Nodes(lists[i]) + Nodes(lists[i + half]))
    ensures forall p: nat {:trigger Halved(lists)[p]} | p < half && p != i ::
              ApartFrom(Halved(lists)[p], Nodes(lists[i]) + Nodes(lists[i + half]))
  {
    hide All, Placed;
    BucketsApart(lists, i, i + half);
    forall p: nat {:trigger lists[p]} | p < |lists| && p != i && p != i + half
      ensures ApartFrom(lists[p], Nodes(lists[i]) + Nodes(lists[i + half]))
    {
      BucketsApart(lists, i, p);
      BucketsApart(lists, i + half, p);
    }
    forall p: nat {:trigger Halved(lists)[p]} | p < half && p != i
      ensures ApartFrom(Halved(lists)[p], Nodes(lists[i]) + Nodes(lists[i + half]))
    {
      assert ApartFrom(lists[p], Nodes(lists[i]) + Nodes(lists[i + half]));
      assert ApartFrom(lists[p + half], Nodes(lists[i]) + Nodes(lists[i + half]));
    }
  }

  lemma HalvedTable(bucket': seq<Node?>, lists: seq<seq<Node>>, half: nat)
    requires Placed(lists) && |lists| == 2 * half && half > 0 && |bucket'| == half
    requires forall p: nat {:trigger Halved(lists)[p]} | p < half :: IsList(bucket'[p], Halved(lists)[p])
    ensures Table(bucket', Halved(lists))
  {
    hide IsList, All, Halved;
    HalvedPlaced(lists, half);
  }

  /** tommy_hashdyn_resize to half the size. */
  method Shrink(bucket: seq<Node?>, half: nat, ghost lists: seq<seq<Node>>) returns (bucket': seq<Node?>)
    requires Table(bucket, lists) && |bucket| == 2 * half && half > 0
    modifies All(lists)
    ensures Table(bucket', Halved(lists))
  {
    hide IsList, InBucket, Table, Placed, All, Halved;
    TableFacts(bucket, lists);
    HalvedIs(lists, half);
    bucket' := seq(half, _ => null);
    var i := 0;
    while i < half
      invariant i <= half && |bucket'| == half
      invariant forall p: nat {:trigger lists[p]} | i <= p < half || i + half <= p < 2 * half ::
                  BucketOk(bucket[p], lists[p], 2 * half, p)
      invariant forall p: nat {:trigger Halved(lists)[p]} | p < i :: IsList(bucket'[p], Halved(lists)[p])
    {
      OnlyTwoBuckets(lists, half, i);
      BucketMeans(bucket[i], lists[i], 2 * half, i);
      BucketMeans(bucket[i + half], lists[i + half], 2 * half, i + half);
      ghost var region, before := Nodes(lists[i]) + Nodes(lists[i + half]), bucket';
      label L:
      var list := Concat(bucket[i], bucket[i + half], lists[i], lists[i + half]);
      forall p: nat {:trigger lists[p]} | i < p < half || i + half < p < 2 * half
        ensures BucketOk(bucket[p], lists[p], 2 * half, p)
      {
        assert old@L(BucketOk(bucket[p], lists[p], 2 * half, p)) && ApartFrom(lists[p], region);
      }
      forall p: nat {:trigger Halved(lists)[p]} | p < i
        ensures IsList(before[p], Halved(lists)[p])
      {
        assert old@L(IsList(before[p], Halved(lists)[p])) && ApartFrom(Halved(lists)[p], region);
      }
      bucket' := bucket'[i := list];
      i := i + 1;
    }
    HalvedTable(bucket', lists, half);
  }

  lemma HalvedIs(lists: seq<seq<Node>>, half: nat)
    requires |lists| == 2 * half
    ensures |Halved(lists)| == half
    ensures forall p: nat {:trigger Halved(lists)[p]} | p < half :: Halved(lists)[p] == lists[p] + lists[p + half]
  {
  }

  // ---------------------------------------------------------------------------------------------
  // Inserting and removing
  // ---------------------------------------------------------------------------------------------

  /** Bucket p has another list. */
  lemma SetBucket(bucket: seq<Node?>, lists: seq<seq<Node>>, p: nat, head: Node?, s: seq<Node>)
    requires |bucket| == |lists| > 0 && p < |lists| && BucketOk(head, s, |lists|, p)
    requires forall q: nat {:trigger lists[q]} | q < |lists| && q != p :: BucketOk(bucket[q], lists[q], |lists|, q)
    ensures Table(bucket[p := head], lists[p := s])
  {
    hide BucketOk, All;
    var bucket', lists' := bucket[p := head], lists[p := s];
    forall q: nat {:trigger lists'[q]} | q < |lists|
      ensures BucketOk(bucket'[q], lists'[q], |lists|, q)
    {
      if q != p { assert lists'[q] == lists[q]; }
    }
  }

  lemma AddedContents(lists: seq<seq<Node>>, p: nat, node: Node)
    requires p < |lists|
    ensures All(lists[p := lists[p] + [node]]) == All(lists) + {node}
  {
    var lists' := lists[p := lists[p] + [node]];
    forall n | n in All(lists) + {node}
      ensures n in All(lists')
    {
      if n == node {
        assert n in lists'[p];
      } else {
        var q := Where(lists, n);
        assert n in lists'[q];
      }
    }
    forall n | n in All(lists')
      ensures n in All(lists) + {node}
    {
      var q := Where(lists', n);
      assert q != p ==> n in lists[q];
    }
  }

  lemma AddedLookup(lists: seq<seq<Node>>, node: Node, h: nat)
    requires |lists| > 0
    ensures var p := node.index % |lists|;
            Lookup(lists[p := lists[p] + [node]], h) == Lookup(lists, h) + if h == node.index then [node] else []
  {
    var p := node.index % |lists|;
    WithIndexConcat(lists[p], [node], h);
    assert [node][1..] == [];
  }

  lemma RemovedContents(lists: seq<seq<Node>>, p: nat, k: nat)
    requires Placed(lists) && p < |lists| && k < |lists[p]| && Distinct(lists[p])
    ensures All(lists[p := Without(lists[p], k)]) == All(lists) - {lists[p][k]}
  {
    var node, s' := lists[p][k], Without(lists[p], k);
    var lists' := lists[p := s'];
    forall n | n in All(lists')
      ensures n in All(lists) - {node}
    {
      var q := Where(lists', n);
      if q == p {
        var j :| 0 <= j < |s'| && s'[j] == n;
        assert n == lists[p][if j < k then j else j + 1];
      } else {
        BucketsApart(lists, p, q);
        assert node in Nodes(lists[p]) && n in Nodes(lists[q]);
      }
    }
    forall n | n in All(lists) - {node}
      ensures n in All(lists')
    {
      var q := Where(lists, n);
      if q == p {
        var j :| 0 <= j < |lists[p]| && lists[p][j] == n;
        assert s'[if j < k then j else j - 1] == n;
      }
      assert n in lists'[q];
    }
  }

  /** The node goes from the nodes with its hash; those of other hashes stay. */
  lemma RemovedLookup(lists: seq<seq<Node>>, p: nat, k: nat, h: nat)
    requires Placed(lists) && p < |lists| && k < |lists[p]|
    ensures var s, node := lists[p], lists[p][k];
            && Lookup(lists[p := Without(s, k)], h) ==
                 (if h == node.index then WithIndex(s[..k], h) + WithIndex(s[k + 1..], h) else Lookup(lists, h))
            && Lookup(lists, node.index) == WithIndex(s[..k], node.index) + [node] + WithIndex(s[k + 1..], node.index)
  {
    var s, node := lists[p], lists[p][k];
    HomeBucket(lists, p, node);
    assert s == s[..k] + ([node] + s[k + 1..]);
    WithIndexConcat(s[..k], s[k + 1..], h);
    WithIndexConcat(s[..k], [node] + s[k + 1..], h);
    WithIndexConcat([node], s[k + 1..], h);
    WithIndexConcat(s[..k], [node] + s[k + 1..], node.index);
    WithIndexConcat([node], s[k + 1..], node.index);
    assert [node][1..] == [];
  }

  lemma Loads(b: nat)
    requires b >= MIN_BIT
    ensures Pow2(b) == 8 * Pow2(b - 3) && Pow2(b + 1) == 2 * Pow2(b) && Pow2(b) == 2 * Pow2(b - 1) && Pow2(b - 3) >= 2
    ensures Pow2(b) / 2 == 4 * Pow2(b - 3) && Pow2(b) / 8 == Pow2(b - 3)
    ensures Pow2(b + 1) / 2 == 8 * Pow2(b - 3) && Pow2(b + 1) / 8 == 2 * Pow2(b - 3)
    ensures Pow2(b - 1) / 2 == 2 * Pow2(b - 3) && b > MIN_BIT ==> Pow2(b - 1) / 8 < Pow2(b - 3)
  {
    assert Pow2(b) == 2 * Pow2(b - 1) && Pow2(b - 1) == 2 * Pow2(b - 2) && Pow2(b - 2) == 2 * Pow2(b - 3);
    assert Pow2(b - 3) == 2 * Pow2(b - 4);
  }

  // ---------------------------------------------------------------------------------------------
  // The table
  // ---------------------------------------------------------------------------------------------

  class HashDyn {
    var bucketBit: nat
    var bucket: seq<Node?>
    var count: nat
    ghost var lists: seq<seq<Node>>

    constructor ()
      ensures Valid() && Contents() == {}
    {
      bucketBit := MIN_BIT;
      bucket := seq(Pow2(MIN_BIT), _ => null);
      count := 0;
      lists := seq(Pow2(MIN_BIT), _ => []);
    }

    ghost function Contents(): set<Node>
      reads this
    {
      All(lists)
    }

    /** The nodes with a hash, oldest first. */
    ghost function Find(h: nat): seq<Node>
      requires |lists| > 0
      reads this
    {
      Lookup(lists, h)
    }

    /** The table is less than half full, and more than an eighth full unless it has its smallest size. */
    ghost predicate Load()
      reads this
    {
      && count == |Contents()|
      && count < Pow2(bucketBit) / 2
      && (bucketBit > MIN_BIT ==> count > Pow2(bucketBit) / 8)
    }

    ghost predicate Valid()
      reads this, Contents()
    {
      && MIN_BIT <= bucketBit && |bucket| == Pow2(bucketBit) && Table(bucket, lists)
      && Load()
    }

    /** The node becomes the last of its bucket. */
    method PutNode(node: Node)
      requires Table(bucket, lists) && node !in Contents()
      modifies this, Contents(), node
      ensures Table(bucket, lists) && |bucket| == |old(bucket)| && bucketBit == old(bucketBit)
      ensures count == old(count) + 1 && Contents() == old(Contents()) + {node}
      ensures forall h {:trigger Find(h)} :: Find(h) == old(Find(h)) + if h == node.index then [node] else []
    {
      hide IsList, InBucket, Table, Placed, All, Lookup;
      TableFacts(bucket, lists);
      var pos := node.index % |bucket|;
      ghost var lists0, bucket0 := lists, bucket;
      InsertPrepares(lists, pos, node);
      BucketMeans(bucket[pos], lists[pos], |lists|, pos);
      label L:
      var head := InsertTail(bucket[pos], node, lists[pos]);
      forall q: nat {:trigger lists0[q]} | q < |lists0| && q != pos
        ensures BucketOk(bucket0[q], lists0[q], |lists0|, q)
      {
        assert old@L(BucketOk(bucket0[q], lists0[q], |lists0|, q)) && ApartFrom(lists0[q], Nodes(lists0[pos]) + {node});
      }
      bucket := bucket[pos := head];
      lists := lists[pos := lists[pos] + [node]];
      count := count + 1;
      SetBucket(bucket0, lists0, pos, head, lists[pos]);
      TableFacts(bucket, lists);
      AddedContents(lists0, pos, node);
      forall h {:trigger Lookup(lists, h)}
        ensures Lookup(lists, h) == Lookup(lists0, h) + if h == node.index then [node] else []
      {
        AddedLookup(lists0, node, h);
      }
    }

    /** tommy_hashdyn_insert: the node becomes the last of those with its hash. */
    method Insert(node: Node)
      requires Valid() && node !in Contents()
      modifies this, Contents(), node
      ensures Valid() && Contents() == old(Contents()) + {node}
      ensures bucketBit == old(bucketBit) + if count >= old(|bucket|) / 2 then 1 else 0
      ensures forall h {:trigger Find(h)} :: Find(h) == old(Find(h)) + if h == node.index then [node] else []
    {
      hide Table, All, Lookup, Pow2;
      Loads(bucketBit);
      PutNode(node);
      if count >= |bucket| / 2 {
        GrowTable();
      }
    }

    method GrowTable()
      requires Table(bucket, lists) && |bucket| == Pow2(bucketBit)
      modifies this, Contents()
      ensures Table(bucket, lists) && |bucket| == Pow2(bucketBit) && bucketBit == old(bucketBit) + 1
      ensures count == old(count) && Contents() == old(Contents())
      ensures forall h {:trigger Find(h)} :: Find(h) == old(Find(h))
    {
      hide IsList, InBucket, Table, Placed, All, Lookup;
      TableFacts(bucket, lists);
      DoubledPlaced(lists);
      forall h {:trigger Lookup(lists, h)} {:trigger Lookup(Doubled(lists), h)}
        ensures Lookup(Doubled(lists), h) == Lookup(lists, h)
      {
        DoubledLookup(lists, h);
      }
      bucket := Grow(bucket, lists);
      lists := Doubled(lists);
      bucketBit := bucketBit + 1;
      TableFacts(bucket, lists);
    }

    /** The k-th node of bucket pos is unlinked. */
    method DropNode(node: Node, pos: nat, ghost k: nat) returns (ghost i: nat)
      requires Table(bucket, lists) && pos < |bucket| == |lists| && k < |lists[pos]| && lists[pos][k] == node
               && count > 0
      modifies this, Contents()
      ensures Table(bucket, lists) && |bucket| == |old(bucket)| && bucketBit == old(bucketBit)
      ensures count == old(count) - 1 && Contents() == old(Contents()) - {node} && node in old(Contents())
      ensures forall h {:trigger Find(h)} | h != node.index :: Find(h) == old(Find(h))
      ensures i < |old(Find(node.index))| && old(Find(node.index))[i] == node
      ensures i == |WithIndex(old(lists)[pos][..k], node.index)|
      ensures Find(node.index) == Without(old(Find(node.index)), i)
    {
      hide IsList, InBucket, Table, Placed, All, Lookup, Distinct, WithIndex;
      TableFacts(bucket, lists);
      ghost var lists0, bucket0 := lists, bucket;
      RemovePrepares(bucket[pos], lists, pos, k);
      BucketMeans(bucket[pos], lists[pos], |lists|, pos);
      label L:
      var head := RemoveExisting(bucket[pos], node, lists[pos], k);
      forall q: nat {:trigger lists0[q]} | q < |lists0| && q != pos
        ensures BucketOk(bucket0[q], lists0[q], |lists0|, q)
      {
        assert old@L(BucketOk(bucket0[q], lists0[q], |lists0|, q)) && ApartFrom(lists0[q], Nodes(lists0[pos]));
      }
      bucket := bucket[pos := head];
      lists := lists[pos := Without(lists[pos], k)];
      count := count - 1;
      SetBucket(bucket0, lists0, pos, head, lists[pos]);
      TableFacts(bucket, lists);
      RemovedContents(lists0, pos, k);
      i := |WithIndex(lists0[pos][..k], node.index)|;
      forall h {:trigger Lookup(lists, h)} | h != node.index
        ensures Lookup(lists, h) == Lookup(lists0, h)
      {
        RemovedLookup(lists0, pos, k, h);
      }
      RemovedLookup(lists0, pos, k, node.index);
    }

    method ShrinkTable()
      requires Table(bucket, lists) && |bucket| == Pow2(bucketBit) && bucketBit > MIN_BIT
      modifies this, Contents()
      ensures Table(bucket, lists) && |bucket| == Pow2(bucketBit) && bucketBit == old(bucketBit) - 1
      ensures count == old(count) && Contents() == old(Contents())
      ensures forall h {:trigger Find(h)} :: Find(h) == old(Find(h))
    {
      hide IsList, InBucket, Table, Placed, All, Lookup, Halved, Pow2;
      TableFacts(bucket, lists);
      Loads(bucketBit);
      ghost var half := Pow2(bucketBit - 1);
      HalvedPlaced(lists, half);
      forall h {:trigger Lookup(lists, h)} {:trigger Lookup(Halved(lists), h)}
        ensures Lookup(Halved(lists), h) == Lookup(lists, h)
      {
        HalvedLookup(lists, half, h);
      }
      bucket := Shrink(bucket, |bucket| / 2, lists);
      lists := Halved(lists);
      bucketBit := bucketBit - 1;
      TableFacts(bucket, lists);
    }

    /** The table shrinks when it is no more than an eighth full. */
    method ShrinkStep()
      requires MIN_BIT <= bucketBit && Table(bucket, lists) && |bucket| == Pow2(bucketBit) && count == |Contents()|
      requires count < Pow2(bucketBit) / 2 && (bucketBit > MIN_BIT ==> count + 1 > Pow2(bucketBit) / 8)
      modifies this, Contents()
      ensures Valid() && Contents() == old(Contents())
      ensures bucketBit == old(bucketBit) - if count <= old(|bucket|) / 8 && old(bucketBit) > MIN_BIT then 1 else 0
      ensures forall h {:trigger Find(h)} :: Find(h) == old(Find(h))
    {
      hide Table, All, Lookup, Pow2;
      Loads(bucketBit);
      if count <= |bucket| / 8 && bucketBit > MIN_BIT {
        ShrinkTable();
      }
    }

    /** tommy_hashdyn_remove_existing: the i-th of the nodes with its hash goes; all others stay in order. */
    method RemoveNode(node: Node) returns (ghost i: nat)
      requires Valid() && node in Contents()
      modifies this, Contents()
      ensures Valid() && Contents() == old(Contents()) - {node}
      ensures bucketBit == old(bucketBit) - if count <= old(|bucket|) / 8 && old(bucketBit) > MIN_BIT then 1 else 0
      ensures forall h {:trigger Find(h)} | h != node.index :: Find(h) == old(Find(h))
      ensures i < |old(Find(node.index))| && old(Find(node.index))[i] == node
      ensures Find(node.index) == Without(old(Find(node.index)), i)
    {
      hide Table, All, Lookup, Pow2, InBucket, Placed;
      TableFacts(bucket, lists);
      var pos := node.index % |bucket|;
      ghost var k := Position(lists, node);
      i := DropNode(node, pos, k);
      ShrinkStep();
    }

    /** Walks a bucket for the first node with the hash that matches. */
    method Search(matches: int -> bool, h: nat) returns (r: Node?, ghost k: nat)
      requires Table(bucket, lists)
      ensures Table(bucket, lists)
      ensures r == null ==> forall n | n in Find(h) :: !matches(n.data)
      ensures r != null ==>
                && r.index == h && matches(r.data)
                && k < |lists[h % |lists|]| && lists[h % |lists|][k] == r
                && forall n | n in WithIndex(lists[h % |lists|][..k], h) :: !matches(n.data)
    {
      hide Table, All, Pow2, InBucket, Placed, WithIndex, IsList, Linked;
      TableFacts(bucket, lists);
      var pos := h % |bucket|;
      ghost var s := lists[pos];
      BucketMeans(bucket[pos], s, |lists|, pos);
      r, k := bucket[pos], 0;
      WalkStart(r, s);
      while r != null
        invariant k <= |s| && r == if k < |s| then s[k] else null
        invariant forall m | 0 <= m < k :: !(s[m].index == h && matches(s[m].data))
        invariant Table(bucket, lists)
        decreases |s| - k
      {
        if r.index == h && matches(r.data) {
          NoneBefore(s, k, h, matches);
          return;
        }
        WalkNext(bucket[pos], s, k);
        r := r.next;
        k := k + 1;
      }
      NoneBefore(s, k, h, matches);
      assert s[..k] == s;
    }

    /** tommy_hashdyn_remove: the first node with the hash that matches, if there is one. */
    method Remove(matches: int -> bool, h: nat) returns (r: Node?, ghost i: nat)
      requires Valid()
      modifies this, Contents()
      ensures Valid()
      ensures r == null ==>
                && (forall n | n in old(Find(h)) :: !matches(n.data))
                && Contents() == old(Contents()) && forall g {:trigger Find(g)} :: Find(g) == old(Find(g))
      ensures bucketBit == old(bucketBit)
                - if r != null && count <= old(|bucket|) / 8 && old(bucketBit) > MIN_BIT then 1 else 0
      ensures r != null ==>
                && r.index == h && matches(r.data) && Contents() == old(Contents()) - {r}
                && (forall g {:trigger Find(g)} | g != h :: Find(g) == old(Find(g)))
                && i < |old(Find(h))| && old(Find(h))[i] == r && Find(h) == Without(old(Find(h)), i)
                && forall j | 0 <= j < i :: !matches(old(Find(h))[j].data)
    {
      hide Table, All, Pow2, InBucket, Placed, WithIndex;
      TableFacts(bucket, lists);
      ghost var s, k := lists[h % |lists|], 0;
      r, k := Search(matches, h);
      if r == null {
        return r, 0;
      }
      Prefix(s, k, h);
      FoundContents(lists, h % |lists|, k);
      i := DropNode(r, h % |bucket|, k);
      ShrinkStep();
    }
  }

  lemma Prefix(s: seq<Node>, k: nat, h: nat)
    requires k <= |s|
    ensures WithIndex(s[..k], h) <= WithIndex(s, h)
  {
    assert s == s[..k] + s[k..];
    WithIndexConcat(s[..k], s[k..], h);
  }

  lemma RemovePrepares(head: Node?, lists: seq<seq<Node>>, pos: nat, k: nat)
    requires Placed(lists) && pos < |lists| && k < |lists[pos]| && BucketOk(head, lists[pos], |lists|, pos)
    ensures Nodes(lists[pos]) <= All(lists) && InBucket(Without(lists[pos], k), |lists|, pos) && Distinct(lists[pos])
    ensures lists[pos][k] in All(lists)
    ensures forall q: nat {:trigger lists[q]} | q < |lists| && q != pos :: ApartFrom(lists[q], Nodes(lists[pos]))
  {
    hide All;
    OnlyBucket(lists, pos);
    assert forall q, n | 0 <= q < |lists| && n in lists[q] :: n in All(lists);
  }

  lemma Position(lists: seq<seq<Node>>, node: Node) returns (k: nat)
    requires Placed(lists) && node in All(lists)
    ensures var pos := node.index % |lists|; k < |lists[pos]| && lists[pos][k] == node
    ensures |All(lists)| > 0
  {
    var p := Where(lists, node);
    HomeBucket(lists, p, node);
    k :| 0 <= k < |lists[p]| && lists[p][k] == node;
  }

  lemma FoundContents(lists: seq<seq<Node>>, pos: nat, k: nat)
    requires pos < |lists| && k < |lists[pos]|
    ensures lists[pos][k] in All(lists) && |All(lists)| > 0
  {
    assert lists[pos][k] in All(lists);
  }

  lemma WalkStart(head: Node?, s: seq<Node>)
    requires IsList(head, s)
    ensures head == if s == [] then null else s[0]
  {
  }

  lemma WalkNext(head: Node?, s: seq<Node>, k: nat)
    requires IsList(head, s) && k < |s|
    ensures s[k].next == if k + 1 < |s| then s[k + 1] else null
  {
    assert k + 1 < |s| ==> Link(s, k);
  }

  /** No node with the hash in the first part of a bucket matches. */
  lemma NoneBefore(s: seq<Node>, k: nat, h: nat, matches: int -> bool)
    requires k <= |s| && forall m | 0 <= m < k :: !(s[m].index == h && matches(s[m].data))
    ensures forall n | n in WithIndex(s[..k], h) :: !matches(n.data)
  {
    forall n | n in WithIndex(s[..k], h)
      ensures !matches(n.data)
    {
      WithIndexMembers(s[..k], h, n);
      var m :| 0 <= m < k && s[m] == n;
    }
  }

  lemma InsertPrepares(lists: seq<seq<Node>>, pos: nat, node: Node)
    requires Placed(lists) && pos < |lists| && pos == node.index % |lists| && node !in All(lists)
    ensures Nodes(lists[pos]) <= All(lists) && node !in lists[pos] && InBucket(lists[pos] + [node], |lists|, pos)
    ensures forall q: nat {:trigger lists[q]} | q < |lists| && q != pos ::
              ApartFrom(lists[q], Nodes(lists[pos]) + {node})
  {
    hide All;
    OnlyBucket(lists, pos);
    assert forall q, n | 0 <= q < |lists| && n in lists[q] :: n in All(lists);
    assert forall q: nat {:trigger lists[q]} | q < |lists| && q != pos :: ApartFrom(lists[q], Nodes(lists[pos]));
  }
}
