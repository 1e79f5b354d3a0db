/** Chains of doubly linked nodes, merged and sorted by relinking them in place. */
module TommyChain {
  import opened Sequences
  import opened StableSort

  datatype Chain = Chain(head: Node?, tail: Node?)

  ghost predicate Link(s: seq<Node>, i: int)
    requires 0 <= i < |s| - 1
    reads s
  {
    s[i].next == s[i + 1] && s[i + 1].prev == s[i]
  }

  /** Inner links only: the tail's next and the head's prev are unspecified. */
  ghost predicate Linked(s: seq<Node>)
    reads s
  {
    forall i {:trigger Link(s, i)} | 0 <= i < |s| - 1 :: Link(s, i)
  }

  ghost predicate IsChain(c: Chain, s: seq<Node>)
    reads s
  {
    && s != [] && Distinct(s) && Linked(s)
    && c.head == s[0] && c.tail == s[|s| - 1]
  }

  lemma LinkedParts(x: seq<Node>, y: seq<Node>)
    requires Linked(x + y)
    ensures Linked(x) && Linked(y)
    ensures x != [] && y != [] ==> x[|x| - 1].next == y[0] && y[0].prev == x[|x| - 1]
  {
    var s := x + y;
    forall i {:trigger Link(x, i)} | 0 <= i < |x| - 1
      ensures Link(x, i)
    {
      assert Link(s, i);
    }
    forall i {:trigger Link(y, i)} | 0 <= i < |y| - 1
      ensures Link(y, i)
    {
      assert Link(s, |x| + i);
    }
    assert x != [] && y != [] ==> Link(s, |x| - 1);
  }

  lemma LinkedJoin(x: seq<Node>, y: seq<Node>)
    requires Linked(x) && Linked(y)
    requires x != [] && y != [] ==> x[|x| - 1].next == y[0] && y[0].prev == x[|x| - 1]
    ensures Linked(x + y)
  {
    var s := x + y;
    forall i {:trigger Link(s, i)} | 0 <= i < |s| - 1
      ensures Link(s, i)
    {
      if i + 1 < |x| { assert Link(x, i); }
      if i >= |x| { assert Link(y, i - |x|); }
    }
  }

  /** Links of s survive writes to the outer links of its ends. */
  twostate lemma OuterWrites(s: seq<Node>)
    requires old(Linked(s)) && Distinct(s)
    requires forall i | 0 <= i < |s| ::
               (i > 0 ==> s[i].prev == old(s[i].prev)) && (i < |s| - 1 ==> s[i].next == old(s[i].next))
    ensures Linked(s)
  {
    forall i {:trigger Link(s, i)} | 0 <= i < |s| - 1
      ensures Link(s, i)
    {
      assert old(Link(s, i));
    }
  }

  /** Concatenates two chains. */
  method ChainConcat(firstTail: Node, secondHead: Node, ghost x: seq<Node>, ghost y: seq<Node>)
    requires Linked(x) && Linked(y) && Distinct(x + y) && x != [] && y != []
    requires firstTail == x[|x| - 1] && secondHead == y[0]
    modifies firstTail`next, secondHead`prev
    ensures Linked(x + y)
  {
    assert (x + y)[|x| - 1] == firstTail && (x + y)[|x|] == secondHead;
    assert forall i | 0 <= i < |x| :: x[i] == (x + y)[i];
    assert forall i | 0 <= i < |y| :: y[i] == (x + y)[|x| + i];
    secondHead.prev := firstTail;
    firstTail.next := secondHead;
    OuterWrites(x);
    OuterWrites(y);
    LinkedJoin(x, y);
  }

  /** Splices a chain z between the two parts of a chain x + y. */
  method ChainSplice(firstBefore: Node, firstAfter: Node, secondHead: Node, secondTail: Node,
                     ghost x: seq<Node>, ghost y: seq<Node>, ghost z: seq<Node>)
    requires Linked(x + y) && Linked(z) && Distinct(x + z + y) && x != [] && y != [] && z != []
    requires firstBefore == x[|x| - 1] && firstAfter == y[0] && secondHead == z[0] && secondTail == z[|z| - 1]
    modifies firstBefore`next, firstAfter`prev, secondHead`prev, secondTail`next
    ensures Linked(x + z + y)
  {
    ghost var s := x + z + y;
    LinkedParts(x, y);
    assert forall i | 0 <= i < |x| :: x[i] == s[i];
    assert forall i | 0 <= i < |z| :: z[i] == s[|x| + i];
    assert forall i | 0 <= i < |y| :: y[i] == s[|x| + |z| + i];
    firstAfter.prev := secondTail;
    secondHead.prev := firstBefore;
    firstBefore.next := secondHead;
    secondTail.next := firstAfter;
    OuterWrites(x);
    OuterWrites(y);
    OuterWrites(z);
    LinkedJoin(x, z);
    LinkedJoin(x + z, y);
  }

  lemma DistinctMove(x: seq<Node>, y: seq<Node>, z: Node, w: seq<Node>)
    requires Distinct(x + y + ([z] + w))
    ensures Distinct(x + [z] + y + w) && Distinct(x + [z] + y) && Distinct(x + y)
  {
    var s, t := x + y + ([z] + w), x + [z] + y + w;
    assert forall i | 0 <= i < |t| ::
      t[i] == s[if i < |x| then i else if i == |x| then |x| + |y| else if i <= |x| + |y| then i - 1 else i];
    assert forall i | 0 <= i < |x| + 1 + |y| :: (x + [z] + y)[i] == t[i];
    assert forall i | 0 <= i < |x| + |y| :: (x + y)[i] == s[i];
  }

  lemma HeadOnlyWhenEmpty(done: seq<Node>, y: seq<Node>, z: Node)
    requires Distinct(done + y) && y != [] && y[0] == (done + y)[0]
    ensures done == [] && done + y == y && done + [z] + y == [z] + y
  {
    assert (done + y)[|done|] == y[0];
  }

  /** The nodes written when z[0] is moved are not those that stay behind. */
  lemma TakePrepares(done: seq<Node>, y: seq<Node>, z: seq<Node>)
    requires Distinct(done + y + z) && y != [] && z != []
    ensures Distinct(done + [z[0]] + y + z[1..]) && Distinct(done + [z[0]] + y) && Distinct(z[1..])
            && Distinct(done + y)
    ensures z == [z[0]] + z[1..] && z[0] in done + y + z && y[0] in done + y + z
    ensures done != [] ==> done[|done| - 1] in done + y + z
    ensures forall i | 0 <= i < |z[1..]| ::
              z[1..][i] != z[0] && z[1..][i] != y[0] && (done != [] ==> z[1..][i] != done[|done| - 1])
  {
    var s := done + y + z;
    assert z == [z[0]] + z[1..];
    DistinctMove(done, y, z[0], z[1..]);
    assert forall i | 0 <= i < |z[1..]| :: z[1..][i] == s[|done| + |y| + 1 + i];
    assert s[|done| + |y|] == z[0] && s[|done|] == y[0] && (done != [] ==> s[|done| - 1] == done[|done| - 1]);
  }

  /** Moves the head of the second chain in front of the current node of the first. */
  method TakeSecond(head: Node, firstI: Node, secondI: Node, ghost done: seq<Node>, ghost y: seq<Node>,
                    ghost z: seq<Node>,
                    ghost region: set<Node>)
    returns (head': Node)
    requires y != [] && z != [] && firstI == y[0] && secondI == z[0] && head == (done + y)[0]
    requires Distinct(done + y + z) && Linked(done + y) && Linked(z)
    requires forall n | n in done + y + z :: n in region
    modifies region
    ensures Distinct(done + [z[0]] + y + z[1..]) && Linked(done + [z[0]] + y) && Linked(z[1..])
    ensures head' == (done + [z[0]] + y)[0]
  {
    hide Distinct, Linked;
    TakePrepares(done, y, z);
    LinkedParts([z[0]], z[1..]);
    head' := head;
    if firstI == head {
      HeadOnlyWhenEmpty(done, y, z[0]);
      ChainConcat(secondI, firstI, [z[0]], y);
      head' := secondI;
    } else {
      LinkedParts(done, y);
      ChainSplice(firstI.prev, firstI, secondI, secondI, done, y, [z[0]]);
    }
    OuterWrites(z[1..]);
  }

  /** The merge so far: what it will result in when the rests y and z are merged. */
  ghost predicate Merging(done: seq<Node>, y: seq<Node>, z: seq<Node>, cmp: Compare, m: seq<Node>, region: set<Node>) {
    && Distinct(done + y + z) && (forall n | n in done + y + z :: n in region)
    && done + Merge(y, z, cmp) == m
  }

  /** Merges two chains, whose nodes are all in the region. */
  method ChainMerge(first: Chain, second: Chain, cmp: Compare, ghost a: seq<Node>, ghost b: seq<Node>,
                    ghost region: set<Node>)
    returns (r: Chain)
    requires IsChain(first, a) && IsChain(second, b) && Distinct(a + b)
    requires forall n | n in a + b :: n in region
    modifies region
    ensures IsChain(r, Merge(a, b, cmp))
  {
    hide Merge, Merging, Distinct, Linked;
    var head: Node, tail := first.head, first.tail;
    var firstI: Node, secondI: Node := first.head, second.head;
    ghost var done: seq<Node> := [];
    ghost var y, z := a, b;
    ghost var m := Merge(a, b, cmp);
    MergeStart(a, b, cmp, region);
    while true
      invariant y != [] && z != [] && firstI == y[0] && secondI == z[0]
      invariant Merging(done, y, z, cmp, m, region) && Linked(done + y) && Linked(z)
      invariant head == (done + y)[0] && tail == y[|y| - 1] && second.tail == z[|z| - 1]
      decreases |y| + |z|
    {
      if cmp(firstI.data, secondI.data) > 0 {
        SecondNext(done, y, z, cmp, m, region);
        var next := secondI.next;
        head := TakeSecond(head, firstI, secondI, done, y, z, region);
        if secondI == second.tail {
          break;
        }
        done, z := done + [z[0]], z[1..];
        secondI := next;
      } else {
        FirstNext(done, y, z, cmp, m, region);
        if firstI == tail {
          ChainConcat(firstI, secondI, done + y, z);
          tail := second.tail;
          break;
        }
        firstI := firstI.next;
        done, y := done + [y[0]], y[1..];
      }
    }
    r := Chain(head, tail);
  }

  lemma MergeStart(a: seq<Node>, b: seq<Node>, cmp: Compare, region: set<Node>)
    requires Distinct(a + b) && forall n | n in a + b :: n in region
    ensures Merging([], a, b, cmp, Merge(a, b, cmp), region) && [] + a == a
  {
    hide Merge, Distinct;
    assert [] + a == a && [] + a + b == a + b;
    assert [] + Merge(a, b, cmp) == Merge(a, b, cmp);
  }

  /** The second chain's node is moved: that chain goes on, or the merge is complete. */
  lemma SecondNext(done: seq<Node>, y: seq<Node>, z: seq<Node>, cmp: Compare, m: seq<Node>, region: set<Node>)
    requires Merging(done, y, z, cmp, m, region) && Linked(z)
    requires y != [] && z != [] && cmp(y[0].data, z[0].data) > 0
    ensures Distinct(done + y + z) && forall n | n in done + y + z :: n in region
    ensures if z[0] != z[|z| - 1] then
              && z[1..] != [] && z[0].next == z[1..][0] && z[1..][|z[1..]| - 1] == z[|z| - 1]
              && Merging(done + [z[0]], y, z[1..], cmp, m, region)
            else done + [z[0]] + y == m && Distinct(m) && m[|m| - 1] == y[|y| - 1]
  {
    hide Merge, Distinct, Linked;
    TakePrepares(done, y, z);
    SecondStep(done, y, z, cmp);
    assert done + y + z + [] == done + y + z;
    EndsDiffer(done + y, z, []);
    LinkedParts([z[0]], z[1..]);
    forall n | n in done + [z[0]] + y + z[1..]
      ensures n in region
    {
      assert n in done + y + z;
    }
  }

  /** The first chain's node stays: that chain goes on, or the rest of the second follows it. */
  lemma FirstNext(done: seq<Node>, y: seq<Node>, z: seq<Node>, cmp: Compare, m: seq<Node>, region: set<Node>)
    requires Merging(done, y, z, cmp, m, region) && Linked(done + y)
    requires y != [] && z != [] && cmp(y[0].data, z[0].data) <= 0
    ensures if y[0] != y[|y| - 1] then
              && y[1..] != [] && y[0].next == y[1..][0] && y[1..][|y[1..]| - 1] == y[|y| - 1]
              && done + [y[0]] + y[1..] == done + y
              && Merging(done + [y[0]], y[1..], z, cmp, m, region)
            else
              && done + y + z == m && Distinct(m) && y[0] in region && z[0] in region
              && (done + y)[|done + y| - 1] == y[0] && m[0] == (done + y)[0] && m[|m| - 1] == z[|z| - 1]
  {
    hide Merge, Distinct, Linked;
    FirstStep(done, y, z, cmp);
    EndsDiffer(done, y, z);
    LinkedParts(done, y);
    Touching(done, y, z);
    assert y == [y[0]] + y[1..];
    LinkedParts([y[0]], y[1..]);
  }

  lemma Touching(done: seq<Node>, y: seq<Node>, z: seq<Node>)
    requires y != [] && z != []
    ensures (done + y)[|done + y| - 1] == y[|y| - 1]
    ensures y[|y| - 1] in done + y + z && z[0] in done + y + z
    ensures (done + y + z)[0] == (done + y)[0] && (done + y + z)[|done + y + z| - 1] == z[|z| - 1]
  {
    assert (done + y + z)[|done| + |y| - 1] == y[|y| - 1] && (done + y + z)[|done| + |y|] == z[0];
  }

  /** In a chain of distinct nodes, the first node of a part is its last only when it is the only one. */
  lemma EndsDiffer(x: seq<Node>, y: seq<Node>, z: seq<Node>)
    requires Distinct(x + y + z) && y != []
    ensures y[0] == y[|y| - 1] <==> y[1..] == []
  {
    assert (x + y + z)[|x|] == y[0] && (x + y + z)[|x| + |y| - 1] == y[|y| - 1];
  }

  /** One step of the merge that takes from the second chain, on sequences. */
  lemma SecondStep(done: seq<Node>, y: seq<Node>, z: seq<Node>, cmp: Compare)
    requires y != [] && z != [] && cmp(y[0].data, z[0].data) > 0
    ensures done + Merge(y, z, cmp) == done + [z[0]] + Merge(y, z[1..], cmp)
    ensures z[1..] == [] ==> done + Merge(y, z, cmp) == done + [z[0]] + y
  {
    hide Merge;
    MergeUnfold(y, z, cmp);
    MergeUnfold(y, z[1..], cmp);
  }

  lemma FirstStep(done: seq<Node>, y: seq<Node>, z: seq<Node>, cmp: Compare)
    requires y != [] && z != [] && cmp(y[0].data, z[0].data) <= 0
    ensures done + Merge(y, z, cmp) == done + [y[0]] + Merge(y[1..], z, cmp)
    ensures y[1..] == [] ==> done + Merge(y, z, cmp) == done + y + z
    ensures done + y == (done + [y[0]]) + y[1..] && done + y + z == (done + [y[0]]) + y[1..] + z
  {
    hide Merge;
    MergeUnfold(y, z, cmp);
    MergeUnfold(y[1..], z, cmp);
    assert y == [y[0]] + y[1..];
  }

  /** The merge with its shortcuts for chains that are already in order. */
  method ChainMergeDegenerated(first: Chain, second: Chain, cmp: Compare,
                               ghost a: seq<Node>, ghost b: seq<Node>, ghost region: set<Node>)
    returns (r: Chain)
    requires IsChain(first, a) && IsChain(second, b) && Distinct(a + b)
    requires TotalPreorder(cmp) && Sorted(a, cmp) && Sorted(b, cmp)
    requires forall n | n in a + b :: n in region
    modifies region
    ensures IsChain(r, Merge(a, b, cmp))
  {
    hide TotalPreorder, Sorted, Merge;
    assert a[|a| - 1] in a + b && b[|b| - 1] in a + b && a[0] in a + b && b[0] in a + b;
    if cmp(first.tail.data, second.head.data) <= 0 {
      MergeAppends(a, b, cmp);
      ChainConcat(first.tail, second.head, a, b);
      return Chain(first.head, second.tail);
    }
    if cmp(second.tail.data, first.head.data) < 0 {
      MergePrepends(a, b, cmp);
      DistinctSwap(a, b);
      ChainConcat(second.tail, first.head, b, a);
      return Chain(second.head, first.tail);
    }
    r := ChainMerge(first, second, cmp, a, b, region);
  }

  lemma DistinctSwap(a: seq<Node>, b: seq<Node>)
    requires Distinct(a + b)
    ensures Distinct(b + a)
  {
    assert forall i | 0 <= i < |a| + |b| :: (b + a)[i] == (a + b)[if i < |b| then |a| + i else i - |b|];
  }
}
