/** Lists with one pointer to the head: `prev` is circular, `next` ends in null. */
module TommyList {
  import opened Bits
  import opened MergeSort
  import opened Sequences
  import opened StableSort
  import opened TommyChain

  ghost predicate IsList(list: Node?, s: seq<Node>)
    reads s
  {
    if s == [] then list == null
    else
      && Distinct(s) && Linked(s)
      && list == s[0] && s[0].prev == s[|s| - 1] && s[|s| - 1].next == null
  }

  lemma DistinctJoin(x: seq<Node>, y: seq<Node>)
    requires Distinct(x) && Distinct(y) && Nodes(x) !! Nodes(y)
    ensures Distinct(x + y)
  {
    DistinctUnion(x, y);
  }

  method Tail(list: Node?, ghost s: seq<Node>) returns (tail: Node?)
    requires IsList(list, s)
    ensures tail == if s == [] then null else s[|s| - 1]
  {
    if list == null {
      return null;
    }
    tail := list.prev;
  }

  method InsertFirst(node: Node) returns (list: Node)
    modifies node
    ensures IsList(list, [node])
  {
    node.prev := node;
    node.next := null;
    list := node;
  }

  method InsertHead(list: Node?, node: Node, ghost s: seq<Node>) returns (list': Node)
    requires IsList(list, s) && node !in s
    modifies Nodes(s) + {node}
    ensures IsList(list', [node] + s)
  {
    if list == null {
      list' := InsertFirst(node);
      assert [node] + s == [node];
      return;
    }
    node.prev := list.prev;
    list.prev := node;
    node.next := list;
    list' := node;
    OuterWrites(s);
    DistinctJoin([node], s);
    LinkedJoin([node], s);
  }

  method InsertTail(list: Node?, node: Node, ghost s: seq<Node>) returns (list': Node)
    requires IsList(list, s) && node !in s
    modifies Nodes(s) + {node}
    ensures IsList(list', s + [node])
  {
    if list == null {
      list' := InsertFirst(node);
      assert s + [node] == [node];
      return;
    }
    list' := list;
    node.prev := list.prev;
    list.prev := node;
    node.next := null;
    node.prev.next := node;
    OuterWrites(s);
    DistinctJoin(s, [node]);
    LinkedJoin(s, [node]);
  }

  lemma WithoutDistinct(s: seq<Node>, k: nat)
    requires k < |s| && Distinct(s)
    ensures Distinct(s[..k] + s[k + 1..])
  {
    var t := s[..k] + s[k + 1..];
    assert forall i | 0 <= i < |t| :: t[i] == s[if i < k then i else i + 1];
  }

  lemma Parts(s: seq<Node>, k: nat)
    requires k < |s| && Linked(s)
    ensures s == s[..k] + [s[k]] + s[k + 1..]
    ensures Linked(s[..k]) && Linked(s[k + 1..])
    ensures k > 0 ==> s[k].prev == s[k - 1]
    ensures k + 1 < |s| ==> s[k].next == s[k + 1]
  {
    hide Linked;
    var x, y := s[..k], s[k + 1..];
    assert s == x + ([s[k]] + y);
    LinkedParts(x, [s[k]] + y);
    LinkedParts([s[k]], y);
  }

  /** Unlinks the node, wherever it is in the list. */
  method RemoveExisting(list: Node?, node: Node, ghost s: seq<Node>, ghost k: nat) returns (list': Node?)
    requires IsList(list, s) && k < |s| && s[k] == node
    modifies Nodes(s)
    ensures IsList(list', s[..k] + s[k + 1..])
    ensures node.next == old(node.next)
  {
    ghost var x, y, t := s[..k], s[k + 1..], s[..k] + s[k + 1..];
    Parts(s, k);
    WithoutDistinct(s, k);
    list' := list;
    if node.next != null {
      node.next.prev := node.prev;
    } else {
      list.prev := node.prev;
    }
    if list == node {
      list' := node.next;
    } else {
      node.prev.next := node.next;
    }
    OuterWrites(x);
    OuterWrites(y);
    LinkedJoin(x, y);
    assert t != [] ==> t[0] == (if k == 0 then s[1] else s[0]);
    assert t != [] ==> t[|t| - 1] == (if k == |s| - 1 then s[k - 1] else s[|s| - 1]);
  }

  /** Appends the second list to the first; the second list value must not be used any more. */
  method Concat(first: Node?, second: Node?, ghost x: seq<Node>, ghost y: seq<Node>) returns (list: Node?)
    requires IsList(first, x) && IsList(second, y) && Nodes(x) !! Nodes(y)
    modifies Nodes(x) + Nodes(y)
    ensures IsList(list, x + y)
  {
    if second == null {
      assert x + y == x;
      return first;
    }
    if first == null {
      assert x + y == y;
      return second;
    }
    assert x[0] in x && y[0] in y && x[|x| - 1] in Nodes(x) && y[|y| - 1] in Nodes(y) && x[0] in Nodes(x)
           && y[0] in Nodes(y);
    var firstTail := first.prev;
    first.prev := second.prev;
    second.prev := firstTail;
    firstTail.next := second;
    list := first;
    DistinctJoin(x, y);
    OuterWrites(x);
    OuterWrites(y);
    LinkedJoin(x, y);
  }

  /** Counts by walking the null-terminated `next` links. */
  method Count(list: Node?, ghost s: seq<Node>) returns (count: nat)
    requires IsList(list, s)
    ensures count == |s|
  {
    count := 0;
    var i := list;
    while i != null
      invariant count <= |s|
      invariant i == if count < |s| then s[count] else null
      decreases |s| - count
    {
      assert count + 1 < |s| ==> Link(s, count);
      count := count + 1;
      i := i.next;
    }
  }

  /** Makes a list of a chain. */
  method Set(head: Node, tail: Node, ghost s: seq<Node>) returns (list: Node)
    requires IsChain(Chain(head, tail), s)
    modifies head`prev, tail`next
    ensures IsList(list, s)
  {
    head.prev := tail;
    tail.next := null;
    list := head;
    OuterWrites(s);
  }

  /** Sorts the list in place. */
  method Sort(list: Node?, cmp: Compare, ghost s: seq<Node>) returns (list': Node?, ghost r: seq<Node>)
    requires IsList(list, s) && TotalPreorder(cmp) && |s| < Pow2(BUCKETS)
    modifies Nodes(s)
    ensures IsList(list', r) && IsStableSort(s, r, cmp)
  {
    if list == null {
      return null, s;
    }
    var chain := Chain(list, list.prev);
    chain, r := ChainMergesort(chain, cmp, s);
    StableNodes(s, r, cmp);
    assert r[0] in Nodes(r) && r[|r| - 1] in Nodes(r);
    list' := Set(chain.head, chain.tail, r);
  }
}
