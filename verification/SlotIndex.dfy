/** Slots of a growing table: a map from ids to slots, and a chain of free slots to reuse first. */
module SlotIndex {

  /** ids[slot] is the id last stored in a slot; the free chain is listed from its head. */
  datatype Index = Index(ids: seq<nat>, slots: map<nat, nat>, free: seq<nat>)

  const EMPTY := Index([], map[], [])

  predicate DistinctBelow(s: seq<nat>, n: nat) {
    && (forall i | 0 <= i < |s| :: s[i] < n)
    && (forall i, j | 0 <= i < j < |s| :: s[i] != s[j])
  }

  predicate InUse(x: Index, slot: nat) {
    slot < |x.ids| && x.ids[slot] in x.slots && x.slots[x.ids[slot]] == slot
  }

  /** Each slot is either named by the map or in the free chain. */
  ghost predicate Ok(x: Index) {
    && DistinctBelow(x.free, |x.ids|)
    && (forall id | id in x.slots :: InUse(x, x.slots[id]) && x.slots[id] < |x.ids| && x.ids[x.slots[id]] == id)
    && (forall slot: nat {:trigger InUse(x, slot)} | slot < |x.ids| :: InUse(x, slot) <==> slot !in x.free)
    && |x.slots| + |x.free| == |x.ids|
  }

  lemma UseFacts(x: Index, slot: nat)
    requires InUse(x, slot)
    ensures slot < |x.ids| && x.ids[slot] in x.slots && x.slots[x.ids[slot]] == slot
  {
  }

  function NextSlot(x: Index): nat {
    if x.free != [] then x.free[0] else |x.ids|
  }

  function Insert(x: Index, id: nat): Index
    requires x.free != [] ==> x.free[0] < |x.ids|
  {
    if x.free != [] then
      Index(x.ids[x.free[0] := id], x.slots[id := x.free[0]], x.free[1..])
    else
      Index(x.ids + [id], x.slots[id := |x.ids|], [])
  }

  function Remove(x: Index, slot: nat): Index
    requires slot < |x.ids|
  {
    Index(x.ids, x.slots - {x.ids[slot]}, [slot] + x.free)
  }

  /** Inserting puts the new slot in use and no other. */
  lemma InsertUses(x: Index, id: nat)
    requires Ok(x) && id !in x.slots
    ensures !InUse(x, NextSlot(x)) && NextSlot(x) <= |x.ids|
    ensures var x', slot := Insert(x, id), NextSlot(x);
            && InUse(x', slot) && x'.ids[slot] == id && x'.slots == x.slots[id := slot]
            && |x'.ids| == (if x.free == [] then |x.ids| + 1 else |x.ids|)
            && (forall k: nat | k < |x.ids| && k != slot :: x'.ids[k] == x.ids[k])
            && (forall k: nat {:trigger InUse(x, k)} {:trigger InUse(x', k)} | k != slot ::
                 InUse(x', k) <==> InUse(x, k))
  {
    var x', slot := Insert(x, id), NextSlot(x);
    assert !InUse(x, slot) by { assert x.free != [] ==> slot in x.free; }
    forall k: nat {:trigger InUse(x', k)} | k != slot
      ensures InUse(x', k) <==> InUse(x, k)
    {
      if k < |x.ids| && x.ids[k] in x.slots { assert InUse(x, x.slots[x.ids[k]]); }
    }
  }

  /** No slot in use is given to a new id. */
  lemma InsertOk(x: Index, id: nat)
    requires Ok(x) && id !in x.slots
    ensures Ok(Insert(x, id))
  {
    var x', slot := Insert(x, id), NextSlot(x);
    InsertUses(x, id);
    hide InUse;
    assert DistinctBelow(x'.free, |x'.ids|) && slot !in x'.free by {
      assert forall k | 0 <= k < |x'.free| :: x'.free[k] == x.free[k + 1];
    }
    assert x.free != [] ==> x.free == [slot] + x'.free;
    forall i | i in x'.slots
      ensures InUse(x', x'.slots[i]) && x'.slots[i] < |x'.ids| && x'.ids[x'.slots[i]] == i
    {
      if i != id { assert InUse(x, x.slots[i]); }
    }
  }

  lemma RemoveOk(x: Index, slot: nat)
    requires Ok(x) && InUse(x, slot)
    ensures var x' := Remove(x, slot);
            && Ok(x') && !InUse(x', slot) && x'.ids == x.ids && x'.slots == x.slots - {x.ids[slot]}
            && (forall k: nat {:trigger InUse(x, k)} {:trigger InUse(x', k)} | k != slot ::
                 InUse(x', k) <==> InUse(x, k))
  {
    var x' := Remove(x, slot);
    assert forall k | 0 < k < |x'.free| :: x'.free[k] == x.free[k - 1];
    assert slot !in x.free;
    assert |x'.slots| == |x.slots| - 1;
    forall k: nat {:trigger InUse(x', k)} | k != slot
      ensures InUse(x', k) <==> InUse(x, k)
    {
    }
    forall i | i in x'.slots
      ensures InUse(x', x'.slots[i]) && x'.ids[x'.slots[i]] == i
    {
      assert InUse(x, x.slots[i]);
    }
  }

  lemma {:induction false} DistinctShort(s: seq<nat>, n: nat)
    requires DistinctBelow(s, n)
    ensures |s| <= n
    decreases n
  {
    if s != [] {
      assert s[0] < n;
      var t := Squeeze(s, n - 1);
      DistinctShort(t, n - 1);
    }
  }

  /** Drops the largest value. */
  lemma Squeeze(s: seq<nat>, m: nat) returns (t: seq<nat>)
    requires DistinctBelow(s, m + 1)
    ensures DistinctBelow(t, m) && |t| >= |s| - 1
  {
    if m in s {
      var k :| 0 <= k < |s| && s[k] == m;
      t := s[..k] + s[k + 1..];
      assert forall i | 0 <= i < |t| :: t[i] == s[if i < k then i else i + 1];
    } else {
      t := s;
    }
  }
}
