/** The index from program paths to their flags, with reuse of node slots. */
module ExeMap {
  import opened Sequences
  import opened Widths
  import opened Wrappers
  import SlotIndex

  type Path = seq<nat>

  datatype Flags = Flags(groupIndex: nat, useGroupPerm: bool, blocked: bool, alerted: bool, isNew: bool, found: bool)

  const NO_FLAGS := Flags(0, false, false, false, false, false)

  datatype Entry = Entry(path: Path, flags: Flags)

  datatype Status = Added | Replaced | UserError | NoResources

  /**
    * nodes: the slots handed out so far; free: those given back, last first; buckets: for each hash, the
    * slots of the nodes with it, oldest first.
    */
  datatype Index = Index(nodes: seq<Entry>, free: seq<nat>, buckets: map<nat, seq<nat>>)

  /** How far the slot is behind the base, going round at 2^16. */
  function Offset(base: nat, slot: nat): int {
    if slot >= base then slot - base else slot + U16 - base
  }

  /** One of the first n slots from the base on, with a node. */
  predicate Handed(x: Index, base: nat, n: nat, slot: nat) {
    slot < U16 && Offset(base, slot) < n && slot < |x.nodes|
  }

  ghost predicate PathOk(x: Index, slots: map<Path, nat>, hash: Path -> nat, base: nat, p: Path) {
    p in slots ==>
      && Handed(x, base, |slots| + |x.free|, slots[p]) && x.nodes[slots[p]].path == p && slots[p] !in x.free
      && hash(p) in x.buckets && slots[p] in x.buckets[hash(p)]
  }

  ghost predicate BucketOk(x: Index, slots: map<Path, nat>, hash: Path -> nat, h: nat) {
    h in x.buckets ==>
      && Distinct(x.buckets[h])
      && forall s | s in x.buckets[h] ::
           s < |x.nodes| && x.nodes[s].path in slots && slots[x.nodes[s].path] == s && hash(x.nodes[s].path) == h
  }

  /** Known paths and free nodes have slots of their own, among those handed out from the base on. */
  ghost predicate Ok(x: Index, slots: map<Path, nat>, hash: Path -> nat, base: nat) {
    && base < U16
    && (forall p {:trigger PathOk(x, slots, hash, base, p)} :: PathOk(x, slots, hash, base, p))
    && (forall h {:trigger BucketOk(x, slots, hash, h)} :: BucketOk(x, slots, hash, h))
    && Distinct(x.free) && (forall f | f in x.free :: Handed(x, base, |slots| + |x.free|, f))
  }

  /** The 16-bit slot counter. */
  function Counter(base: nat, live: nat): nat {
    (base + live) % U16
  }

  ghost function View(x: Index, slots: map<Path, nat>): map<Path, Flags> {
    map p | p in slots && slots[p] < |x.nodes| :: x.nodes[slots[p]].flags
  }

  /** What adding an entry does to the plain map. */
  function AddTo(m: map<Path, Flags>, path: Path, flags: Flags): map<Path, Flags> {
    if path in m && flags.isNew then m else m[path := flags]
  }

  function AddAll(m: map<Path, Flags>, entries: seq<Entry>): map<Path, Flags>
    decreases |entries|
  {
    if entries == [] then m
    else
      var n := |entries| - 1;
      AddTo(AddAll(m, entries[..n]), entries[n].path, entries[n].flags)
  }

  /** The entry that decides the flags of a path: the last one not marked as new behind its first, or else that. */
  ghost predicate Decides(entries: seq<Entry>, path: Path, i: nat) {
    && i < |entries| && entries[i].path == path
    && (entries[i].flags.isNew ==> forall j | 0 <= j < i :: entries[j].path != path)
    && (forall j | i < j < |entries| && entries[j].path == path :: entries[j].flags.isNew)
  }

  /** After adding entries to an empty map, exactly their paths are known. */
  lemma {:induction false} AddAllPaths(entries: seq<Entry>, path: Path)
    ensures path in AddAll(map[], entries) <==> exists i :: 0 <= i < |entries| && entries[i].path == path
    decreases |entries|
  {
    if entries != [] {
      var n := |entries| - 1;
      AddAllPaths(entries[..n], path);
      assert forall i | 0 <= i < n :: entries[..n][i] == entries[i];
      assert entries[n].path == path ==> path in AddAll(map[], entries);
    }
  }

  /** Each path has the flags of the entry that decides them. */
  lemma {:induction false} AddAllLast(entries: seq<Entry>, path: Path) returns (i: nat)
    requires path in AddAll(map[], entries)
    ensures Decides(entries, path, i) && AddAll(map[], entries)[path] == entries[i].flags
    decreases |entries|
  {
    var n := |entries| - 1;
    var before := entries[..n];
    AddAllPaths(before, path);
    assert forall k | 0 <= k < n :: before[k] == entries[k];
    if entries[n].path == path && (!entries[n].flags.isNew || path !in AddAll(map[], before)) {
      i := n;
    } else {
      i := AddAllLast(before, path);
    }
  }

  /** No path has two entries that decide its flags. */
  lemma OneDecides(entries: seq<Entry>, path: Path, i: nat, j: nat)
    requires Decides(entries, path, i) && Decides(entries, path, j)
    ensures i == j
  {
  }

  // ---------------------------------------------------------------------------------------------
  // Steps on the index
  // ---------------------------------------------------------------------------------------------

  lemma ViewKeys(x: Index, slots: map<Path, nat>, hash: Path -> nat, base: nat)
    requires Ok(x, slots, hash, base)
    ensures View(x, slots).Keys == slots.Keys
  {
    forall p | p in slots
      ensures slots[p] < |x.nodes|
    {
      assert PathOk(x, slots, hash, base, p);
    }
  }

  /** The slot for a new node: the last free one, or else the one after all slots in use. */
  function NewSlot(x: Index, appsN: nat): nat {
    if x.free != [] then x.free[|x.free| - 1] else appsN
  }

  function Grown(nodes: seq<Entry>, size: nat): seq<Entry> {
    if |nodes| < size then nodes + seq(size - |nodes|, _ => Entry([], NO_FLAGS)) else nodes
  }

  function AddNode(x: Index, appsN: nat, h: nat, e: Entry): Index {
    var slot := NewSlot(x, appsN);
    Index(Grown(x.nodes, slot + 1)[slot := e],
          if x.free != [] then x.free[..|x.free| - 1] else x.free,
          x.buckets[h := (if h in x.buckets then x.buckets[h] else []) + [slot]])
  }

  ghost predicate Taken(slots: map<Path, nat>, slot: nat) {
    exists p :: p in slots && slots[p] == slot
  }

  /** The slots in use, each once. */
  lemma {:induction false} SlotSeq(slots: map<Path, nat>) returns (s: seq<nat>)
    requires forall p, q | p in slots && q in slots && p != q :: slots[p] != slots[q]
    ensures |s| == |slots| && Distinct(s) && forall i | 0 <= i < |s| :: Taken(slots, s[i])
    decreases |slots|
  {
    if slots == map[] {
      s := [];
    } else {
      var p :| p in slots;
      var rest := SlotSeq(slots - {p});
      s := rest + [slots[p]];
      forall i | 0 <= i < |rest|
        ensures Taken(slots, rest[i]) && rest[i] != slots[p]
      {
        assert Taken(slots - {p}, rest[i]);
      }
    }
  }

  lemma FreeOk(x: Index, slots: map<Path, nat>, hash: Path -> nat, base: nat)
    requires Ok(x, slots, hash, base)
    ensures Distinct(x.free) && forall f | f in x.free :: f < U16
  {
  }

  lemma SlotsInRange(x: Index, slots: map<Path, nat>, hash: Path -> nat, base: nat) returns (s: seq<nat>)
    requires Ok(x, slots, hash, base)
    ensures |s| == |slots| && SlotIndex.DistinctBelow(s, U16) && SlotIndex.DistinctBelow(s + x.free, U16)
    ensures forall i | 0 <= i < |s| :: Taken(slots, s[i])
  {
    hide Ok;
    FreeOk(x, slots, hash, base);
    forall p | p in slots
      ensures slots[p] < U16 && slots[p] !in x.free && slots[p] < |x.nodes| && x.nodes[slots[p]].path == p
    {
      OkAt(x, slots, hash, base, p, 0);
    }
    s := SlotSeq(slots);
    assert forall i | 0 <= i < |s| :: Taken(slots, s[i]) && s[i] < U16 && s[i] !in x.free;
    assert forall i | 0 <= i < |x.free| :: x.free[i] in x.free;
  }

  /** There are no more than 2^16 slots. */
  lemma AtMostAll(x: Index, slots: map<Path, nat>, hash: Path -> nat, base: nat)
    requires Ok(x, slots, hash, base)
    ensures |slots| + |x.free| <= U16
  {
    var s := SlotsInRange(x, slots, hash, base);
    SlotIndex.DistinctShort(s + x.free, U16);
  }

  /** With 2^16 known paths, every slot is taken. */
  lemma AllTaken(x: Index, slots: map<Path, nat>, hash: Path -> nat, base: nat, slot: nat)
    requires Ok(x, slots, hash, base) && |slots| == U16 && slot < U16
    ensures Taken(slots, slot)
  {
    var s := SlotsInRange(x, slots, hash, base);
    if slot in s {
      var i :| 0 <= i < |s| && s[i] == slot;
    } else {
      OneMore(s, slot, U16);
    }
  }

  lemma OneMore(s: seq<nat>, k: nat, n: nat)
    requires SlotIndex.DistinctBelow(s, n) && k < n && k !in s
    ensures |s| < n
  {
    assert SlotIndex.DistinctBelow(s + [k], n);
    SlotIndex.DistinctShort(s + [k], n);
  }

  /** The new slot is in use by no path and is not free either. */
  lemma NewSlotFree(x: Index, slots: map<Path, nat>, hash: Path -> nat, base: nat)
    requires Ok(x, slots, hash, base) && |slots| < U16
    ensures var slot, free := NewSlot(x, Counter(base, |slots|)), x.free;
            && slot < U16 && Offset(base, slot) < |slots| + (if free == [] then 1 else |free|)
            && (free != [] ==> slot < |x.nodes| && slot in free)
            && (forall p | p in slots :: slots[p] != slot)
            && (forall h | h in x.buckets :: slot !in x.buckets[h])
  {
    var slot := NewSlot(x, Counter(base, |slots|));
    assert x.free != [] ==> slot in x.free;
    assert x.free == [] ==> slot < U16 && Offset(base, slot) == |slots|;
    forall p | p in slots
      ensures slots[p] != slot
    {
      assert PathOk(x, slots, hash, base, p);
    }
    forall h | h in x.buckets
      ensures slot !in x.buckets[h]
    {
      assert BucketOk(x, slots, hash, h);
    }
  }

  /** The new slot is that of no known path exactly when fewer than 2^16 paths are known. */
  lemma NewSlotIffRoom(x: Index, slots: map<Path, nat>, hash: Path -> nat, base: nat)
    requires Ok(x, slots, hash, base)
    ensures (forall p | p in slots :: slots[p] != NewSlot(x, Counter(base, |slots|))) <==> |slots| < U16
  {
    AtMostAll(x, slots, hash, base);
    if |slots| < U16 {
      NewSlotFree(x, slots, hash, base);
    } else {
      AllTaken(x, slots, hash, base, NewSlot(x, Counter(base, |slots|)));
    }
  }

  /** The node of the slot has been filled in; the other slots keep theirs. */
  lemma AddNodeNodes(x: Index, slots: map<Path, nat>, hash: Path -> nat, base: nat, e: Entry)
    requires Ok(x, slots, hash, base) && |slots| < U16
    ensures var slot, x' := NewSlot(x, Counter(base, |slots|)), AddNode(x, Counter(base, |slots|), hash(e.path), e);
            && slot < |x'.nodes| && x'.nodes[slot] == e && |x.nodes| <= |x'.nodes|
            && (forall s | 0 <= s < |x.nodes| && s != slot :: x'.nodes[s] == x.nodes[s])
            && |slots| + 1 + |x'.free| >= |slots| + |x.free|
            && Handed(x', base, |slots| + 1 + |x'.free|, slot)
            && Distinct(x'.free) && (forall f | f in x'.free :: f in x.free && f != slot)
            && (x.free != [] ==> slot in x.free)
  {
    var slot, x' := NewSlot(x, Counter(base, |slots|)), AddNode(x, Counter(base, |slots|), hash(e.path), e);
    NewSlotFree(x, slots, hash, base);
    assert x.free != [] ==> x.free == x'.free + [slot];
  }

  lemma AddNodePath(x: Index, slots: map<Path, nat>, hash: Path -> nat, base: nat, e: Entry, p: Path)
    requires Ok(x, slots, hash, base) && |slots| < U16 && e.path !in slots
    ensures var slot := NewSlot(x, Counter(base, |slots|));
            PathOk(AddNode(x, Counter(base, |slots|), hash(e.path), e), slots[e.path := slot], hash, base, p)
  {
    hide Ok;
    NewSlotFree(x, slots, hash, base);
    AddNodeNodes(x, slots, hash, base, e);
    OkAt(x, slots, hash, base, p, hash(e.path));
  }

  lemma OkAt(x: Index, slots: map<Path, nat>, hash: Path -> nat, base: nat, p: Path, h: nat)
    requires Ok(x, slots, hash, base)
    ensures PathOk(x, slots, hash, base, p) && BucketOk(x, slots, hash, h)
  {
  }

  lemma AddNodeBucket(x: Index, slots: map<Path, nat>, hash: Path -> nat, base: nat, e: Entry, h: nat)
    requires Ok(x, slots, hash, base) && |slots| < U16 && e.path !in slots
    ensures var slot := NewSlot(x, Counter(base, |slots|));
            BucketOk(AddNode(x, Counter(base, |slots|), hash(e.path), e), slots[e.path := slot], hash, h)
  {
    hide Ok;
    NewSlotFree(x, slots, hash, base);
    AddNodeNodes(x, slots, hash, base, e);
    OkAt(x, slots, hash, base, e.path, h);
  }

  lemma AddNodeView(x: Index, slots: map<Path, nat>, hash: Path -> nat, base: nat, e: Entry)
    requires Ok(x, slots, hash, base) && |slots| < U16 && e.path !in slots
    ensures var slot := NewSlot(x, Counter(base, |slots|));
            View(AddNode(x, Counter(base, |slots|), hash(e.path), e), slots[e.path := slot]) ==
              View(x, slots)[e.path := e.flags]
  {
    hide Ok;
    NewSlotFree(x, slots, hash, base);
    AddNodeNodes(x, slots, hash, base, e);
    forall p | p in slots
      ensures slots[p] < |x.nodes|
    {
      OkAt(x, slots, hash, base, p, 0);
    }
  }

  lemma AddNodeOk(x: Index, slots: map<Path, nat>, hash: Path -> nat, base: nat, e: Entry)
    requires Ok(x, slots, hash, base) && |slots| < U16 && e.path !in slots
    ensures var slot := NewSlot(x, Counter(base, |slots|));
            var x', slots' := AddNode(x, Counter(base, |slots|), hash(e.path), e), slots[e.path := slot];
            && Ok(x', slots', hash, base) && View(x', slots') == View(x, slots)[e.path := e.flags]
            && |slots'| == |slots| + 1
  {
    hide PathOk, BucketOk, View, AddNode;
    var slot := NewSlot(x, Counter(base, |slots|));
    var x', slots' := AddNode(x, Counter(base, |slots|), hash(e.path), e), slots[e.path := slot];
    forall p {:trigger PathOk(x', slots', hash, base, p)}
      ensures PathOk(x', slots', hash, base, p)
    {
      AddNodePath(x, slots, hash, base, e, p);
    }
    forall h {:trigger BucketOk(x', slots', hash, h)}
      ensures BucketOk(x', slots', hash, h)
    {
      AddNodeBucket(x, slots, hash, base, e, h);
    }
    AddNodeNodes(x, slots, hash, base, e);
    AddNodeView(x, slots, hash, base, e);
  }

  function SetFlags(x: Index, slot: nat, flags: Flags): Index
    requires slot < |x.nodes|
  {
    x.(nodes := x.nodes[slot := x.nodes[slot].(flags := flags)])
  }

  lemma SetFlagsOk(x: Index, slots: map<Path, nat>, hash: Path -> nat, base: nat, path: Path, flags: Flags)
    requires Ok(x, slots, hash, base) && path in slots
    ensures slots[path] < |x.nodes|
    ensures var x' := SetFlags(x, slots[path], flags);
            Ok(x', slots, hash, base) && View(x', slots) == View(x, slots)[path := flags]
  {
    hide View;
    OkAt(x, slots, hash, base, path, 0);
    var x' := SetFlags(x, slots[path], flags);
    forall p {:trigger PathOk(x', slots, hash, base, p)}
      ensures PathOk(x', slots, hash, base, p)
    {
      assert PathOk(x, slots, hash, base, p);
    }
    forall h {:trigger BucketOk(x', slots, hash, h)}
      ensures BucketOk(x', slots, hash, h)
    {
      assert BucketOk(x, slots, hash, h);
    }
    SetFlagsView(x, slots, hash, base, path, flags);
  }

  lemma SetFlagsView(x: Index, slots: map<Path, nat>, hash: Path -> nat, base: nat, path: Path, flags: Flags)
    requires Ok(x, slots, hash, base) && path in slots && slots[path] < |x.nodes|
    ensures View(SetFlags(x, slots[path], flags), slots) == View(x, slots)[path := flags]
  {
    hide Ok;
    OkAt(x, slots, hash, base, path, 0);
    forall p | p in slots
      ensures slots[p] < |x.nodes| && (slots[p] == slots[path] <==> p == path)
    {
      OkAt(x, slots, hash, base, p, 0);
    }
  }

  /** The k-th slot of a bucket goes to the end of the free ones. */
  function RemoveNode(x: Index, h: nat, k: nat): Index
    requires h in x.buckets && k < |x.buckets[h]|
  {
    x.(free := x.free + [x.buckets[h][k]], buckets := x.buckets[h := x.buckets[h][..k] + x.buckets[h][k + 1..]])
  }

  lemma WithoutOne(b: seq<nat>, k: nat)
    requires Distinct(b) && k < |b|
    ensures Distinct(b[..k] + b[k + 1..])
    ensures forall s :: s in b[..k] + b[k + 1..] <==> s in b && s != b[k]
  {
    var c := b[..k] + b[k + 1..];
    assert forall i | 0 <= i < |c| :: c[i] == b[if i < k then i else i + 1];
    forall s | s in b && s != b[k]
      ensures s in c
    {
      var j :| 0 <= j < |b| && b[j] == s;
      assert c[if j < k then j else j - 1] == s;
    }
  }

  lemma RemoveNodeOk(x: Index, slots: map<Path, nat>, hash: Path -> nat, base: nat, path: Path, k: nat)
    requires Ok(x, slots, hash, base) && path in slots
    requires hash(path) in x.buckets && k < |x.buckets[hash(path)]| && x.buckets[hash(path)][k] == slots[path]
    ensures var x', slots' := RemoveNode(x, hash(path), k), slots - {path};
            Ok(x', slots', hash, base) && View(x', slots') == View(x, slots) - {path} && |slots'| == |slots| - 1
  {
    var x', slots' := RemoveNode(x, hash(path), k), slots - {path};
    OkAt(x, slots, hash, base, path, hash(path));
    WithoutOne(x.buckets[hash(path)], k);
    forall p {:trigger PathOk(x', slots', hash, base, p)}
      ensures PathOk(x', slots', hash, base, p)
    {
      assert PathOk(x, slots, hash, base, p);
    }
    forall h {:trigger BucketOk(x', slots', hash, h)}
      ensures BucketOk(x', slots', hash, h)
    {
      assert BucketOk(x, slots, hash, h);
    }
  }

  // ---------------------------------------------------------------------------------------------
  // Runs
  // ---------------------------------------------------------------------------------------------

  datatype Op = AddOp(path: Path, flags: Flags) | DeleteOp(path: Path)

  function Position(b: seq<nat>, s: nat): (k: nat)
    ensures k <= |b| && (s in b ==> k < |b| && b[k] == s)
  {
    if b == [] || b[0] == s then 0 else Position(b[1..], s) + 1
  }

  /** What an operation does to the plain map. */
  function MapStep(m: map<Path, Flags>, op: Op): map<Path, Flags> {
    match op
    case AddOp(path, flags) => AddTo(m, path, flags)
    case DeleteOp(path) => m - {path}
  }

  function MapRun(m: map<Path, Flags>, ops: seq<Op>): map<Path, Flags>
    decreases |ops|
  {
    if ops == [] then m else MapRun(MapStep(m, ops[0]), ops[1..])
  }

  /** No new path is ever added to 2^16 known ones. */
  predicate Room(m: map<Path, Flags>, ops: seq<Op>)
    decreases |ops|
  {
    ops == [] || ((ops[0].AddOp? && ops[0].path !in m ==> |m| < U16) && Room(MapStep(m, ops[0]), ops[1..]))
  }

  /** What an operation does to the index. */
  function StepTo(x: Index, slots: map<Path, nat>, hash: Path -> nat, base: nat, op: Op): (Index, map<Path, nat>) {
    match op
    case AddOp(path, flags) =>
      if path !in slots then
        var n := Counter(base, |slots|);
        (AddNode(x, n, hash(path), Entry(path, flags)), slots[path := NewSlot(x, n)])
      else if flags.isNew || slots[path] >= |x.nodes| then (x, slots)
      else (SetFlags(x, slots[path], flags), slots)
    case DeleteOp(path) =>
      if path in slots && hash(path) in x.buckets && slots[path] in x.buckets[hash(path)] then
        (RemoveNode(x, hash(path), Position(x.buckets[hash(path)], slots[path])), slots - {path})
      else (x, slots)
  }

  function RunTo(x: Index, slots: map<Path, nat>, hash: Path -> nat, base: nat, ops: seq<Op>): (Index, map<Path, nat>)
    decreases |ops|
  {
    if ops == [] then (x, slots)
    else
      var (x', slots') := StepTo(x, slots, hash, base, ops[0]);
      RunTo(x', slots', hash, base, ops[1..])
  }

  lemma StepRefines(x: Index, slots: map<Path, nat>, hash: Path -> nat, base: nat, op: Op)
    requires Ok(x, slots, hash, base) && (op.AddOp? && op.path !in slots ==> |slots| < U16)
    ensures var (x', slots') := StepTo(x, slots, hash, base, op);
            Ok(x', slots', hash, base) && View(x', slots') == MapStep(View(x, slots), op)
  {
    hide Ok, View, AddNode, SetFlags, RemoveNode;
    ViewKeys(x, slots, hash, base);
    OkAt(x, slots, hash, base, op.path, hash(op.path));
    match op
    case AddOp(path, flags) =>
      if path !in slots {
        AddNodeOk(x, slots, hash, base, Entry(path, flags));
      } else if !flags.isNew {
        SetFlagsOk(x, slots, hash, base, path, flags);
      }
    case DeleteOp(path) =>
      if path in slots {
        RemoveNodeOk(x, slots, hash, base, path, Position(x.buckets[hash(path)], slots[path]));
      } else {
        assert View(x, slots) - {path} == View(x, slots);
      }
  }

  /** Over every run with room, whatever has been deleted and however often the slot counter has wrapped, the index
      holds the plain map, and no two paths share a slot. */
  lemma {:induction false} RunRefines(x: Index, slots: map<Path, nat>, hash: Path -> nat, base: nat, ops: seq<Op>)
    requires Ok(x, slots, hash, base) && Room(View(x, slots), ops)
    ensures var (x', slots') := RunTo(x, slots, hash, base, ops);
            && Ok(x', slots', hash, base) && View(x', slots') == MapRun(View(x, slots), ops)
            && forall p, q | p in slots' && q in slots' && p != q :: slots'[p] != slots'[q]
    decreases |ops|
  {
    hide View;
    if ops == [] {
      SlotsApart(x, slots, hash, base);
    } else {
      ViewKeys(x, slots, hash, base);
      SameSize(View(x, slots), slots);
      StepRefines(x, slots, hash, base, ops[0]);
      var (x', slots') := StepTo(x, slots, hash, base, ops[0]);
      RunRefines(x', slots', hash, base, ops[1..]);
    }
  }

  lemma SlotsApart(x: Index, slots: map<Path, nat>, hash: Path -> nat, base: nat)
    requires Ok(x, slots, hash, base)
    ensures forall p, q | p in slots && q in slots && p != q :: slots[p] != slots[q]
  {
    forall p, q | p in slots && q in slots && p != q
      ensures slots[p] != slots[q]
    {
      OkAt(x, slots, hash, base, p, 0);
      OkAt(x, slots, hash, base, q, 0);
    }
  }

  /** The paths [0], [1], ... added to an empty index. */
  function Ascending(hash: Path -> nat, base: nat, n: nat): (Index, map<Path, nat>) {
    if n == 0 then (Index([], [], map[]), map[])
    else
      var (x, slots) := Ascending(hash, base, n - 1);
      StepTo(x, slots, hash, base, AddOp([n - 1], NO_FLAGS))
  }

  /** Exactly the first n paths are known, in the slots from the base on. */
  ghost predicate FirstPaths(slots: map<Path, nat>, base: nat, n: nat) {
    && |slots| == n
    && (forall p | p in slots :: |p| == 1 && p[0] < n && slots[p] == Counter(base, p[0]))
    && (forall i: nat | i < n :: [i] in slots)
  }

  lemma NextPath(slots: map<Path, nat>, base: nat, n: nat)
    requires FirstPaths(slots, base, n)
    ensures [n] !in slots && FirstPaths(slots[[n] := Counter(base, n)], base, n + 1)
  {
    hide Counter;
  }

  ghost predicate AscendingOk(hash: Path -> nat, base: nat, n: nat) {
    var (x, slots) := Ascending(hash, base, n);
    Ok(x, slots, hash, base) && x.free == [] && FirstPaths(slots, base, n)
  }

  lemma {:induction false} AscendingSlots(hash: Path -> nat, base: nat, n: nat)
    requires base < U16 && n <= U16
    ensures AscendingOk(hash, base, n)
  {
    hide AscendingOk;
    if n == 0 {
      AscendingNone(hash, base);
    } else {
      AscendingSlots(hash, base, n - 1);
      AscendingNext(hash, base, n - 1);
    }
  }

  lemma AscendingNone(hash: Path -> nat, base: nat)
    requires base < U16
    ensures AscendingOk(hash, base, 0)
  {
    EmptyOk(Index([], [], map[]), map[], hash, base);
  }

  lemma AscendingNext(hash: Path -> nat, base: nat, n: nat)
    requires base < U16 && n < U16 && AscendingOk(hash, base, n)
    ensures AscendingOk(hash, base, n + 1)
  {
    hide Ok, StepTo, FirstPaths, Counter;
    var (x, slots) := Ascending(hash, base, n);
    FirstSize(slots, base, n);
    NextPath(slots, base, n);
    FreshStep(x, slots, hash, base, [n]);
  }

  lemma FirstSize(slots: map<Path, nat>, base: nat, n: nat)
    requires FirstPaths(slots, base, n)
    ensures |slots| == n
  {
  }

  lemma FreshStep(x: Index, slots: map<Path, nat>, hash: Path -> nat, base: nat, path: Path)
    requires Ok(x, slots, hash, base) && x.free == [] && path !in slots && |slots| < U16
    ensures var (x', slots') := StepTo(x, slots, hash, base, AddOp(path, NO_FLAGS));
            && Ok(x', slots', hash, base) && x'.free == [] && slots' == slots[path := Counter(base, |slots|)]
            && |slots'| == |slots| + 1
  {
    hide Ok, Counter;
    AddNodeOk(x, slots, hash, base, Entry(path, NO_FLAGS));
  }

  /** A run that fails: the paths [0] to [65535] are all indexed, past the wrap of the counter for any base but 0; any
      other path, such as [0, 0], then gets the slot of [0], and no choice of slots makes its index sound. */
  lemma OneTooMany(hash: Path -> nat, base: nat, path: Path)
    requires base < U16 && |path| != 1
    ensures var (x, slots) := Ascending(hash, base, U16);
            var (x', slots') := StepTo(x, slots, hash, base, AddOp(path, NO_FLAGS));
            && Ok(x, slots, hash, base) && |slots| == U16 && [0] in slots && path !in slots
            && slots'[path] == slots'[[0]] && slots'[[0]] < |x'.nodes| && x'.nodes[slots'[[0]]].path == path
            && forall other: map<Path, nat> {:trigger Ok(x', other, hash, base)} | other.Keys == slots'.Keys ::
                 !Ok(x', other, hash, base)
  {
    hide Ok, Ascending, StepTo, FirstPaths;
    var (x, slots) := Ascending(hash, base, U16);
    AscendingSlots(hash, base, U16);
    FirstAndOther(slots, base, path);
    TooMany(x, slots, hash, base, path);
  }

  lemma FirstAndOther(slots: map<Path, nat>, base: nat, path: Path)
    requires FirstPaths(slots, base, U16) && |path| != 1
    ensures |slots| == U16 && [0] in slots && path !in slots && slots[[0]] == Counter(base, U16)
  {
  }

  /** Behind a full index, an added path takes the slot the counter names, and the index is sound no more. */
  lemma TooMany(x: Index, slots: map<Path, nat>, hash: Path -> nat, base: nat, path: Path)
    requires Ok(x, slots, hash, base) && |slots| == U16 && path !in slots
    ensures var (x', slots') := StepTo(x, slots, hash, base, AddOp(path, NO_FLAGS));
            && slots' == slots[path := Counter(base, U16)]
            && slots'[path] < |x'.nodes| && x'.nodes[slots'[path]].path == path
            && forall other: map<Path, nat> {:trigger Ok(x', other, hash, base)} | other.Keys == slots'.Keys ::
                 !Ok(x', other, hash, base)
  {
    hide Ok;
    AtMostAll(x, slots, hash, base);
    var (x', slots') := StepTo(x, slots, hash, base, AddOp(path, NO_FLAGS));
    forall other: map<Path, nat> {:trigger Ok(x', other, hash, base)} | other.Keys == slots'.Keys
      ensures !Ok(x', other, hash, base)
    {
      assert |other| == |other.Keys| == |slots'.Keys| == |slots'|;
      if Ok(x', other, hash, base) {
        AtMostAll(x', other, hash, base);
      }
    }
  }

  // ---------------------------------------------------------------------------------------------
  // The index
  // ---------------------------------------------------------------------------------------------

  class ExeMap {
    const hash: Path -> nat
    ghost const base: nat          // the number of entries that the configuration announces
    var nodes: seq<Entry>
    var free: seq<nat>
    var buckets: map<nat, seq<nat>>
    var exeAppsN: nat              // base and the number of known paths, modulo 2^16
    ghost var slots: map<Path, nat>

    constructor (hash: Path -> nat, exeAppsN: nat)
      requires exeAppsN < U16
      ensures Valid() && Map() == map[] && this.hash == hash && base == exeAppsN
    {
      this.hash, this.base, this.exeAppsN := hash, exeAppsN, exeAppsN;
      nodes, free, buckets, slots := [], [], map[], map[];
      new;
      EmptyOk(X(), slots, hash, base);
    }

    ghost function X(): Index
      reads this
    {
      Index(nodes, free, buckets)
    }

    /** The slot counter is not the number of paths, but ahead of it by the announced entries, and wraps. */
    ghost predicate Valid()
      reads this
    {
      Ok(X(), slots, hash, base) && exeAppsN == Counter(base, |slots|)
    }

    ghost function Map(): map<Path, Flags>
      reads this
    {
      View(X(), slots)
    }

    /** fort_conf_ref_exe_find_node: walks the nodes with the hash of the path. */
    method FindNode(path: Path) returns (r: Option<nat>, k: nat)
      requires Valid()
      ensures path in slots ==>
                && r == Some(slots[path]) && slots[path] < |nodes| && hash(path) in buckets
                && k < |buckets[hash(path)]| && buckets[hash(path)][k] == slots[path]
      ensures path !in slots ==> r == None
    {
      hide Ok;
      r, k := None, 0;
      OkAt(X(), slots, hash, base, path, hash(path));
      if hash(path) !in buckets {
        return;
      }
      var b := buckets[hash(path)];
      assert forall i | 0 <= i < |b| :: b[i] in b && b[i] < |nodes|;
      while k < |b|
        invariant k <= |b| && forall i | 0 <= i < k :: nodes[b[i]].path != path
      {
        if nodes[b[k]].path == path {
          return Some(b[k]), k;
        }
        k := k + 1;
      }
    }

    /** fort_conf_exe_find */
    method Find(path: Path) returns (flags: Flags)
      requires Valid()
      ensures flags == if path in Map() then Map()[path] else NO_FLAGS
    {
      hide Ok;
      ViewKeys(X(), slots, hash, base);
      var slot, k := FindNode(path);
      flags := if slot.Some? then nodes[slot.value].flags else NO_FLAGS;
    }

    /**
      * fort_conf_ref_exe_add_path_locked; oom says that the entry cannot be allocated. The index stays sound
      * exactly when a new path is not added to 2^16 known ones; otherwise it takes the slot of one of them.
      */
    method Add(path: Path, flags: Flags, oom: bool) returns (status: Status)
      requires Valid()
      modifies this
      ensures status == if path !in old(Map()) then (if oom then NoResources else Added)
                        else if flags.isNew then UserError else Replaced
      ensures exeAppsN == if status == Added then (old(exeAppsN) + 1) % U16 else old(exeAppsN)
      ensures Valid() <==> (status == Added ==> |old(Map())| < U16)
      ensures Valid() ==> Map() == if status == NoResources then old(Map()) else AddTo(old(Map()), path, flags)
      ensures status != Added ==> slots == old(slots)
      ensures status == Added ==>
                && path in slots && slots == old(slots)[path := slots[path]]
                && slots[path] == old(if free == [] then exeAppsN else free[|free| - 1])
                && free == old(if free == [] then [] else free[..|free| - 1])
                && ((forall p | p in old(slots) :: slots[path] != old(slots)[p]) <==> |old(Map())| < U16)
    {
      hide Ok, View, SetFlags, Counter;
      ghost var x := X();
      ViewKeys(x, slots, hash, base);
      CounterNext(base, |slots|);
      SameSize(View(x, slots), slots);
      var slot, k := FindNode(path);
      if slot == None {
        if oom {
          return NoResources;
        }
        AddNew(Entry(path, flags));
        return Added;
      }
      if flags.isNew {
        return UserError;
      }
      SetFlagsOk(x, slots, hash, base, path, flags);
      ReplaceFlags(slot.value, flags);
      status := Replaced;
    }

    /** A node for a new path; its slot is that of no other path exactly when fewer than 2^16 are known. */
    method AddNew(e: Entry)
      requires Valid() && e.path !in slots
      modifies this
      ensures exeAppsN == (old(exeAppsN) + 1) % U16 && |slots| == |old(slots)| + 1
      ensures Ok(X(), slots, hash, base) <==> |old(slots)| < U16
      ensures |old(slots)| < U16 ==> Map() == old(Map())[e.path := e.flags]
      ensures e.path in slots && slots == old(slots)[e.path := slots[e.path]]
      ensures slots[e.path] == old(if free == [] then exeAppsN else free[|free| - 1])
      ensures free == old(if free == [] then [] else free[..|free| - 1])
      ensures (forall p | p in old(slots) :: slots[e.path] != old(slots)[p]) <==> |old(slots)| < U16
    {
      hide Ok, View, AddNode;
      ghost var x, n := X(), |slots|;
      NewSlotIffRoom(x, slots, hash, base);
      AtMostAll(x, slots, hash, base);
      if n < U16 {
        NewSlotFree(x, slots, hash, base);
        AddNodeOk(x, slots, hash, base, e);
      }
      slots := slots[e.path := NewSlot(x, exeAppsN)];
      InsertNode(e);
      if n >= U16 && Ok(X(), slots, hash, base) {
        AtMostAll(X(), slots, hash, base);
      }
    }

    method InsertNode(e: Entry)
      requires free != [] ==> free[|free| - 1] < |nodes|
      modifies this
      ensures X() == AddNode(old(X()), old(exeAppsN), hash(e.path), e)
      ensures free == old(if free == [] then [] else free[..|free| - 1])
      ensures exeAppsN == (old(exeAppsN) + 1) % U16 && slots == old(slots)
    {
      var slot;
      if free != [] {
        slot := free[|free| - 1];
        free := free[..|free| - 1];
      } else {
        slot := exeAppsN;
      }
      nodes := Grown(nodes, slot + 1);
      nodes := nodes[slot := e];
      var h := hash(e.path);
      buckets := buckets[h := (if h in buckets then buckets[h] else []) + [slot]];
      exeAppsN := (exeAppsN + 1) % U16;
    }

    method ReplaceFlags(slot: nat, flags: Flags)
      requires slot < |nodes|
      modifies this
      ensures X() == SetFlags(old(X()), slot, flags) && exeAppsN == old(exeAppsN) && slots == old(slots)
    {
      nodes := nodes[slot := nodes[slot].(flags := flags)];
    }

    /** fort_conf_ref_exe_del_path */
    method Delete(path: Path)
      requires Valid()
      modifies this
      ensures Valid() && Map() == old(Map()) - {path} && slots == old(slots) - {path}
      ensures free == old(free) + if path in old(slots) then [old(slots)[path]] else []
    {
      hide Ok, View, RemoveNode, Counter;
      ghost var x := X();
      ViewKeys(x, slots, hash, base);
      if slots != map[] { CounterNext(base, |slots| - 1); }
      var slot, k := FindNode(path);
      if slot.Some? {
        RemoveNodeOk(x, slots, hash, base, path, k);
        DropNode(hash(path), slot.value, k);
        slots := slots - {path};
      }
    }

    method DropNode(h: nat, slot: nat, k: nat)
      requires h in buckets && k < |buckets[h]| && buckets[h][k] == slot
      modifies this
      ensures free == old(free) + [slot]
      ensures X() == RemoveNode(old(X()), h, k) && exeAppsN == (old(exeAppsN) + U16 - 1) % U16 && slots == old(slots)
    {
      exeAppsN := (exeAppsN + U16 - 1) % U16;
      buckets := buckets[h := buckets[h][..k] + buckets[h][k + 1..]];
      free := free + [slot];
    }

    /** fort_conf_ref_exe_fill: adds the entries of the configuration, in their order. */
    method Fill(entries: seq<Entry>)
      requires Valid() && |Map()| + |entries| <= U16
      modifies this
      ensures Valid() && Map() == AddAll(old(Map()), entries)
    {
      hide Ok, View, AddTo;
      var i := 0;
      assert entries[..0] == [];
      while i < |entries|
        invariant i <= |entries| && Valid() && |Map()| + (|entries| - i) <= U16
        invariant Map() == AddAll(old(Map()), entries[..i])
      {
        assert entries[..i + 1][..i] == entries[..i];
        AddToSize(Map(), entries[i].path, entries[i].flags);
        var status := Add(entries[i].path, entries[i].flags, false);
        i := i + 1;
      }
      assert entries[..i] == entries;
    }
  }

  /** fort_conf_ref_new: any number of entries that its 16-bit count can announce is indexed. */
  method RefNew(hash: Path -> nat, entries: seq<Entry>) returns (exeMap: ExeMap)
    requires |entries| < U16
    ensures fresh(exeMap) && exeMap.Valid() && exeMap.Map() == AddAll(map[], entries)
  {
    exeMap := new ExeMap(hash, |entries|);
    exeMap.Fill(entries);
  }

  lemma CounterNext(base: nat, live: nat)
    ensures Counter(base, live + 1) == (Counter(base, live) + 1) % U16
    ensures Counter(base, live) == (Counter(base, live + 1) + U16 - 1) % U16
  {
  }

  lemma SameSize(m: map<Path, Flags>, slots: map<Path, nat>)
    requires m.Keys == slots.Keys
    ensures |m| == |slots|
  {
    assert |m| == |m.Keys| && |slots| == |slots.Keys|;
  }

  lemma AddToSize(m: map<Path, Flags>, path: Path, flags: Flags)
    ensures |AddTo(m, path, flags)| <= |m| + 1 && (path !in m ==> |m| < |AddTo(m, path, flags)|)
  {
    assert m[path := flags].Keys == m.Keys + {path};
    assert |m| == |m.Keys| && |m[path := flags]| == |m.Keys + {path}|;
  }

  lemma EmptyOk(x: Index, slots: map<Path, nat>, hash: Path -> nat, base: nat)
    requires x == Index([], [], map[]) && slots == map[] && base < U16
    ensures Ok(x, slots, hash, base) && View(x, slots) == map[]
  {
  }
}
