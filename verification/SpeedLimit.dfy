/** Speed limits of application groups: charging, deferring ACKs and releasing them on timer ticks. */
module SpeedLimit {
  import opened Accounting
  import opened Widths
  import Bits

  const GROUPS := 16   // FORT_CONF_GROUP_MAX

  /** The flag bits of a flow. */
  datatype Flags = Flags(limitIn: bool, limitOut: bool, deferIn: bool, deferOut: bool,
                         fragment: bool, fragmentDefer: bool, fragmented: bool)

  /** The backlog of one direction of a group, and whether its flush bit is set. */
  datatype Direction = Direction(bytes: nat, pending: bool)

  function FlushBit(group: nat, inbound: bool): nat {
    group * 2 + if inbound then 0 else 1
  }

  function BytesOf(t: Traf, inbound: bool): nat {
    if inbound then t.inBytes else t.outBytes
  }

  // ---------------------------------------------------------------------------------------------
  // One direction
  // ---------------------------------------------------------------------------------------------

  function Drain(bytes: nat, limit: nat): nat {
    if limit == 0 || bytes <= limit then 0 else bytes - limit
  }

  /** A tick releases the deferred ACKs of a pending direction once less than one tick's worth is left. */
  predicate Releases(d: Direction, limit: nat) {
    d.pending && Drain(d.bytes, limit) < limit
  }

  function Tick(d: Direction, limit: nat): Direction {
    if !d.pending then Direction(0, false)
    else Direction(Drain(d.bytes, limit), !Releases(d, limit))
  }

  function Ticks(d: Direction, limit: nat, n: nat): Direction {
    if n == 0 then d else Tick(Ticks(d, limit, n - 1), limit)
  }

  function ReleaseTick(bytes: nat, limit: nat): nat
    requires limit > 0
  {
    if bytes / limit == 0 then 1 else bytes / limit
  }

  lemma {:induction false} BacklogBeforeRelease(bytes: nat, limit: nat, n: nat)
    requires limit > 0 && n < ReleaseTick(bytes, limit)
    ensures Ticks(Direction(bytes, true), limit, n) == Direction(bytes - n * limit, true)
  {
    if n > 0 {
      BacklogBeforeRelease(bytes, limit, n - 1);
      Remaining(bytes, limit, n);
      assert (n - 1) * limit + limit == n * limit;
    }
  }

  lemma TimesAtLeast(q: nat, n: nat, limit: nat)
    requires q >= n
    ensures q * limit >= n * limit
  {
    assert q * limit == n * limit + (q - n) * limit;
  }

  /**
    * With a limit, the ACKs held back for a backlog are first released at tick max(1, backlog div limit), and
    * the flush bit stays set until exactly then.
    */
  lemma ReleasedExactlyOnce(bytes: nat, limit: nat, n: nat)
    requires limit > 0 && 1 <= n <= ReleaseTick(bytes, limit)
    ensures var before := Ticks(Direction(bytes, true), limit, n - 1);
            before.pending && (Releases(before, limit) <==> n == ReleaseTick(bytes, limit))
    ensures Ticks(Direction(bytes, true), limit, n).pending <==> n < ReleaseTick(bytes, limit)
  {
    BacklogBeforeRelease(bytes, limit, n - 1);
    Remaining(bytes, limit, n);
    hide Ticks;
    TicksUnfold(Direction(bytes, true), limit, n);
  }

  /** And never again. */
  lemma {:induction false} ReleasedOnce(bytes: nat, limit: nat, n: nat)
    requires limit > 0 && 1 <= n
    ensures Releases(Ticks(Direction(bytes, true), limit, n - 1), limit) <==> n == ReleaseTick(bytes, limit)
    ensures Ticks(Direction(bytes, true), limit, n).pending <==> n < ReleaseTick(bytes, limit)
  {
    if n <= ReleaseTick(bytes, limit) {
      ReleasedExactlyOnce(bytes, limit, n);
    } else {
      ReleasedOnce(bytes, limit, n - 1);
      TicksUnfold(Direction(bytes, true), limit, n);
    }
  }

  /** What is left of a backlog: a tick takes one limit's worth, and the release leaves the remainder. */
  lemma BacklogAfter(bytes: nat, limit: nat, n: nat)
    requires limit > 0 && n <= ReleaseTick(bytes, limit)
    ensures Ticks(Direction(bytes, true), limit, n) ==
              if n < ReleaseTick(bytes, limit) then Direction(bytes - n * limit, true)
              else Direction(if bytes >= limit then bytes % limit else 0, false)
  {
    if n < ReleaseTick(bytes, limit) {
      BacklogBeforeRelease(bytes, limit, n);
    } else {
      BacklogBeforeRelease(bytes, limit, n - 1);
      ReleasedExactlyOnce(bytes, limit, n);
      Remaining(bytes, limit, n);
      TicksUnfold(Direction(bytes, true), limit, n);
      LeftAtRelease(bytes, limit, n);
    }
  }

  lemma LeftAtRelease(bytes: nat, limit: nat, n: nat)
    requires limit > 0 && n == ReleaseTick(bytes, limit)
    ensures bytes - (n - 1) * limit >= 0
    ensures Drain(bytes - (n - 1) * limit, limit) == if bytes >= limit then bytes % limit else 0
  {
    var q, r := bytes / limit, bytes % limit;
    assert bytes == q * limit + r;
    if q == 0 {
      assert q * limit == 0;
    } else {
      assert (q - 1) * limit == q * limit - limit;
    }
    if bytes >= limit && q == 0 { assert false; }
    if bytes < limit && q >= 1 { TimesAtLeast(q, 1, limit); }
  }

  /** A direction has ticked k times, as long as it has been pending; it is no longer when it would not be. */
  ghost predicate Follows(d: Direction, start: Direction, limit: nat, k: nat) {
    && d.pending == Ticks(start, limit, k).pending
    && (k == 0 || Ticks(start, limit, k - 1).pending ==> d == Ticks(start, limit, k))
  }

  lemma StartsAt()
    ensures forall d: Direction, limit: nat {:trigger Follows(d, d, limit, 0)} :: Follows(d, d, limit, 0)
  {
  }

  lemma FollowsNext(d: Direction, start: Direction, limit: nat, k: nat, d': Direction)
    requires Follows(d, start, limit, k) && (d' == Tick(d, limit) || (!d.pending && d' == d))
    ensures Follows(d', start, limit, k + 1)
    ensures Releases(d, limit) <==> Releases(Ticks(start, limit, k), limit)
  {
    TicksUnfold(start, limit, k + 1);
  }

  lemma BacklogFollows(d: Direction, bytes: nat, limit: nat, n: nat)
    requires Follows(d, Direction(bytes, true), limit, n)
    ensures limit == 0 && n > 0 ==> d == Direction(0, true)
    ensures limit > 0 && n < ReleaseTick(bytes, limit) ==> d == Direction(bytes - n * limit, true)
    ensures limit > 0 && n == ReleaseTick(bytes, limit) ==>
              d == Direction(if bytes >= limit then bytes % limit else 0, false)
  {
    hide Ticks, ReleaseTick, Releases;
    if limit == 0 {
      NeverReleasedWithoutLimit(bytes, n);
      if n > 0 { NeverReleasedWithoutLimit(bytes, n - 1); }
    } else if n <= ReleaseTick(bytes, limit) {
      BacklogAfter(bytes, limit, n);
      if n > 0 { BacklogAfter(bytes, limit, n - 1); }
    }
  }

  lemma TicksUnfold(d: Direction, limit: nat, n: nat)
    requires n > 0
    ensures Ticks(d, limit, n) == Tick(Ticks(d, limit, n - 1), limit)
  {
  }

  /** What is left before tick n: at least two ticks' worth until the release tick, less than two at it. */
  lemma Remaining(bytes: nat, limit: nat, n: nat)
    requires limit > 0 && 1 <= n <= ReleaseTick(bytes, limit)
    ensures n < ReleaseTick(bytes, limit) ==> bytes - (n - 1) * limit >= 2 * limit
    ensures n == ReleaseTick(bytes, limit) ==> 0 <= bytes - (n - 1) * limit < 2 * limit
  {
    var q, r := bytes / limit, bytes % limit;
    assert bytes == q * limit + r;
    assert (q - (n - 1)) * limit == q * limit - (n - 1) * limit;
    if n < ReleaseTick(bytes, limit) {
      TimesAtLeast(q - (n - 1), 2, limit);
    } else if q > 0 {
      assert q - (n - 1) == 1;
    }
  }

  /** Without a limit for the direction, nothing is ever released, the flush bit stays set, and no backlog is left. */
  lemma {:induction false} NeverReleasedWithoutLimit(bytes: nat, n: nat)
    ensures var d := Ticks(Direction(bytes, true), 0, n); d.pending && !Releases(d, 0) && (n > 0 ==> d.bytes == 0)
  {
    if n > 0 { NeverReleasedWithoutLimit(bytes, n - 1); }
  }

  // ---------------------------------------------------------------------------------------------
  // All groups
  // ---------------------------------------------------------------------------------------------

  class Groups {
    const traf: array<Traf>
    var limits: seq<Traf>
    var flushBits: Bits.Word

    constructor ()
      ensures Valid() && fresh(traf)
      ensures Bits.IsZero(flushBits) && forall i | 0 <= i < GROUPS :: traf[i] == ZERO
    {
      traf := new Traf[GROUPS](_ => ZERO);
      limits := seq(GROUPS, _ => ZERO);
      flushBits := Bits.ZERO;
    }

    ghost predicate Valid()
      reads this, traf
    {
      && traf.Length == GROUPS == |limits|
      && forall i | 0 <= i < GROUPS :: traf[i].inBytes < U32 && traf[i].outBytes < U32
    }

    ghost function Dir(group: nat, inbound: bool): Direction
      requires group < GROUPS <= traf.Length
      reads this, traf
    {
      Direction(BytesOf(traf[group], inbound), flushBits[FlushBit(group, inbound)])
    }

    /** Inbound bits are the even ones. */
    lemma DirMeans(group: nat)
      requires group < GROUPS == |limits| <= traf.Length
      ensures Dir(group, true) == Direction(traf[group].inBytes, flushBits[2 * group])
      ensures Dir(group, false) == Direction(traf[group].outBytes, flushBits[2 * group + 1])
      ensures Limit(group, true) == limits[group].inBytes && Limit(group, false) == limits[group].outBytes
    {
    }

    function Limit(group: nat, inbound: bool): nat
      requires group < |limits|
      reads this
    {
      BytesOf(limits[group], inbound)
    }

    /** Forgets all backlogs; the flush bits stay. */
    method Zero()
      requires Valid()
      modifies traf
      ensures Valid() && forall i | 0 <= i < GROUPS :: traf[i] == ZERO
    {
      forall i | 0 <= i < GROUPS {
        traf[i] := ZERO;
      }
    }

    /** Charges a segment of a flow with a speed limit and decides whether to hold back its ACKs. */
    method Charge(flags: Flags, group: nat, len: nat, isTcp: bool, inbound: bool) returns (flags': Flags)
      requires Valid() && group < GROUPS
      modifies this`flushBits, traf
      ensures Valid()
      ensures !isTcp ==> flags' == flags && flushBits == old(flushBits) && traf[..] == old(traf[..])
      ensures isTcp ==>
                && Dir(group, inbound) == Direction((old(Dir(group, inbound)).bytes + len) % U32, true)
                && (if inbound then flags' == flags.(deferOut := Dir(group, true).bytes >= Limit(group, true))
                    else flags' == flags.(deferIn := Dir(group, false).bytes >= Limit(group, false)))
      ensures forall i, d | 0 <= i < GROUPS && (i, d) != (group, inbound) :: Dir(i, d) == old(Dir(i, d))
    {
      if !isTcp {
        return flags;
      }
      var bytes := (BytesOf(traf[group], inbound) + len) % U32;
      traf[group] := if inbound then traf[group].(inBytes := bytes) else traf[group].(outBytes := bytes);
      var deferFlow := bytes >= Limit(group, inbound);
      flags' := if inbound then flags.(deferOut := deferFlow) else flags.(deferIn := deferFlow);
      flushBits := Bits.SetBit(flushBits, FlushBit(group, inbound));
    }

    /**
      * One timer tick: each direction of a group with a flush bit ticks on its own; the ACKs of its
      * counterpart are released by setting the counterpart's bit.
      */
    method Flush() returns (releaseBits: Bits.Word)
      requires Valid()
      modifies this`flushBits, traf
      ensures Valid()
      ensures forall i, d | 0 <= i < GROUPS ::
                Dir(i, d) == if old(Dir(i, true)).pending || old(Dir(i, false)).pending
                             then Tick(old(Dir(i, d)), Limit(i, d)) else old(Dir(i, d))
      ensures forall i, d | 0 <= i < GROUPS ::
                releaseBits[FlushBit(i, !d)] <==> Releases(old(Dir(i, d)), Limit(i, d))
      ensures forall i, d {:trigger Dir(i, d)} | 0 <= i < GROUPS ::
                var before, limit := old(Dir(i, d)), Limit(i, d);
                var rest := if limit == 0 || before.bytes <= limit then 0 else before.bytes - limit;
                && Dir(i, d) == (if before.pending then Direction(rest, rest >= limit)
                                 else if old(Dir(i, !d)).pending then Direction(0, false) else before)
                && (releaseBits[2 * i + (if d then 1 else 0)] <==> before.pending && rest < limit)
    {
      hide Ticked, Tick, Releases;
      releaseBits := Bits.ZERO;
      var bits: seq<bool> := flushBits;
      var i := 0;
      while true in bits
        invariant 0 <= i <= GROUPS && traf.Length == GROUPS == |limits|
        invariant bits == old(flushBits)[2 * i..]
        invariant forall k | 2 * i <= k < 32 :: flushBits[k] == old(flushBits[k]) && !releaseBits[k]
        invariant forall k | i <= k < GROUPS :: traf[k] == old(traf[k])
        invariant forall k | 0 <= k < i ::
                    Ticked(old(traf[k]), traf[k], old(flushBits), flushBits, limits[k], releaseBits, k)
        decreases |bits|
      {
        var bitIn, bitOut := bits[0], bits[1];
        bits := bits[2..];
        ghost var bits0, release0 := flushBits, releaseBits;
        releaseBits := FlushGroup(i, bitIn, bitOut, releaseBits);
        forall k | 0 <= k < i
          ensures Ticked(old(traf[k]), traf[k], old(flushBits), flushBits, limits[k], releaseBits, k)
        {
          TickedElsewhere(old(traf[k]), traf[k], old(flushBits), bits0, flushBits, limits[k], release0, releaseBits, k);
        }
        TickedFrom(old(traf[i]), traf[i], old(flushBits), bits0, flushBits, limits[i], releaseBits, i);
        i := i + 1;
      }
      forall k | 0 <= k < GROUPS
        ensures Ticked(old(traf[k]), traf[k], old(flushBits), flushBits, limits[k], releaseBits, k)
        ensures traf[k].inBytes < U32 && traf[k].outBytes < U32
      {
        if k >= i {
          assert !bits[2 * k - 2 * i] && !bits[2 * k + 1 - 2 * i];
          TickedIdle(old(traf[k]), flushBits, limits[k], releaseBits, k);
          TickedFrom(old(traf[k]), traf[k], old(flushBits), flushBits, flushBits, limits[k], releaseBits, k);
        }
        TickedMeans(old(traf[k]), traf[k], old(flushBits), flushBits, limits[k], releaseBits, k, true);
      }
      forall k, d {:trigger Dir(k, d)} | 0 <= k < GROUPS
        ensures var before, limit := old(Dir(k, d)), Limit(k, d);
                var rest := if limit == 0 || before.bytes <= limit then 0 else before.bytes - limit;
                && Dir(k, d) == (if before.pending then Direction(rest, rest >= limit)
                                 else if old(Dir(k, !d)).pending then Direction(0, false) else before)
                && (releaseBits[2 * k + (if d then 1 else 0)] <==> before.pending && rest < limit)
        ensures Dir(k, d) == if old(Dir(k, true)).pending || old(Dir(k, false)).pending
                             then Tick(old(Dir(k, d)), Limit(k, d)) else old(Dir(k, d))
        ensures releaseBits[FlushBit(k, !d)] <==> Releases(old(Dir(k, d)), Limit(k, d))
      {
        TickedMeans(old(traf[k]), traf[k], old(flushBits), flushBits, limits[k], releaseBits, k, d);
        TickIs(old(Dir(k, d)), Limit(k, d));
      }
    }

    /**
      * A run of n ticks without new traffic: whatever the other directions and groups do, each pending direction
      * with a limit releases at tick max(1, backlog div limit) and at no other.
      */
    method FlushTimes(n: nat) returns (released: seq<Bits.Word>)
      requires Valid()
      modifies this`flushBits, traf
      ensures Valid() && |released| == n
      ensures forall i, d | 0 <= i < GROUPS :: Follows(Dir(i, d), old(Dir(i, d)), Limit(i, d), n)
      ensures forall k, i, d | 0 <= k < n && 0 <= i < GROUPS ::
                released[k][FlushBit(i, !d)] <==> Releases(Ticks(old(Dir(i, d)), Limit(i, d), k), Limit(i, d))
      ensures forall k, i, d | 0 <= k < n && 0 <= i < GROUPS && old(Dir(i, d)).pending && Limit(i, d) > 0 ::
                released[k][FlushBit(i, !d)] <==> k + 1 == ReleaseTick(old(Dir(i, d)).bytes, Limit(i, d))
      ensures forall i, d {:trigger Dir(i, d)} | 0 <= i < GROUPS && old(Dir(i, d)).pending ::
                var bytes, limit := old(Dir(i, d)).bytes, Limit(i, d);
                && (limit == 0 && n > 0 ==> Dir(i, d) == Direction(0, true))
                && (limit > 0 && n < ReleaseTick(bytes, limit) ==>
                      Dir(i, d).pending && Dir(i, d).bytes == bytes - n * limit)
                && (limit > 0 && n == ReleaseTick(bytes, limit) ==>
                      Dir(i, d) == Direction(if bytes >= limit then bytes % limit else 0, false))
    {
      hide Tick, Ticks, Releases, Follows, ReleaseTick;
      released := [];
      StartsAt();
      while |released| < n
        invariant Valid() && |released| <= n
        invariant forall i, d | 0 <= i < GROUPS :: Follows(Dir(i, d), old(Dir(i, d)), Limit(i, d), |released|)
        invariant forall k, i, d | 0 <= k < |released| && 0 <= i < GROUPS ::
                    released[k][FlushBit(i, !d)] <==> Releases(Ticks(old(Dir(i, d)), Limit(i, d), k), Limit(i, d))
      {
        label L:
        var bits := Flush();
        forall i, d | 0 <= i < GROUPS
          ensures Follows(Dir(i, d), old(Dir(i, d)), Limit(i, d), |released| + 1)
          ensures bits[FlushBit(i, !d)] <==>
                    Releases(Ticks(old(Dir(i, d)), Limit(i, d), |released|), Limit(i, d))
        {
          FollowsNext(old@L(Dir(i, d)), old(Dir(i, d)), Limit(i, d), |released|, Dir(i, d));
        }
        released := released + [bits];
      }
      forall i, d {:trigger Dir(i, d)} | 0 <= i < GROUPS && old(Dir(i, d)).pending
        ensures var bytes, limit := old(Dir(i, d)).bytes, Limit(i, d);
                && (limit == 0 && n > 0 ==> Dir(i, d) == Direction(0, true))
                && (limit > 0 && n < ReleaseTick(bytes, limit) ==>
                      Dir(i, d).pending && Dir(i, d).bytes == bytes - n * limit)
                && (limit > 0 && n == ReleaseTick(bytes, limit) ==>
                      Dir(i, d) == Direction(if bytes >= limit then bytes % limit else 0, false))
      {
        BacklogFollows(Dir(i, d), old(Dir(i, d)).bytes, Limit(i, d), n);
      }
      forall k, i, d | 0 <= k < n && 0 <= i < GROUPS && old(Dir(i, d)).pending && Limit(i, d) > 0
        ensures released[k][FlushBit(i, !d)] <==> k + 1 == ReleaseTick(old(Dir(i, d)).bytes, Limit(i, d))
      {
        ReleasedOnce(old(Dir(i, d)).bytes, Limit(i, d), k + 1);
      }
    }

    method FlushGroup(i: nat, bitIn: bool, bitOut: bool, releaseBits: Bits.Word) returns (releaseBits': Bits.Word)
      requires i < GROUPS && traf.Length == GROUPS == |limits|
      requires bitIn == flushBits[2 * i] && bitOut == flushBits[2 * i + 1] && !releaseBits[2 * i]
               && !releaseBits[2 * i + 1]
      modifies this`flushBits, traf
      ensures Ticked(old(traf[i]), traf[i], old(flushBits), flushBits, limits[i], releaseBits', i)
      ensures forall k | 0 <= k < GROUPS && k != i :: traf[k] == old(traf[k])
      ensures forall k | 0 <= k < 32 && k / 2 != i ::
                flushBits[k] == old(flushBits[k]) && releaseBits'[k] == releaseBits[k]
    {
      releaseBits' := releaseBits;
      if !bitIn && !bitOut {
        return;
      }
      var inBytes, pendingIn, releaseOut := FlushDirection(traf[i].inBytes, bitIn, limits[i].inBytes);
      var outBytes, pendingOut, releaseIn := FlushDirection(traf[i].outBytes, bitOut, limits[i].outBytes);
      traf[i] := Traf(inBytes, outBytes);
      flushBits := flushBits[2 * i := pendingIn][2 * i + 1 := pendingOut];
      releaseBits' := releaseBits[2 * i := releaseIn][2 * i + 1 := releaseOut];
    }
  }

  lemma TickIs(d: Direction, limit: nat)
    ensures var rest := if limit == 0 || d.bytes <= limit then 0 else d.bytes - limit;
            && Tick(d, limit) == (if d.pending then Direction(rest, rest >= limit) else Direction(0, false))
            && (Releases(d, limit) <==> d.pending && rest < limit)
  {
  }

  lemma TickedElsewhere(t: Traf, t': Traf, bits: Bits.Word, bits1: Bits.Word, bits2: Bits.Word, limit: Traf,
                        release1: Bits.Word, release2: Bits.Word, i: nat)
    requires i < GROUPS && Ticked(t, t', bits, bits1, limit, release1, i)
    requires bits1[2 * i] == bits2[2 * i] && bits1[2 * i + 1] == bits2[2 * i + 1]
    requires release1[2 * i] == release2[2 * i] && release1[2 * i + 1] == release2[2 * i + 1]
    ensures Ticked(t, t', bits, bits2, limit, release2, i)
  {
  }

  lemma TickedFrom(t: Traf, t': Traf, bits0: Bits.Word, bits: Bits.Word, bits': Bits.Word, limit: Traf,
                   release: Bits.Word, i: nat)
    requires i < GROUPS && Ticked(t, t', bits, bits', limit, release, i)
    requires bits0[2 * i] == bits[2 * i] && bits0[2 * i + 1] == bits[2 * i + 1]
    ensures Ticked(t, t', bits0, bits', limit, release, i)
  {
  }

  lemma TickedIdle(t: Traf, bits: Bits.Word, limit: Traf, release: Bits.Word, i: nat)
    requires i < GROUPS && !bits[2 * i] && !bits[2 * i + 1] && !release[2 * i] && !release[2 * i + 1]
    ensures Ticked(t, t, bits, bits, limit, release, i)
  {
  }

  lemma TickedMeans(t: Traf, t': Traf, bits: Bits.Word, bits': Bits.Word, limit: Traf, release: Bits.Word, i: nat,
                    d: bool)
    requires i < GROUPS && Ticked(t, t', bits, bits', limit, release, i) && t.inBytes < U32 && t.outBytes < U32
    ensures var before := Direction(BytesOf(t, d), bits[FlushBit(i, d)]);
            && Direction(BytesOf(t', d), bits'[FlushBit(i, d)]) ==
                 (if bits[FlushBit(i, true)] || bits[FlushBit(i, false)] then Tick(before, BytesOf(limit, d))
                  else before)
            && (release[FlushBit(i, !d)] <==> Releases(before, BytesOf(limit, d)))
    ensures t'.inBytes < U32 && t'.outBytes < U32
  {
  }

  ghost predicate Ticked(t: Traf, t': Traf, bits: Bits.Word, bits': Bits.Word, limit: Traf, releaseBits: Bits.Word,
                         i: nat)
    requires i < GROUPS
  {
    var dIn, dOut := Direction(t.inBytes, bits[2 * i]), Direction(t.outBytes, bits[2 * i + 1]);
    var dIn', dOut' := Direction(t'.inBytes, bits'[2 * i]), Direction(t'.outBytes, bits'[2 * i + 1]);
    && (if dIn.pending || dOut.pending then dIn' == Tick(dIn, limit.inBytes) && dOut' == Tick(dOut, limit.outBytes)
        else dIn' == dIn && dOut' == dOut)
    && (releaseBits[2 * i + 1] <==> Releases(dIn, limit.inBytes))
    && (releaseBits[2 * i] <==> Releases(dOut, limit.outBytes))
  }

  /** One direction of a group; the flush bit stays set while a full tick's worth is left. */
  method FlushDirection(bytes: nat, bit: bool, limit: nat) returns (bytes': nat, pending: bool, release: bool)
    ensures Direction(bytes', pending) == Tick(Direction(bytes, bit), limit)
    ensures release <==> Releases(Direction(bytes, bit), limit)
  {
    if !bit {
      return 0, false, false;
    }
    if limit == 0 || bytes <= limit {
      bytes' := 0;
    } else {
      bytes' := bytes - limit;
    }
    if bytes' < limit {
      release, pending := true, false;
    } else {
      release, pending := false, true;
    }
  }
}
