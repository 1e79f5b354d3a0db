/** The binary log: five kinds of self-delimiting entries. */
module LogCodec {
  import opened LogBuffer
  import opened Widths
  import opened Wrappers

  type UInt16 = x: nat | x < 0x1_0000
  type UInt32 = x: nat | x < 0x1_0000_0000
  type Int64 = x: int | -0x8000_0000_0000_0000 <= x < 0x8000_0000_0000_0000

  const PATH_MAX := 512                 // FORT_LOG_PATH_MAX
  const PROC_COUNT := 1359              // FORT_LOG_STAT_BUFFER_PROC_COUNT

  // The type bits of the first word, in units of the lowest of them, and its option bit.
  const UNIT := 0x0010_0000
  const BLOCKED := 0x01
  const BLOCKED_IP := 0x02
  const PROC_NEW := 0x10
  const STAT_TRAF := 0x20
  const TIME := 0x40
  const OPTION := 0x1000_0000

  datatype ProcTraf = ProcTraf(pid: UInt32, inBytes: UInt32, outBytes: UInt32)

  datatype Entry =
    | Blocked(blocked: bool, pid: UInt32, path: seq<Byte>)
    | BlockedIp(inbound: bool, reason: Byte, proto: Byte, localPort: UInt16, remotePort: UInt16,
                localIp: UInt32, remoteIp: UInt32, pid: UInt32, path: seq<Byte>)
    | ProcNew(pid: UInt32, path: seq<Byte>)
    | StatTraf(procs: seq<ProcTraf>)
    | Time(unixTime: Int64)

  /** What the writers accept: longer paths are dropped before, and larger reports split. */
  predicate Writable(e: Entry) {
    match e
    case Blocked(_, _, path) => |path| <= PATH_MAX
    case BlockedIp(_, _, _, _, _, _, _, _, path) => |path| <= PATH_MAX
    case ProcNew(_, path) => |path| <= PATH_MAX
    case StatTraf(procs) => |procs| <= PROC_COUNT
    case Time(_) => true
  }

  // ---------------------------------------------------------------------------------------------
  // Words, least significant byte first
  // ---------------------------------------------------------------------------------------------

  function Word(w: UInt32): (b: seq<Byte>)
    ensures |b| == 4
  {
    [w % 256, w / 256 % 256, w / 0x1_0000 % 256, w / 0x100_0000]
  }

  function Join(b0: nat, b1: nat, b2: nat, b3: nat): nat {
    b0 + 256 * b1 + 0x1_0000 * b2 + 0x100_0000 * b3
  }

  function GetWord(b: seq<Byte>, off: nat): UInt32
    requires off + 4 <= |b|
  {
    Join(b[off], b[off + 1], b[off + 2], b[off + 3])
  }

  lemma WordBack(b: seq<Byte>, off: nat, w: UInt32)
    requires off + 4 <= |b| && b[off..off + 4] == Word(w)
    ensures GetWord(b, off) == w
  {
    var c := b[off..off + 4];
    assert c[0] == b[off] && c[1] == b[off + 1] && c[2] == b[off + 2] && c[3] == b[off + 3];
    var w1, w2 := w / 256, w / 0x1_0000;
    assert w == 256 * w1 + w % 256;
    assert w1 / 256 == w2;
    assert w2 / 256 == w / 0x100_0000;
  }

  function Words(ws: seq<UInt32>): (b: seq<Byte>)
    ensures |b| == 4 * |ws|
  {
    if ws == [] then [] else Word(ws[0]) + Words(ws[1..])
  }

  lemma {:induction false} WordsBack(b: seq<Byte>, off: nat, ws: seq<UInt32>, i: nat)
    requires off + 4 * |ws| <= |b| && b[off..off + 4 * |ws|] == Words(ws) && i < |ws|
    ensures GetWord(b, off + 4 * i) == ws[i]
    decreases |ws|
  {
    var c := b[off..off + 4 * |ws|];
    assert b[off..off + 4] == c[..4] == Word(ws[0]);
    if i == 0 {
      WordBack(b, off, ws[0]);
    } else {
      assert b[off + 4..off + 4 + 4 * |ws[1..]|] == c[4..];
      WordsBack(b, off + 4, ws[1..], i - 1);
    }
  }

  // ---------------------------------------------------------------------------------------------
  // Entries
  // ---------------------------------------------------------------------------------------------

  /** The first word of a header. */
  function Head(kind: nat, option: bool, len: nat): UInt32
    requires kind <= 0xFF && len < UNIT
  {
    kind * UNIT + (if option then OPTION else 0) + len
  }

  function ProcWords(procs: seq<ProcTraf>): (ws: seq<UInt32>)
    ensures |ws| == 3 * |procs|
  {
    if procs == [] then [] else [procs[0].pid, procs[0].inBytes, procs[0].outBytes] + ProcWords(procs[1..])
  }

  /** The header words of an entry. */
  function Header(e: Entry): (ws: seq<UInt32>)
    requires Writable(e)
    ensures |ws| > 0
  {
    match e
    case Blocked(blocked, pid, path) => [Head(BLOCKED, !blocked, |path|), pid]
    case BlockedIp(inbound, reason, proto, localPort, remotePort, localIp, remoteIp, pid, path) =>
      [Head(BLOCKED_IP, inbound, |path|), Pair(reason, proto), Pair(localPort, remotePort), localIp, remoteIp, pid]
    case ProcNew(pid, path) => [Head(PROC_NEW, false, |path|), pid]
    case StatTraf(procs) => [Head(STAT_TRAF, false, |procs|)] + ProcWords(procs)
    case Time(t) => [Head(TIME, false, 0), Unsigned(t) % 0x1_0000_0000, Unsigned(t) / 0x1_0000_0000]
  }

  /** `lo | hi << 16` */
  function Pair(lo: UInt16, hi: UInt16): UInt32 {
    var h: nat := hi;
    h * 0x1_0000 + lo
  }

  /** Two's complement of 64 bits. */
  function Unsigned(t: Int64): (u: nat)
    ensures u < 0x1_0000_0000_0000_0000
  {
    if t < 0 then t + 0x1_0000_0000_0000_0000 else t
  }

  function Signed(u: nat): Int64
    requires u < 0x1_0000_0000_0000_0000
  {
    if u < 0x8000_0000_0000_0000 then u else u - 0x1_0000_0000_0000_0000
  }

  function Path(e: Entry): seq<Byte> {
    match e
    case Blocked(_, _, path) => path
    case BlockedIp(_, _, _, _, _, _, _, _, path) => path
    case ProcNew(_, path) => path
    case _ => []
  }

  /** Entries are padded to a multiple of four bytes. */
  function Aligned(n: nat): nat {
    (n + 3) / 4 * 4
  }

  function Size(e: Entry): nat
    requires Writable(e)
  {
    4 * |Header(e)| + Aligned(|Path(e)|)
  }

  /** The bytes are the entry, with any padding. */
  predicate Encodes(b: seq<Byte>, e: Entry) {
    && Writable(e) && |b| == Size(e)
    && b[..4 * |Header(e)|] == Words(Header(e))
    && b[4 * |Header(e)|..4 * |Header(e)| + |Path(e)|] == Path(e)
  }

  // ---------------------------------------------------------------------------------------------
  // Reading
  // ---------------------------------------------------------------------------------------------

  function Kind(w: UInt32): nat { w / UNIT % 0x100 }

  function HasOption(w: UInt32): bool { w / OPTION % 2 == 1 }

  function Len(w: UInt32): nat { w % UNIT }

  lemma HeadBack(kind: nat, option: bool, len: nat)
    requires kind in {BLOCKED, BLOCKED_IP, PROC_NEW, STAT_TRAF, TIME} && len < UNIT
    ensures var w := Head(kind, option, len); Kind(w) == kind && HasOption(w) == option && Len(w) == len
  {
    var w := Head(kind, option, len);
    assert w / UNIT == kind + if option then 0x100 else 0;
  }

  function GetProcs(b: seq<Byte>, off: nat, count: nat): (procs: seq<ProcTraf>)
    requires off + 12 * count <= |b|
    ensures |procs| == count
    decreases count
  {
    if count == 0 then []
    else [ProcTraf(GetWord(b, off), GetWord(b, off + 4), GetWord(b, off + 8))] + GetProcs(b, off + 12, count - 1)
  }

  /** The entry at the front and its size; None when the bytes are cut off or of no known kind. */
  function Next(b: seq<Byte>): (r: Option<(Entry, nat)>)
    ensures r.Some? ==> 4 <= r.value.1 <= |b|
  {
    if |b| < 4 then None
    else
      var w := GetWord(b, 0);
      if Kind(w) == BLOCKED then
        var len := Len(w);
        var size := 8 + Aligned(len);
        if |b| < size then None
        else Some((Blocked(!HasOption(w), GetWord(b, 4), b[8..8 + len]), size))
      else if Kind(w) == BLOCKED_IP then
        var len := Len(w);
        var size := 24 + Aligned(len);
        if |b| < size then None
        else
          var info, ports := GetWord(b, 4), GetWord(b, 8);
          Some((BlockedIp(HasOption(w), info % 256, info / 0x1_0000 % 256, ports % 0x1_0000, ports / 0x1_0000,
                          GetWord(b, 12), GetWord(b, 16), GetWord(b, 20), b[24..24 + len]), size))
      else if Kind(w) == PROC_NEW then
        var len := Len(w);
        var size := 8 + Aligned(len);
        if |b| < size then None
        else Some((ProcNew(GetWord(b, 4), b[8..8 + len]), size))
      else if Kind(w) == STAT_TRAF then
        var count := w % 0x1_0000;
        var size := 4 + 12 * count;
        if |b| < size then None
        else Some((StatTraf(GetProcs(b, 4, count)), size))
      else if Kind(w) == TIME then
        if |b| < 12 then None
        else Some((Time(Signed(GetWord(b, 4) + GetWord(b, 8) * 0x1_0000_0000)), 12))
      else None
  }

  /** Reading back the header words. */
  lemma HeaderBack(b: seq<Byte>, e: Entry, rest: seq<Byte>, i: nat)
    requires Encodes(b, e) && i < |Header(e)|
    ensures 4 * i + 4 <= |b + rest| && GetWord(b + rest, 4 * i) == Header(e)[i]
  {
    var ws, c := Header(e), b + rest;
    assert c[0..4 * |ws|] == b[..4 * |ws|];
    WordsBack(c, 0, ws, i);
  }

  lemma PathBack(b: seq<Byte>, e: Entry, rest: seq<Byte>)
    requires Encodes(b, e)
    ensures var n := 4 * |Header(e)|;
            n + |Path(e)| <= |b| && (b + rest)[n..n + |Path(e)|] == Path(e)
  {
    var n := 4 * |Header(e)|;
    assert (b + rest)[n..n + |Path(e)|] == b[n..n + |Path(e)|];
  }

  lemma {:induction false} ProcsBack(c: seq<Byte>, off: nat, procs: seq<ProcTraf>)
    requires off + 12 * |procs| <= |c|
    requires forall i | 0 <= i < 3 * |procs| :: GetWord(c, off + 4 * i) == ProcWords(procs)[i]
    ensures GetProcs(c, off, |procs|) == procs
    decreases |procs|
  {
    hide GetWord;
    if procs != [] {
      var ws, rest := ProcWords(procs), ProcWords(procs[1..]);
      assert GetWord(c, off + 4 * 0) == ws[0] && GetWord(c, off + 4 * 1) == ws[1] && GetWord(c, off + 4 * 2) == ws[2];
      forall i | 0 <= i < 3 * |procs[1..]|
        ensures GetWord(c, off + 12 + 4 * i) == rest[i]
      {
        assert off + 4 * (i + 3) == off + 12 + 4 * i && ws[i + 3] == rest[i];
      }
      ProcsBack(c, off + 12, procs[1..]);
    }
  }

  lemma NextPathEntry(b: seq<Byte>, e: Entry, rest: seq<Byte>)
    requires Encodes(b, e) && (e.Blocked? || e.ProcNew?)
    ensures Next(b + rest) == Some((e, |b|))
  {
    hide Encodes, Words, GetWord, Head, Kind, HasOption, Len;
    EncodedSize(b, e);
    HeaderBack(b, e, rest, 0);
    HeaderBack(b, e, rest, 1);
    PathBack(b, e, rest);
    if e.Blocked? {
      HeadBack(BLOCKED, !e.blocked, |e.path|);
    } else {
      HeadBack(PROC_NEW, false, |e.path|);
    }
  }

  lemma NextBlockedIp(b: seq<Byte>, e: Entry, rest: seq<Byte>)
    requires Encodes(b, e) && e.BlockedIp?
    ensures Next(b + rest) == Some((e, |b|))
  {
    hide Encodes, Words, GetWord, Head, Kind, HasOption, Len, Pair;
    EncodedSize(b, e);
    HeadBack(BLOCKED_IP, e.inbound, |e.path|);
    HeaderBack(b, e, rest, 0);
    HeaderBack(b, e, rest, 1);
    HeaderBack(b, e, rest, 2);
    HeaderBack(b, e, rest, 3);
    HeaderBack(b, e, rest, 4);
    HeaderBack(b, e, rest, 5);
    PathBack(b, e, rest);
    PairBack(e.reason, e.proto);
    PairBack(e.localPort, e.remotePort);
  }

  lemma NextStatTraf(b: seq<Byte>, e: Entry, rest: seq<Byte>)
    requires Encodes(b, e) && e.StatTraf?
    ensures Next(b + rest) == Some((e, |b|))
  {
    hide Encodes, Words, GetWord, Head, Kind, HasOption, Len, ProcWords;
    EncodedSize(b, e);
    HeadBack(STAT_TRAF, false, |e.procs|);
    CountBack(|e.procs|);
    HeaderBack(b, e, rest, 0);
    forall i | 0 <= i < 3 * |e.procs|
      ensures 4 + 4 * i + 4 <= |b + rest| && GetWord(b + rest, 4 + 4 * i) == ProcWords(e.procs)[i]
    {
      HeaderBack(b, e, rest, i + 1);
    }
    ProcsBack(b + rest, 4, e.procs);
  }

  lemma NextTime(b: seq<Byte>, e: Entry, rest: seq<Byte>)
    requires Encodes(b, e) && e.Time?
    ensures Next(b + rest) == Some((e, |b|))
  {
    hide Encodes, Words, GetWord, Head, Kind, HasOption, Len;
    EncodedSize(b, e);
    HeadBack(TIME, false, 0);
    HeaderBack(b, e, rest, 0);
    HeaderBack(b, e, rest, 1);
    HeaderBack(b, e, rest, 2);
  }

  /** Every entry is read back from the front of any bytes it starts, and its end is found. */
  lemma NextEncoded(b: seq<Byte>, e: Entry, rest: seq<Byte>)
    requires Encodes(b, e)
    ensures Next(b + rest) == Some((e, |b|))
  {
    hide Encodes, Next;
    match e
    case Blocked(_, _, _) => NextPathEntry(b, e, rest);
    case ProcNew(_, _) => NextPathEntry(b, e, rest);
    case BlockedIp(_, _, _, _, _, _, _, _, _) => NextBlockedIp(b, e, rest);
    case StatTraf(_) => NextStatTraf(b, e, rest);
    case Time(_) => NextTime(b, e, rest);
  }

  lemma EncodedSize(b: seq<Byte>, e: Entry)
    requires Encodes(b, e)
    ensures Writable(e) && |b| == Size(e)
  {
  }

  /** The words of a header, in numbers: the type and option bits with the length or count, and then the fields. */
  lemma HeaderWords(e: Entry)
    requires Writable(e)
    ensures var ws, opt := Header(e), 0x1000_0000;
            match e
            case Blocked(blocked, pid, path) => ws == [0x0010_0000 + |path| + (if blocked then 0 else opt), pid]
            case BlockedIp(inbound, reason, proto, localPort, remotePort, localIp, remoteIp, pid, path) =>
              var r: nat, q: nat, lp: nat, rp: nat := reason, proto, localPort, remotePort;
              ws == [0x0020_0000 + |path| + (if inbound then opt else 0), r + q * 65536, lp + rp * 65536,
                     localIp, remoteIp, pid]
            case ProcNew(pid, path) => ws == [0x0100_0000 + |path|, pid]
            case StatTraf(procs) =>
              && |ws| == 1 + 3 * |procs| && ws[0] == 0x0200_0000 + |procs|
              && forall i | 0 <= i < |procs| ::
                   (ws[1 + 3 * i], ws[2 + 3 * i], ws[3 + 3 * i]) == (procs[i].pid, procs[i].inBytes, procs[i].outBytes)
            case Time(t) =>
              && |ws| == 3 && ws[0] == 0x0400_0000
              && var lo: nat, hi: nat := ws[1], ws[2];
                 lo + hi * 0x1_0000_0000 == (if t < 0 then t + 0x1_0000_0000_0000_0000 else t)
  {
    if e.StatTraf? {
      forall i | 0 <= i < |e.procs|
        ensures var ws, t := Header(e), e.procs[i];
                (ws[1 + 3 * i], ws[2 + 3 * i], ws[3 + 3 * i]) == (t.pid, t.inBytes, t.outBytes)
      {
        ProcWordsAt(e.procs, i);
      }
    }
  }

  /** The bytes of an entry: its header words, the least significant byte first, its path, and up to three more. */
  lemma EntryBytes(b: seq<Byte>, e: Entry)
    requires Encodes(b, e)
    ensures var ws, path := Header(e), Path(e);
            && 4 * |ws| + |path| <= |b| < 4 * |ws| + |path| + 4 && |b| % 4 == 0
            && (forall i | 0 <= i < |ws| ::
                 var b0: nat, b1: nat, b2: nat, b3: nat := b[4 * i], b[4 * i + 1], b[4 * i + 2], b[4 * i + 3];
                 b0 + 256 * b1 + 65536 * b2 + 16777216 * b3 == ws[i])
            && b[4 * |ws|..4 * |ws| + |path|] == path
  {
    hide Header, Path;
    assert b + [] == b;
    forall i | 0 <= i < |Header(e)|
      ensures var b0: nat, b1: nat, b2: nat, b3: nat := b[4 * i], b[4 * i + 1], b[4 * i + 2], b[4 * i + 3];
              b0 + 256 * b1 + 65536 * b2 + 16777216 * b3 == Header(e)[i]
    {
      HeaderBack(b, e, [], i);
    }
  }

  lemma PairBack(lo: UInt16, hi: UInt16)
    ensures Pair(lo, hi) % 0x1_0000 == lo && Pair(lo, hi) / 0x1_0000 == hi
    ensures lo < 256 ==> Pair(lo, hi) % 256 == lo
    ensures hi < 256 ==> Pair(lo, hi) / 0x1_0000 % 256 == hi
  {
    var h: nat, l: nat := hi, lo;
    HalfWords(h, l);
    if l < 256 { LowByte(256 * h, l); }
  }

  lemma HalfWords(q: nat, r: nat)
    requires r < 0x1_0000
    ensures (q * 0x1_0000 + r) / 0x1_0000 == q && (q * 0x1_0000 + r) % 0x1_0000 == r
  {
  }

  lemma LowByte(q: nat, r: nat)
    requires r < 256
    ensures (256 * q + r) % 256 == r
  {
  }

  lemma CountBack(count: nat)
    requires count < 0x1_0000
    ensures Head(STAT_TRAF, false, count) % 0x1_0000 == count
  {
  }

  /**
    * Which entries are short: those with a path of an address block, and reports of many processes, may be
    * longer than the room a pending read keeps. All fit a chunk.
    */
  lemma EntrySizes(e: Entry)
    requires Writable(e)
    ensures 0 < Size(e) <= BUFFER_SIZE
    ensures Size(e) <= SIZE_MAX <==>
            match e {
              case BlockedIp(_, _, _, _, _, _, _, _, path) => |path| <= 496
              case StatTraf(procs) => |procs| <= 43
              case _ => true
            }
  {
  }

  // ---------------------------------------------------------------------------------------------
  // Sequences of entries
  // ---------------------------------------------------------------------------------------------

  /** All entries, up to the end or to bytes that cannot be read. */
  function Entries(b: seq<Byte>): seq<Entry>
    decreases |b|
  {
    match Next(b)
    case None => []
    case Some((e, size)) => [e] + Entries(b[size..])
  }

  ghost predicate EncodesAll(recs: seq<Record>, entries: seq<Entry>) {
    |recs| == |entries| && forall i | 0 <= i < |recs| :: Encodes(recs[i], entries[i])
  }

  lemma {:induction false} ConcatFront(rec: Record, recs: seq<Record>)
    ensures Concat([rec] + recs) == rec + Concat(recs)
  {
    if recs == [] {
      assert [rec] + recs == [] + [rec];
      ConcatAdd([], rec);
    } else {
      var n := |recs| - 1;
      assert ([rec] + recs)[..n + 1] == [rec] + recs[..n];
      ConcatFront(rec, recs[..n]);
    }
  }

  /** Decoding what was encoded: records one after the other are read back as their entries. */
  lemma {:induction false} ReadsBack(recs: seq<Record>, entries: seq<Entry>)
    requires EncodesAll(recs, entries)
    ensures Entries(Concat(recs)) == entries
    decreases |recs|
  {
    hide Next, Encodes;
    if recs == [] {
      NothingToRead();
    } else {
      var rest := Concat(recs[1..]);
      assert recs == [recs[0]] + recs[1..];
      ConcatFront(recs[0], recs[1..]);
      NextEncoded(recs[0], entries[0], rest);
      assert (recs[0] + rest)[|recs[0]|..] == rest;
      ReadsBack(recs[1..], entries[1..]);
    }
  }

  lemma SomeOfThem(recs: seq<Record>, entries: seq<Entry>, i: nat, j: nat)
    requires EncodesAll(recs, entries) && i <= j <= |recs|
    ensures |recs| == |entries| && EncodesAll(recs[i..j], entries[i..j])
  {
  }

  /** A reader gets back what was written: the bytes handed over so far decode to the first entries written, those
      in the pending read to the next ones, and those of the queued chunks to the last. */
  lemma WrittenIsRead(buf: LogBuffer, entries: seq<Entry>)
    requires buf.Valid() && EncodesAll(buf.written, entries)
    ensures var d, p := |buf.delivered|, |buf.delivered| + |buf.pendingRecs|;
            && d <= p <= |entries|
            && Entries(Concat(buf.delivered)) == entries[..d]
            && (buf.outLen != 0 ==> Entries(buf.out[..buf.outTop]) == entries[d..p])
            && Entries(Concat(Flatten(buf.chunkRecs))) == entries[p..]
  {
    hide EncodesAll, Entries, Holds, NoneEmpty, Concat, Flatten;
    var d, p := |buf.delivered|, |buf.delivered| + |buf.pendingRecs|;
    var n := |buf.written|;
    assert buf.written[0..d] == buf.delivered && buf.written[d..p] == buf.pendingRecs;
    assert buf.written[p..n] == Flatten(buf.chunkRecs);
    SomeOfThem(buf.written, entries, 0, d);
    SomeOfThem(buf.written, entries, d, p);
    SomeOfThem(buf.written, entries, p, n);
    ReadsBack(buf.delivered, entries[0..d]);
    ReadsBack(buf.pendingRecs, entries[d..p]);
    ReadsBack(Flatten(buf.chunkRecs), entries[p..n]);
  }

  lemma NothingToRead()
    ensures Next(Concat([])) == None
  {
  }

  // ---------------------------------------------------------------------------------------------
  // Writing
  // ---------------------------------------------------------------------------------------------

  lemma {:induction false} WordsAdd(ws: seq<UInt32>, w: UInt32)
    ensures Words(ws + [w]) == Words(ws) + Word(w)
  {
    if ws == [] {
      assert [w][1..] == [];
    } else {
      assert (ws + [w])[1..] == ws[1..] + [w];
      WordsAdd(ws[1..], w);
    }
  }

  /** `*up++ = w`: the next word of a header. */
  method Put(p: array<Byte>, start: nat, up: nat, w: UInt32, ghost ws: seq<UInt32>, ghost k: nat) returns (up': nat)
    requires k < |ws| && ws[k] == w
    requires start + 4 * k == up <= up + 4 <= p.Length && p[start..up] == Words(ws[..k])
    modifies p
    ensures up' == up + 4 && p[start..up'] == Words(ws[..k + 1])
    ensures p[..start] == old(p[..start]) && (forall k | up' <= k < p.Length :: p[k] == old(p[k]))
  {
    var b := Word(w);
    p[up] := b[0];
    p[up + 1] := b[1];
    p[up + 2] := b[2];
    p[up + 3] := b[3];
    up' := up + 4;
    WordsAdd(ws[..k], w);
    assert ws[..k + 1] == ws[..k] + [w];
    assert p[start..up'] == p[start..up] + p[up..up'];
  }

  /** The path after the header. */
  method PutPath(p: array<Byte>, start: nat, up: nat, path: seq<Byte>, ghost e: Entry)
    requires Writable(e) && Path(e) == path && start + Size(e) <= p.Length
    requires up == start + 4 * |Header(e)| && p[start..up] == Words(Header(e)[..|Header(e)|])
    modifies p
    ensures Encodes(p[start..start + Size(e)], e) && p[..start] == old(p[..start])
    ensures forall k | start + Size(e) <= k < p.Length :: p[k] == old(p[k])
  {
    hide Words, Header, Encodes;
    var i := 0;
    assert Header(e)[..|Header(e)|] == Header(e);
    while i < |path|
      invariant i <= |path| <= Aligned(|path|) && p[up..up + i] == path[..i]
      invariant p[start..up] == Words(Header(e)) && p[..start] == old(p[..start])
      invariant forall k | start + Size(e) <= k < p.Length :: p[k] == old(p[k])
    {
      p[up + i] := path[i];
      i := i + 1;
    }
    EncodedAt(p[..], start, up, e);
  }

  /** An entry between other bytes. */
  lemma EncodedAt(s: seq<Byte>, start: nat, up: nat, e: Entry)
    requires Writable(e) && start + Size(e) <= |s| && up == start + 4 * |Header(e)|
    requires up + |Path(e)| <= |s| && s[start..up] == Words(Header(e)) && s[up..up + |Path(e)|] == Path(e)
    ensures Encodes(s[start..start + Size(e)], e)
  {
    hide Words, Header, Path;
    var n := |Header(e)|;
    PartOfPart(s, start, Size(e), 0, 4 * n);
    PartOfPart(s, start, Size(e), 4 * n, 4 * n + |Path(e)|);
  }

  lemma PartOfPart(s: seq<Byte>, start: nat, size: nat, i: nat, j: nat)
    requires i <= j <= size && start + size <= |s|
    ensures s[start..start + size][i..j] == s[start + i..start + j]
  {
    var b := s[start..start + size][i..j];
    assert |b| == j - i && forall k | 0 <= k < |b| :: b[k] == s[start + i + k];
  }

  method BlockedWrite(p: array<Byte>, start: nat, blocked: bool, pid: UInt32, path: seq<Byte>)
    requires |path| <= PATH_MAX && start + 8 + Aligned(|path|) <= p.Length
    modifies p
    ensures var e := Blocked(blocked, pid, path);
            && Encodes(p[start..start + Size(e)], e) && p[..start] == old(p[..start])
            && forall k | start + Size(e) <= k < p.Length :: p[k] == old(p[k])
  {
    hide Encodes, Words, Head;
    NoWords();
    ghost var ws := Header(Blocked(blocked, pid, path));
    var up := Put(p, start, start, Head(BLOCKED, !blocked, |path|), ws, 0);
    up := Put(p, start, up, pid, ws, 1);
    PutPath(p, start, up, path, Blocked(blocked, pid, path));
  }

  method BlockedIpWrite(p: array<Byte>, start: nat, inbound: bool, reason: Byte, proto: Byte, localPort: UInt16,
                        remotePort: UInt16,
                        localIp: UInt32, remoteIp: UInt32, pid: UInt32, path: seq<Byte>)
    requires |path| <= PATH_MAX && start + 24 + Aligned(|path|) <= p.Length
    modifies p
    ensures var e := BlockedIp(inbound, reason, proto, localPort, remotePort, localIp, remoteIp, pid, path);
            && Encodes(p[start..start + Size(e)], e) && p[..start] == old(p[..start])
            && forall k | start + Size(e) <= k < p.Length :: p[k] == old(p[k])
  {
    hide Encodes, Words, Head, Pair;
    NoWords();
    ghost var ws := Header(BlockedIp(inbound, reason, proto, localPort, remotePort, localIp, remoteIp, pid, path));
    var up := Put(p, start, start, Head(BLOCKED_IP, inbound, |path|), ws, 0);
    up := Put(p, start, up, Pair(reason, proto), ws, 1);
    up := Put(p, start, up, Pair(localPort, remotePort), ws, 2);
    up := Put(p, start, up, localIp, ws, 3);
    up := Put(p, start, up, remoteIp, ws, 4);
    up := Put(p, start, up, pid, ws, 5);
    PutPath(p, start, up, path, BlockedIp(inbound, reason, proto, localPort, remotePort, localIp, remoteIp, pid, path));
  }

  method ProcNewWrite(p: array<Byte>, start: nat, pid: UInt32, path: seq<Byte>)
    requires |path| <= PATH_MAX && start + 8 + Aligned(|path|) <= p.Length
    modifies p
    ensures var e := ProcNew(pid, path);
            && Encodes(p[start..start + Size(e)], e) && p[..start] == old(p[..start])
            && forall k | start + Size(e) <= k < p.Length :: p[k] == old(p[k])
  {
    hide Encodes, Words, Head;
    NoWords();
    ghost var ws := Header(ProcNew(pid, path));
    var up := Put(p, start, start, Head(PROC_NEW, false, |path|), ws, 0);
    up := Put(p, start, up, pid, ws, 1);
    PutPath(p, start, up, path, ProcNew(pid, path));
  }

  method TimeWrite(p: array<Byte>, start: nat, unixTime: Int64)
    requires start + 12 <= p.Length
    modifies p
    ensures Encodes(p[start..start + 12], Time(unixTime)) && p[..start] == old(p[..start])
    ensures forall k | start + 12 <= k < p.Length :: p[k] == old(p[k])
  {
    hide Encodes, Words, Head;
    NoWords();
    ghost var ws := Header(Time(unixTime));
    var u := Unsigned(unixTime);
    var up := Put(p, start, start, Head(TIME, false, 0), ws, 0);
    up := Put(p, start, up, u % 0x1_0000_0000, ws, 1);
    up := Put(p, start, up, u / 0x1_0000_0000, ws, 2);
    PutPath(p, start, up, [], Time(unixTime));
  }

  /** The header and then the counters of each process. */
  method StatTrafWrite(p: array<Byte>, start: nat, procs: seq<ProcTraf>)
    requires |procs| <= PROC_COUNT && start + 4 + 12 * |procs| <= p.Length
    modifies p
    ensures var e := StatTraf(procs);
            && Encodes(p[start..start + Size(e)], e) && p[..start] == old(p[..start])
            && forall k | start + Size(e) <= k < p.Length :: p[k] == old(p[k])
  {
    hide Encodes, Words, Head, ProcWords;
    NoWords();
    ghost var ws := Header(StatTraf(procs));
    var up := Put(p, start, start, Head(STAT_TRAF, false, |procs|), ws, 0);
    var i := 0;
    while i < |procs|
      invariant i <= |procs| && up == start + 4 + 12 * i
      invariant p[start..up] == Words(ws[..1 + 3 * i])
      invariant p[..start] == old(p[..start]) && (forall k | up <= k < p.Length :: p[k] == old(p[k]))
    {
      ProcWordsAt(procs, i);
      up := PutProc(p, start, up, procs[i], ws, 1 + 3 * i);
      i := i + 1;
    }
    PutPath(p, start, up, [], StatTraf(procs));
  }

  method PutProc(p: array<Byte>, start: nat, up: nat, t: ProcTraf, ghost ws: seq<UInt32>, ghost k: nat)
    returns (up': nat)
    requires k + 3 <= |ws| && ws[k] == t.pid && ws[k + 1] == t.inBytes && ws[k + 2] == t.outBytes
    requires start + 4 * k == up <= up + 12 <= p.Length && p[start..up] == Words(ws[..k])
    modifies p
    ensures up' == up + 12 && p[start..up'] == Words(ws[..k + 3]) && p[..start] == old(p[..start])
    ensures forall k | up' <= k < p.Length :: p[k] == old(p[k])
  {
    hide Words;
    up' := Put(p, start, up, t.pid, ws, k);
    up' := Put(p, start, up', t.inBytes, ws, k + 1);
    up' := Put(p, start, up', t.outBytes, ws, k + 2);
  }

  // ---------------------------------------------------------------------------------------------
  // A run that overruns
  // ---------------------------------------------------------------------------------------------

  const SHORT_ENTRY := Blocked(true, 4, seq(32, _ => 0))

  /** A read as full as it can be without being completed: after 395 records of 40 bytes, a record fits it exactly
      when it is no longer than a short one. */
  method FullRead() returns (buf: LogBuffer)
    ensures fresh(buf) && fresh(buf.out) && buf.Valid() && buf.irp == Some(1) && buf.outLen == BUFFER_SIZE
    ensures |buf.written| == 395 && forall rec | rec in buf.written :: Encodes(rec, SHORT_ENTRY)
    ensures forall rec: Record :: buf.Fits(rec) <==> |rec| <= SIZE_MAX
  {
    hide Encodes, Holds, NoneEmpty, Concat, Flatten, Top;
    var out := new Byte[BUFFER_SIZE];
    buf := new LogBuffer(out);
    var status, info := buf.GetLog(1, out, BUFFER_SIZE);
    var p := new Byte[40];
    BlockedWrite(p, 0, true, 4, seq(32, _ => 0));
    var rec := p[..];
    assert p[0..40] == rec;
    var i := 0;
    while i < 395
      invariant i <= 395 && fresh(buf) && fresh(buf.out) && buf.out == out && buf.Valid()
      invariant buf.irp == Some(1) && buf.outLen == BUFFER_SIZE && buf.outTop == 40 * i
      invariant |buf.written| == i && forall r | r in buf.written :: Encodes(r, SHORT_ENTRY)
    {
      var completed;
      status, completed := buf.Write(rec, false);
      i := i + 1;
    }
  }

  /** A blocked-address record with a path of 512 bytes is then written past the end of the read, and the read is
      not even completed. */
  method Overrun() returns (buf: LogBuffer, rec: Record)
    ensures fresh(buf) && buf.Valid() && buf.outLen == BUFFER_SIZE && buf.irp == Some(1)
    ensures exists e: Entry :: e.BlockedIp? && |e.path| == PATH_MAX && Encodes(rec, e)
    ensures !buf.Fits(rec) && (buf.outLen - (buf.outTop + |rec|)) % U32 >= SIZE_MAX
  {
    hide Encodes, Holds, NoneEmpty, Concat, Flatten, Top;
    buf := FullRead();
    var p := new Byte[536];
    var path: seq<Byte> := seq(PATH_MAX, _ => 0);
    BlockedIpWrite(p, 0, true, 0, 6, 80, 80, 1, 2, 4, path);
    rec := p[..];
    assert p[0..536] == rec;
    assert Encodes(rec, BlockedIp(true, 0, 6, 80, 80, 1, 2, 4, path));
    OverrunUnnoticed(buf, rec);
  }

  lemma NoWords()
    ensures Words([]) == []
  {
  }

  lemma {:induction false} ProcWordsAt(procs: seq<ProcTraf>, i: nat)
    requires i < |procs|
    ensures var ws, t := ProcWords(procs), procs[i];
            ws[3 * i] == t.pid && ws[3 * i + 1] == t.inBytes && ws[3 * i + 2] == t.outBytes
  {
    if i > 0 {
      ProcWordsAt(procs[1..], i - 1);
      var first, rest := [procs[0].pid, procs[0].inBytes, procs[0].outBytes], ProcWords(procs[1..]);
      Behind(first, rest, 3 * i);
      Behind(first, rest, 3 * i + 1);
      Behind(first, rest, 3 * i + 2);
    }
  }

  lemma Behind(first: seq<UInt32>, rest: seq<UInt32>, k: nat)
    requires |first| <= k < |first| + |rest|
    ensures (first + rest)[k] == rest[k - |first|]
  {
  }
}
