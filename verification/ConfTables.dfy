/** Lookups in the configuration: addresses, program prefixes and wildcards, and group permissions. */
module ConfTables {
  import opened Glob
  import W = Wildmatch
  import opened Widths
  import opened Wrappers
  import Bits
  import ExeMap

  // ---------------------------------------------------------------------------------------------
  // Addresses
  // ---------------------------------------------------------------------------------------------

  /** Single addresses first; then the starts of the ranges, and after them their ends. */
  datatype AddrList = AddrList(ipN: nat, pairN: nat, ip: seq<nat>)

  function Start(arr: seq<nat>, i: nat): nat
    requires i < |arr|
  {
    arr[i]
  }

  function End(arr: seq<nat>, n: nat, i: nat): nat
    requires i < n && n + i < |arr|
  {
    arr[n + i]
  }

  /** The first n are in ascending order. */
  predicate Ascending(arr: seq<nat>, n: nat)
    requires n <= |arr|
  {
    forall i, j | 0 <= i < j < n :: Start(arr, i) < Start(arr, j)
  }

  /** Ranges in order, none of them empty, no two with a common address. */
  predicate DisjointRanges(arr: seq<nat>, n: nat)
    requires 2 * n <= |arr|
  {
    && (forall i | 0 <= i < n :: Start(arr, i) <= End(arr, n, i))
    && (forall i, j | 0 <= i < j < n :: End(arr, n, i) < Start(arr, j))
  }

  predicate InRange(arr: seq<nat>, n: nat, ip: nat, i: nat)
    requires i < n && 2 * n <= |arr|
  {
    Start(arr, i) <= ip <= End(arr, n, i)
  }

  lemma RangesAscend(arr: seq<nat>, n: nat)
    requires 2 * n <= |arr| && DisjointRanges(arr, n)
    ensures Ascending(arr, n)
  {
    forall i, j | 0 <= i < j < n
      ensures Start(arr, i) < Start(arr, j)
    {
      assert Start(arr, i) <= End(arr, n, i) < Start(arr, j);
    }
  }

  /** Between two neighbouring starts, only the range of the lower one can contain the address. */
  lemma OnlyRange(arr: seq<nat>, n: nat, ip: nat, low: nat, i: nat)
    requires 2 * n <= |arr| && DisjointRanges(arr, n) && i < n
    requires low <= n && (forall k | 0 <= k < low :: Start(arr, k) < ip)
             && (forall k | low <= k < n :: ip < Start(arr, k))
    ensures InRange(arr, n, ip, i) ==> i == low - 1
  {
    if i < low - 1 {
      assert End(arr, n, i) < Start(arr, low - 1) < ip;
    }
  }

  /** fort_conf_ip_find: a binary search among addresses, or among the starts of ranges. */
  method IpFind(ip: nat, count: nat, arr: seq<nat>, isRange: bool) returns (found: bool)
    requires count <= |arr| && Ascending(arr, count)
    requires isRange ==> 2 * count <= |arr| && DisjointRanges(arr, count)
    ensures !isRange ==> (found <==> ip in arr[..count])
    ensures isRange ==> (found <==> exists i :: 0 <= i < count && InRange(arr, count, ip, i))
  {
    if count == 0 {
      return false;
    }
    var low, high := 0, count - 1;
    while true
      invariant 0 <= low <= high < count
      invariant forall i | 0 <= i < low :: Start(arr, i) < ip
      invariant forall i | high < i < count :: ip < Start(arr, i)
      decreases high - low
    {
      var mid := (low + high) / 2;
      var midIp := Start(arr, mid);
      if ip < midIp {
        high := mid - 1;
      } else if ip > midIp {
        low := mid + 1;
      } else {
        assert arr[..count][mid] == ip;
        assert isRange ==> InRange(arr, count, ip, mid);
        return true;
      }
      if low > high {
        break;
      }
    }
    assert low == high + 1;
    if !isRange {
      assert forall i | 0 <= i < count :: arr[..count][i] == Start(arr, i);
      return false;
    }
    forall i | 0 <= i < count
      ensures InRange(arr, count, ip, i) ==> i == high
    {
      OnlyRange(arr, count, ip, low, i);
    }
    found := high >= 0 && ip >= Start(arr, high) && ip <= End(arr, count, high);
    if found {
      assert InRange(arr, count, ip, high);
    }
  }

  predicate ListOk(list: AddrList) {
    && list.ipN + 2 * list.pairN <= |list.ip|
    && Ascending(list.ip, list.ipN)
    && DisjointRanges(list.ip[list.ipN..], list.pairN)
  }

  /** The address is one of the list, or in one of its ranges. */
  predicate Listed(list: AddrList, ip: nat)
    requires ListOk(list)
  {
    || ip in list.ip[..list.ipN]
    || exists i :: 0 <= i < list.pairN && InRange(list.ip[list.ipN..], list.pairN, ip, i)
  }

  lemma RangesMean(arr: seq<nat>, n: nat, ip: nat)
    requires 2 * n <= |arr|
    ensures (exists i :: 0 <= i < n && InRange(arr, n, ip, i)) <==>
              exists i :: 0 <= i < n && arr[i] <= ip <= arr[n + i]
  {
    if i :| 0 <= i < n && arr[i] <= ip <= arr[n + i] {
      assert InRange(arr, n, ip, i);
    }
  }

  lemma ListedMeans(list: AddrList, ip: nat)
    requires ListOk(list)
    ensures Listed(list, ip) <==>
      || (exists i :: 0 <= i < list.ipN && list.ip[i] == ip)
      || exists k :: list.ipN <= k < list.ipN + list.pairN && list.ip[k] <= ip <= list.ip[list.pairN + k]
  {
    hide Ascending, DisjointRanges, InRange;
    RangesMean(list.ip[list.ipN..], list.pairN, ip);
    RangesFrom(list.ip, list.ipN, list.pairN, ip);
    assert forall i | 0 <= i < list.ipN :: list.ip[..list.ipN][i] == list.ip[i];
  }

  /** The ranges behind the first m addresses. */
  lemma RangesFrom(arr: seq<nat>, m: nat, n: nat, ip: nat)
    requires m + 2 * n <= |arr|
    ensures (exists i :: 0 <= i < n && arr[m..][i] <= ip <= arr[m..][n + i]) <==>
              exists k :: m <= k < m + n && arr[k] <= ip <= arr[n + k]
  {
    if k :| m <= k < m + n && arr[k] <= ip <= arr[n + k] {
      assert arr[m..][k - m] <= ip <= arr[m..][n + (k - m)];
    }
  }

  /** fort_conf_ip_inlist */
  method IpInList(ip: nat, list: AddrList) returns (r: bool)
    requires ListOk(list)
    ensures r <==> Listed(list, ip)
    ensures r <==>
      || (exists i :: 0 <= i < list.ipN && list.ip[i] == ip)
      || exists k :: list.ipN <= k < list.ipN + list.pairN && list.ip[k] <= ip <= list.ip[list.pairN + k]
  {
    ListedMeans(list, ip);
    r := IpFind(ip, list.ipN, list.ip, false);
    if !r {
      RangesAscend(list.ip[list.ipN..], list.pairN);
      r := IpFind(ip, list.pairN, list.ip[list.ipN..], true);
    }
  }

  /** Zones with an address list each; only those that are known and enabled count. */
  datatype Zones = Zones(mask: Bits.Word, enabledMask: Bits.Word, lists: seq<AddrList>)

  predicate ZonesOk(zones: Zones) {
    |zones.lists| == 32 && forall z | 0 <= z < 32 :: ListOk(zones.lists[z])
  }

  /** Some zone that is asked for, known and enabled lists the address. */
  ghost predicate InZones(zones: Option<Zones>, zonesMask: Bits.Word, ip: nat)
    requires zones.Some? ==> ZonesOk(zones.value)
  {
    zones.Some? && exists z :: 0 <= z < 32 && zonesMask[z] && zones.value.mask[z] && zones.value.enabledMask[z]
                               && Listed(zones.value.lists[z], ip)
  }

  /** fort_conf_zones_ip_included: tries the zones from the lowest bit up. */
  method ZonesIpIncluded(zones: Option<Zones>, zonesMask: Bits.Word, ip: nat) returns (r: bool)
    requires zones.Some? ==> ZonesOk(zones.value)
    ensures r <==> InZones(zones, zonesMask, ip)
    ensures r <==>
      zones.Some? && exists z :: 0 <= z < 32 && zonesMask[z] && zones.value.mask[z] && zones.value.enabledMask[z]
                                 && Listed(zones.value.lists[z], ip)
  {
    hide Listed;
    if zones == None {
      return false;
    }
    var zs := zones.value;
    var rest: Bits.Word := seq(32, i requires 0 <= i < 32 => zonesMask[i] && zs.mask[i] && zs.enabledMask[i]);
    var low := 0;
    while !Bits.IsZero(rest)
      invariant 0 <= low <= 32
      invariant forall z | 0 <= z < low ::
                  !rest[z] && !(zonesMask[z] && zs.mask[z] && zs.enabledMask[z] && Listed(zs.lists[z], ip))
      invariant forall z | low <= z < 32 :: rest[z] == (zonesMask[z] && zs.mask[z] && zs.enabledMask[z])
      decreases 32 - low
    {
      var zoneIndex := Bits.Ffs(rest);
      var listed := IpInList(ip, zs.lists[zoneIndex]);
      if listed {
        assert zonesMask[zoneIndex];
        return true;
      }
      rest := Bits.ClearBit(rest, zoneIndex);
      low := zoneIndex + 1;
    }
    r := false;
  }

  /** An address group: what it includes and what it excludes, each everything, or a list and zones. */
  datatype AddrGroup = AddrGroup(includeAll: bool, excludeAll: bool, includeIsEmpty: bool, excludeIsEmpty: bool,
                                 includeZones: Bits.Word, excludeZones: Bits.Word, includeList: AddrList,
                                 excludeList: AddrList)

  predicate GroupOk(g: AddrGroup) {
    (!g.includeIsEmpty ==> ListOk(g.includeList)) && (!g.excludeIsEmpty ==> ListOk(g.excludeList))
  }

  method IncludedCheck(list: AddrList, zones: Option<Zones>, ip: nat, zonesMask: Bits.Word, listIsEmpty: bool)
    returns (r: bool)
    requires (!listIsEmpty ==> ListOk(list)) && (zones.Some? ==> ZonesOk(zones.value))
    ensures r <==> (!listIsEmpty && Listed(list, ip)) || InZones(zones, zonesMask, ip)
  {
    r := false;
    if !listIsEmpty {
      r := IpInList(ip, list);
    }
    if !r {
      r := ZonesIpIncluded(zones, zonesMask, ip);
    }
  }

  /** fort_conf_ip_included: included and not excluded, except that excluding everything yields to an inclusion list. */
  method IpIncluded(g: AddrGroup, zones: Option<Zones>, ip: nat) returns (r: bool)
    requires GroupOk(g) && (zones.Some? ==> ZonesOk(zones.value))
    ensures
      var included := (!g.includeIsEmpty && Listed(g.includeList, ip)) || InZones(zones, g.includeZones, ip);
      var excluded := (!g.excludeIsEmpty && Listed(g.excludeList, ip)) || InZones(zones, g.excludeZones, ip);
      r <==> if g.includeAll then !g.excludeAll && !excluded else included && (g.excludeAll || !excluded)
  {
    var excluded := true;
    if !g.excludeAll {
      excluded := IncludedCheck(g.excludeList, zones, ip, g.excludeZones, g.excludeIsEmpty);
    }
    if g.includeAll {
      return !excluded;
    }
    var included := IncludedCheck(g.includeList, zones, ip, g.includeZones, g.includeIsEmpty);
    if g.excludeAll {
      return included;
    }
    r := included && !excluded;
  }

  // ---------------------------------------------------------------------------------------------
  // Programs
  // ---------------------------------------------------------------------------------------------

  type Flags = ExeMap.Flags

  /** A path as bytes; they are compared as signed characters. */
  datatype PrefixEntry = PrefixEntry(path: seq<int>, flags: Flags)

  function MinLen(a: seq<int>, b: seq<int>): nat {
    if |a| < |b| then |a| else |b|
  }

  /** One of the two is a prefix of the other. */
  predicate Agree(a: seq<int>, b: seq<int>) {
    a[..MinLen(a, b)] == b[..MinLen(a, b)]
  }

  predicate LessAt(a: seq<int>, b: seq<int>, k: nat) {
    k < |a| && k < |b| && a[..k] == b[..k] && a[k] < b[k]
  }

  ghost predicate Less(a: seq<int>, b: seq<int>) {
    exists k: nat :: LessAt(a, b, k)
  }

  lemma LessTransitive(a: seq<int>, b: seq<int>, c: seq<int>)
    requires Less(a, b) && Less(b, c)
    ensures Less(a, c)
  {
    var i: nat :| LessAt(a, b, i);
    var j: nat :| LessAt(b, c, j);
    var k := if i < j then i else j;
    assert a[..k] == a[..i][..k] && b[..k] == b[..i][..k] == b[..j][..k] && c[..k] == c[..j][..k];
    assert i < j ==> b[i] == b[..j][i] == c[..j][i] == c[i];
    assert j < i ==> b[j] == b[..i][j] == a[..i][j] == a[j];
    assert LessAt(a, c, k);
  }

  lemma LessDisagrees(a: seq<int>, b: seq<int>)
    requires Less(a, b)
    ensures !Agree(a, b) && !Agree(b, a)
  {
    var k: nat :| LessAt(a, b, k);
    var n := MinLen(a, b);
    assert a[..n][k] == a[k] && b[..n][k] == b[k];
  }

  lemma {:induction false} SameUpTo(a: seq<int>, b: seq<int>, k: nat)
    requires !Less(a, b) && !Less(b, a) && k <= MinLen(a, b)
    ensures a[..k] == b[..k]
  {
    if k > 0 {
      SameUpTo(a, b, k - 1);
      assert !LessAt(a, b, k - 1) && !LessAt(b, a, k - 1);
    }
  }

  /** Paths that differ in neither direction agree. */
  lemma Comparable(a: seq<int>, b: seq<int>)
    requires !Less(a, b) && !Less(b, a)
    ensures Agree(a, b)
  {
    SameUpTo(a, b, MinLen(a, b));
  }

  /** fort_conf_app_prefix_cmp: the sign of the first difference in the common length. */
  method PrefixCmp(path: seq<int>, appPath: seq<int>) returns (res: int)
    ensures res < 0 <==> Less(path, appPath)
    ensures res > 0 <==> Less(appPath, path)
    ensures res == 0 <==> Agree(path, appPath)
  {
    var len := MinLen(path, appPath);
    var n := 0;
    while n < len && path[n] == appPath[n]
      invariant n <= len && path[..n] == appPath[..n]
    {
      n := n + 1;
    }
    if n == len {
      AgreesNotLess(path, appPath);
      return 0;
    }
    res := path[n] - appPath[n];
    if res < 0 {
      assert LessAt(path, appPath, n);
      LessDisagrees(path, appPath);
    } else {
      assert LessAt(appPath, path, n);
      LessDisagrees(appPath, path);
    }
    OneWay(path, appPath);
  }

  lemma AgreesNotLess(a: seq<int>, b: seq<int>)
    requires Agree(a, b)
    ensures !Less(a, b) && !Less(b, a)
  {
    assert Agree(b, a);
    if Less(a, b) { LessDisagrees(a, b); }
    if Less(b, a) { LessDisagrees(b, a); }
  }

  lemma OneWay(a: seq<int>, b: seq<int>)
    ensures !(Less(a, b) && Less(b, a))
  {
    if Less(a, b) && Less(b, a) {
      LessTransitive(a, b, a);
      LessDisagrees(a, a);
    }
  }

  /** In order, so that none of the paths is a prefix of another. */
  ghost predicate PrefixTable(entries: seq<PrefixEntry>) {
    forall i, j | 0 <= i < j < |entries| :: Less(entries[i].path, entries[j].path)
  }

  /** Where the search between two positions of any table ends. */
  ghost function Search(entries: seq<PrefixEntry>, path: seq<int>, low: int, high: int): (r: Option<nat>)
    requires 0 <= low <= high + 1 <= |entries|
    ensures r.Some? ==> low <= r.value <= high && Agree(path, entries[r.value].path)
    decreases high - low + 1
  {
    if low > high then None
    else
      var mid := (low + high) / 2;
      if Less(path, entries[mid].path) then Search(entries, path, low, mid - 1)
      else if Less(entries[mid].path, path) then Search(entries, path, mid + 1, high)
      else
        Comparable(path, entries[mid].path);
        Some(mid)
  }

  ghost function PrefixSearch(entries: seq<PrefixEntry>, path: seq<int>): (r: Option<nat>)
    ensures r.Some? ==> r.value < |entries| && Agree(path, entries[r.value].path)
  {
    Search(entries, path, 0, |entries| - 1)
  }

  /** The flags of the entry that the search ends at. */
  ghost function PrefixFlags(entries: seq<PrefixEntry>, path: seq<int>): Flags {
    var r := PrefixSearch(entries, path);
    if r.Some? then entries[r.value].flags else ExeMap.NO_FLAGS
  }

  /** Agreeing means that one is a prefix of the other. */
  lemma AgreeMeans(a: seq<int>, b: seq<int>)
    ensures Agree(a, b) <==> a <= b || b <= a
  {
    if Agree(a, b) {
      assert a[..|a|] == a && b[..|b|] == b;
      assert |a| <= |b| ==> a == b[..|a|];
      assert |b| < |a| ==> b == a[..|b|];
    }
  }

  /** Some entry is a prefix of the path or has it as a prefix, and has the flags, or there is none. */
  ghost predicate Named(entries: seq<PrefixEntry>, path: seq<int>, flags: Flags) {
    || (flags == ExeMap.NO_FLAGS && forall e | e in entries :: !(path <= e.path || e.path <= path))
    || exists e :: e in entries && (path <= e.path || e.path <= path) && flags == e.flags
  }

  lemma TableFinds(entries: seq<PrefixEntry>, path: seq<int>)
    requires PrefixTable(entries)
    ensures Named(entries, path, PrefixFlags(entries, path))
  {
    hide Agree;
    Found(entries, path);
    forall i | 0 <= i < |entries|
      ensures Agree(path, entries[i].path) <==> path <= entries[i].path || entries[i].path <= path
    {
      AgreeMeans(path, entries[i].path);
    }
  }

  /** fort_conf_app_prefix_find: finds an entry exactly when one agrees with the path on their common length, if the
      table is in order. */
  method PrefixFind(entries: seq<PrefixEntry>, path: seq<int>) returns (flags: Flags)
    ensures flags == PrefixFlags(entries, path)
    ensures PrefixTable(entries) ==> Named(entries, path, flags)
  {
    hide Less, PrefixTable, Named;
    if PrefixTable(entries) { TableFinds(entries, path); }
    flags := ExeMap.NO_FLAGS;
    if |entries| == 0 {
      return;
    }
    var low, high := 0, |entries| - 1;
    while low <= high
      invariant 0 <= low <= high + 1 <= |entries|
      invariant Search(entries, path, low, high) == PrefixSearch(entries, path)
      invariant flags == ExeMap.NO_FLAGS
      decreases high - low
    {
      var mid := (low + high) / 2;
      var res := PrefixCmp(path, entries[mid].path);
      OneWay(path, entries[mid].path);
      if res < 0 {
        high := mid - 1;
      } else if res > 0 {
        low := mid + 1;
      } else {
        AgreesNotLess(path, entries[mid].path);
        return entries[mid].flags;
      }
    }
  }

  /** The search misses nothing for this path. */
  ghost predicate Finds(entries: seq<PrefixEntry>, path: seq<int>) {
    PrefixSearch(entries, path).None? ==> forall i | 0 <= i < |entries| :: !Agree(path, entries[i].path)
  }

  lemma Found(entries: seq<PrefixEntry>, path: seq<int>)
    requires PrefixTable(entries)
    ensures Finds(entries, path)
  {
    SearchFinds(entries, path, 0, |entries| - 1);
  }

  lemma {:induction false} SearchFinds(entries: seq<PrefixEntry>, path: seq<int>, low: int, high: int)
    requires PrefixTable(entries) && 0 <= low <= high + 1 <= |entries|
    ensures Search(entries, path, low, high).None? ==> forall i | low <= i <= high :: !Agree(path, entries[i].path)
    decreases high - low + 1
  {
    hide Less, Agree;
    if low <= high {
      var mid := (low + high) / 2;
      var e := entries[mid].path;
      if Less(path, e) {
        SearchFinds(entries, path, low, mid - 1);
        forall i | mid <= i <= high
          ensures !Agree(path, entries[i].path)
        {
          if i > mid { LessTransitive(path, e, entries[i].path); }
          LessDisagrees(path, entries[i].path);
        }
      } else if Less(e, path) {
        SearchFinds(entries, path, mid + 1, high);
        forall i | low <= i <= mid
          ensures !Agree(path, entries[i].path)
        {
          if i < mid { LessTransitive(entries[i].path, e, path); }
          LessDisagrees(entries[i].path, path);
        }
      }
    }
  }

  /** No entry is a prefix of another. */
  ghost predicate PrefixFree(entries: seq<PrefixEntry>) {
    forall i, j | 0 <= i < |entries| && 0 <= j < |entries| && i != j :: !Agree(entries[i].path, entries[j].path)
  }

  /** A table in which no entry is a prefix of another is searched without a miss, whatever the path, exactly when it
      is in order. */
  lemma FindsIffOrdered(entries: seq<PrefixEntry>)
    requires PrefixFree(entries)
    ensures (forall path {:trigger Finds(entries, path)} :: Finds(entries, path)) <==> PrefixTable(entries)
  {
    hide Less, Agree, PrefixSearch;
    if PrefixTable(entries) {
      forall path {:trigger Finds(entries, path)}
        ensures Finds(entries, path)
      {
        Found(entries, path);
      }
    } else {
      var i, j :| 0 <= i < j < |entries| && !Less(entries[i].path, entries[j].path);
      if Finds(entries, entries[i].path) && Finds(entries, entries[j].path) {
        FindsItself(entries, i);
        FindsItself(entries, j);
        InOrder(entries, i, j, 0, |entries| - 1);
      }
    }
  }

  lemma FindsItself(entries: seq<PrefixEntry>, i: nat)
    requires PrefixFree(entries) && i < |entries| && Finds(entries, entries[i].path)
    ensures Search(entries, entries[i].path, 0, |entries| - 1) == Some(i)
  {
    hide Search, Less;
    assert Agree(entries[i].path, entries[i].path);
  }

  /** Two entries that are found where they are, are in order. */
  lemma {:induction false} InOrder(entries: seq<PrefixEntry>, i: nat, j: nat, low: int, high: int)
    requires 0 <= low <= i < j <= high < |entries|
    requires Search(entries, entries[i].path, low, high) == Some(i)
    requires Search(entries, entries[j].path, low, high) == Some(j)
    ensures Less(entries[i].path, entries[j].path)
    decreases high - low
  {
    hide Less, Agree;
    var mid := (low + high) / 2;
    if j < mid {
      InOrder(entries, i, j, low, mid - 1);
    } else if mid < i {
      InOrder(entries, i, j, mid + 1, high);
    } else if i < mid < j {
      LessTransitive(entries[i].path, entries[mid].path, entries[j].path);
    }
  }

  /** A table in the order of 16-bit units that is not in that of bytes: the paths of one unit U+0062 and U+044F, in
      UTF-16. The second is not found. */
  lemma UnitOrderMisses(first: Flags, second: Flags)
    ensures var b, ya := [0x62, 0x00], [0x4F, 0x04];
            var entries := [PrefixEntry(b, first), PrefixEntry(ya, second)];
            PrefixFree(entries) && PrefixSearch(entries, ya) == None && Agree(ya, entries[1].path)
  {
    var b, ya := [0x62, 0x00], [0x4F, 0x04];
    var entries := [PrefixEntry(b, first), PrefixEntry(ya, second)];
    assert LessAt(ya, b, 0);
    assert Less(ya, b);
    LessDisagrees(ya, b);
    assert Search(entries, ya, 0, -1) == None;
  }

  /** For a path no shorter than the entries, at most one of them agrees. */
  lemma OnePrefix(entries: seq<PrefixEntry>, path: seq<int>, i: nat, j: nat)
    requires PrefixTable(entries) && i < j < |entries|
    requires |path| >= |entries[i].path| && |path| >= |entries[j].path|
    ensures !(Agree(path, entries[i].path) && Agree(path, entries[j].path))
  {
    AgreeBoth(path, entries[i].path, entries[j].path);
    LessDisagrees(entries[i].path, entries[j].path);
  }

  lemma AgreeBoth(path: seq<int>, a: seq<int>, b: seq<int>)
    requires |path| >= |a| && |path| >= |b|
    ensures Agree(path, a) && Agree(path, b) ==> Agree(a, b)
  {
    var n := MinLen(a, b);
    assert path[..n] == path[..|a|][..n] == path[..|b|][..n];
    assert a[..n] == a[..|a|][..n] && b[..n] == b[..|b|][..n];
  }

  datatype WildEntry = WildEntry(pattern: seq<Wchar>, flags: Flags)

  ghost predicate FirstMatch(entries: seq<WildEntry>, path: seq<Wchar>, i: nat) {
    && i < |entries| && Matches(entries[i].pattern, true, path, 0)
    && forall j | 0 <= j < i :: !Matches(entries[j].pattern, true, path, 0)
  }

  /** The flags of the first entry whose pattern matches, or none where no pattern does. */
  ghost predicate WildResult(entries: seq<WildEntry>, path: seq<Wchar>, flags: Flags) {
    if exists i :: 0 <= i < |entries| && Matches(entries[i].pattern, true, path, 0) then
      exists i: nat :: FirstMatch(entries, path, i) && flags == entries[i].flags
    else flags == ExeMap.NO_FLAGS
  }

  /** fort_conf_app_wild_find: the first pattern that the path matches. */
  method WildFind(entries: seq<WildEntry>, path: seq<Wchar>) returns (flags: Flags)
    ensures WildResult(entries, path, flags)
    ensures
      || (flags == ExeMap.NO_FLAGS && forall i | 0 <= i < |entries| :: !Matches(entries[i].pattern, true, path, 0))
      || exists i :: 0 <= i < |entries| && Matches(entries[i].pattern, true, path, 0) && flags == entries[i].flags
                     && forall j | 0 <= j < i :: !Matches(entries[j].pattern, true, path, 0)
  {
    hide Matches;
    flags := ExeMap.NO_FLAGS;
    var i := 0;
    while i < |entries|
      invariant i <= |entries| && flags == ExeMap.NO_FLAGS
      invariant forall j | 0 <= j < i :: !Matches(entries[j].pattern, true, path, 0)
    {
      var res := W.Wildmatch(entries[i].pattern, path, 0);
      SoundMeans(entries[i].pattern, path, res);
      if res == W.WM_MATCH {
        assert FirstMatch(entries, path, i);
        return entries[i].flags;
      }
      i := i + 1;
    }
  }

  lemma SoundMeans(pattern: seq<Wchar>, text: seq<Wchar>, r: int)
    requires W.Sound(pattern, text, 0, r)
    ensures r == W.WM_MATCH <==> Matches(pattern, true, text, 0)
  {
  }

  /**
    * fort_conf_app_find: the program index first, then the prefixes, then the wildcards; flags that are all
    * zero count as not found. The path is given as bytes and as wide characters.
    */
  method AppFind(exeMap: ExeMap.ExeMap, prefixes: seq<PrefixEntry>, wilds: seq<WildEntry>,
                 exePath: ExeMap.Path, bytes: seq<int>, wide: seq<Wchar>) returns (flags: Flags)
    requires exeMap.Valid()
    ensures var exe := if exePath in exeMap.Map() then exeMap.Map()[exePath] else ExeMap.NO_FLAGS;
            if exe != ExeMap.NO_FLAGS then flags == exe
            else if PrefixFlags(prefixes, bytes) != ExeMap.NO_FLAGS then flags == PrefixFlags(prefixes, bytes)
            else WildResult(wilds, wide, flags)
  {
    hide PrefixFlags, WildResult, Less;
    flags := exeMap.Find(exePath);
    if flags != ExeMap.NO_FLAGS {
      return;
    }
    flags := PrefixFind(prefixes, bytes);
    if flags != ExeMap.NO_FLAGS {
      return;
    }
    flags := WildFind(wilds, wide);
  }

  // ---------------------------------------------------------------------------------------------
  // Group permissions
  // ---------------------------------------------------------------------------------------------

  /** Bit g of the word moved to bit 2g: the ors of `(group_bits & (1 << g)) << g`. */
  function Spread(groupBits: GroupBits): Bits.Word {
    seq(32, k requires 0 <= k < 32 => k % 2 == 0 && groupBits[k / 2])
  }

  function ShiftedOr(w: Bits.Word): Bits.Word {
    seq(32, k requires 0 <= k < 32 => w[k] || (k > 0 && w[k - 1]))
  }

  /** fort_conf_app_perms_mask_init: the odd bits block, the even ones allow. */
  method PermsMaskInit(groupBits: GroupBits) returns (blockMask: Bits.Word, allowMask: Bits.Word)
    ensures MasksOf(groupBits, blockMask, allowMask)
    ensures forall k | 0 <= k < 32 ::
              && (blockMask[k] <==> k % 2 == 1 && groupBits[k / 2])
              && (allowMask[k] <==> k % 2 == 0 && groupBits[k / 2])
  {
    var permsMask := ShiftedOr(Spread(groupBits));
    blockMask := seq(32, k requires 0 <= k < 32 => k % 2 == 1 && permsMask[k]);
    allowMask := seq(32, k requires 0 <= k < 32 => k % 2 == 0 && permsMask[k]);
  }

  predicate MasksOf(groupBits: GroupBits, blockMask: Bits.Word, allowMask: Bits.Word) {
    forall g | 0 <= g < 16 ::
      && blockMask[2 * g + 1] == groupBits[g] && !blockMask[2 * g]
      && allowMask[2 * g] == groupBits[g] && !allowMask[2 * g + 1]
  }

  datatype Reason = Program | GroupFound | GroupDefault | NoReason

  /**
    * fort_conf_app_blocked: a known program with its own permission obeys that; otherwise its group must be
    * active for its permission to count, and an unknown program is blocked only when all are.
    */
  method AppBlocked(flags: Flags, groupBits: GroupBits, blockMask: Bits.Word, allowMask: Bits.Word, blockAll: bool,
                    allowAll: bool)
    returns (r: bool, reason: Reason)
    requires flags.groupIndex < 16 && MasksOf(groupBits, blockMask, allowMask)
    ensures var found := flags != ExeMap.NO_FLAGS;
            && r == (if found && !flags.useGroupPerm then flags.blocked
                     else if blockAll then !found || flags.blocked || !groupBits[flags.groupIndex]
                     else found && flags.blocked && groupBits[flags.groupIndex])
            && reason == (if found then (if flags.useGroupPerm then GroupFound else Program)
                          else if blockAll || allowAll then GroupDefault else NoReason)
  {
    var found := flags != ExeMap.NO_FLAGS;
    if found && !flags.useGroupPerm {
      return flags.blocked, Program;
    }
    var perm := flags.groupIndex * 2 + if flags.blocked then 1 else 0;
    var allowed := found && allowMask[perm];
    var blocked := found && blockMask[perm];
    reason := if found then GroupFound else GroupDefault;
    if blockAll {
      return !allowed, reason;
    }
    if allowAll {
      return blocked, reason;
    }
    if !found {
      return false, NoReason;
    }
    r := blocked && !allowed;
  }
}
