/**
 The region scanner of src/core/memory_monitor/memory_scanner.c. Memory is a byte array,
 an address is an index into it and 0 is the null address. A region remembers the hash of
 the bytes it had when it was registered or last restored; scanning compares with it.
 */
module MemoryScanner {
  import opened Folds
  import opened Words
  import opened Hash
  import opened Lists
  import opened CStrings
  import Crc32

  const MAX_NAME := 64

  datatype Region = Region(name: string, base: nat, size: nat, hash: HashRecord, lastGood: HashRecord,
    isProtected: bool)

  /** A record in memory just allocated. */
  const FRESH := HashRecord(CRC32, Unset)

  predicate Fits(length: nat, base: nat, size: nat) {
    0 < base && 0 < size && base + size <= length
  }

  function Bytes(m: seq<Byte>, r: Region): (b: seq<Byte>)
    requires Fits(|m|, r.base, r.size)
    ensures |b| == r.size
  {
    m[r.base..r.base + r.size]
  }

  /** The hash of a region's bytes now. */
  function CurrentHash(algo: Algorithm, m: seq<Byte>, r: Region): (Status, HashRecord)
    requires Fits(|m|, r.base, r.size)
  {
    Computed(algo, Bytes(m, r), FRESH)
  }

  /** What `ps14_memory_scan_region` answers. */
  predicate Tampered(algo: Algorithm, m: seq<Byte>, r: Region)
    requires Fits(|m|, r.base, r.size)
  {
    CurrentHash(algo, m, r).0.Success? && !Compare(CurrentHash(algo, m, r).1, r.lastGood)
  }

  /** The region after a scan: a mismatch leaves the hash seen in it. */
  function Scanned(algo: Algorithm, m: seq<Byte>, r: Region): Region
    requires Fits(|m|, r.base, r.size)
  {
    if Tampered(algo, m, r) then r.(hash := CurrentHash(algo, m, r).1) else r
  }

  /** The region made for `addr` and `size`, as `ps14_memory_add_region` fills it in. */
  function Registered(algo: Algorithm, m: seq<Byte>, name: string, addr: nat, size: nat): (r: Region)
    requires Fits(|m|, addr, size)
    ensures r.base == addr && r.size == size
  {
    var h := Computed(algo, m[addr..addr + size], FRESH).1;
    Region(Stored(name, MAX_NAME), addr, size, h, h, false)
  }

  ghost predicate AllFit(length: nat, rs: seq<Region>) {
    forall i :: 0 <= i < |rs| ==> Fits(length, rs[i].base, rs[i].size)
  }

  lemma FitGone(length: nat, rs: seq<Region>, i: nat)
    requires AllFit(length, rs)
    ensures AllFit(length, Gone(rs, i))
  {
  }

  lemma FitPush(length: nat, rs: seq<Region>, r: Region)
    requires AllFit(length, rs) && Fits(length, r.base, r.size)
    ensures AllFit(length, [r] + rs)
  {
  }

  /** The positions, from `i` on, of the first `room` tampered regions. */
  function FoundFrom(algo: Algorithm, m: seq<Byte>, rs: seq<Region>, i: nat, room: nat): (found: seq<nat>)
    requires AllFit(|m|, rs) && i <= |rs|
    ensures |found| <= room && |found| <= |rs| - i
    decreases |rs| - i
  {
    if i == |rs| || room == 0 then []
    else if Tampered(algo, m, rs[i]) then [i] + FoundFrom(algo, m, rs, i + 1, room - 1)
    else FoundFrom(algo, m, rs, i + 1, room)
  }

  /** The list after that scan: regions the scan did not reach keep the hash they had. */
  function ScannedFrom(algo: Algorithm, m: seq<Byte>, rs: seq<Region>, i: nat, room: nat): (rs': seq<Region>)
    requires AllFit(|m|, rs) && i <= |rs|
    ensures |rs'| == |rs| - i
    decreases |rs| - i
  {
    if i == |rs| || room == 0 then rs[i..]
    else
      [Scanned(algo, m, rs[i])]
      + ScannedFrom(algo, m, rs, i + 1, if Tampered(algo, m, rs[i]) then room - 1 else room)
  }

  /** `ps14_memory_scan_all` on values. */
  function ScanOfAll(algo: Algorithm, m: seq<Byte>, rs: seq<Region>, max: nat): (seq<nat>, seq<Region>)
    requires AllFit(|m|, rs)
  {
    (FoundFrom(algo, m, rs, 0, max), ScannedFrom(algo, m, rs, 0, max))
  }

  // ---------------------------------------------------------------------------
  // What a scan of all regions finds
  // ---------------------------------------------------------------------------

  ghost function TamperedSet(algo: Algorithm, m: seq<Byte>, rs: seq<Region>): set<nat>
    requires AllFit(|m|, rs)
  {
    set i: nat | i < |rs| && Tampered(algo, m, rs[i])
  }

  ghost predicate Increasing(s: seq<nat>) {
    forall i, j :: 0 <= i < j < |s| ==> s[i] < s[j]
  }

  lemma {:induction false} FoundAreTampered(algo: Algorithm, m: seq<Byte>, rs: seq<Region>, i: nat, room: nat)
    requires AllFit(|m|, rs) && i <= |rs|
    ensures var found := FoundFrom(algo, m, rs, i, room);
      && Increasing(found)
      && forall k :: 0 <= k < |found| ==> i <= found[k] < |rs| && Tampered(algo, m, rs[found[k]])
    decreases |rs| - i
  {
    hide Tampered;
    if i < |rs| && room > 0 {
      FoundAreTampered(algo, m, rs, i + 1, if Tampered(algo, m, rs[i]) then room - 1 else room);
    }
  }

  lemma {:induction false} FoundAreAll(algo: Algorithm, m: seq<Byte>, rs: seq<Region>, i: nat, room: nat, k: nat)
    requires AllFit(|m|, rs) && i <= k < |rs| && Tampered(algo, m, rs[k])
    ensures var found := FoundFrom(algo, m, rs, i, room);
      |found| < room || (found != [] && k <= found[|found| - 1]) ==> k in found
    decreases |rs| - i
  {
    hide Tampered;
    if room > 0 && i < k {
      var rest := if Tampered(algo, m, rs[i]) then room - 1 else room;
      FoundAreAll(algo, m, rs, i + 1, rest, k);
      assert k in FoundFrom(algo, m, rs, i + 1, rest) ==> k in FoundFrom(algo, m, rs, i, room);
    }
  }

  /** The found positions are tampered, in list order, and none before the last is left out. */
  lemma FoundIsFirst(algo: Algorithm, m: seq<Byte>, rs: seq<Region>, i: nat, room: nat)
    requires AllFit(|m|, rs) && i <= |rs|
    ensures var found := FoundFrom(algo, m, rs, i, room);
      && Increasing(found)
      && (forall k :: k in found ==> i <= k < |rs| && Tampered(algo, m, rs[k]))
      && (|found| < room ==> forall k :: i <= k < |rs| && Tampered(algo, m, rs[k]) ==> k in found)
      && (forall k, l :: l in found && i <= k < l && Tampered(algo, m, rs[k]) ==> k in found)
  {
    hide Tampered, FoundFrom;
    var found := FoundFrom(algo, m, rs, i, room);
    FoundAreTampered(algo, m, rs, i, room);
    forall k | i <= k < |rs| && Tampered(algo, m, rs[k])
      ensures |found| < room || (found != [] && k <= found[|found| - 1]) ==> k in found
    {
      FoundAreAll(algo, m, rs, i, room, k);
    }
    forall k, l | l in found && i <= k < l && Tampered(algo, m, rs[k]) ensures k in found {
      assert l <= found[|found| - 1];
    }
  }

  ghost function Elements(s: seq<nat>): set<nat> {
    set k | k in s
  }

  lemma {:induction false} IncreasingAsSet(s: seq<nat>)
    requires Increasing(s)
    ensures |Elements(s)| == |s|
    decreases |s|
  {
    if s != [] {
      var (last, front) := (s[|s| - 1], s[..|s| - 1]);
      assert s == front + [last];
      IncreasingAsSet(front);
      assert last !in Elements(front);
      assert Elements(s) == Elements(front) + {last};
    }
  }

  lemma SubsetOfSameSize(a: set<nat>, b: set<nat>)
    requires a <= b && |b| <= |a|
    ensures a == b
  {
    assert |b - a| == |b| - |a|;
  }

  lemma SubsetSize(a: set<nat>, b: set<nat>)
    requires a <= b
    ensures |a| <= |b|
  {
    assert |b - a| == |b| - |a|;
  }

  /** A scan reports min(room, n) regions of the n tampered ones. */
  lemma FoundCount(algo: Algorithm, m: seq<Byte>, rs: seq<Region>, room: nat)
    requires AllFit(|m|, rs)
    ensures var found := FoundFrom(algo, m, rs, 0, room);
      var n := |TamperedSet(algo, m, rs)|;
      && Elements(found) <= TamperedSet(algo, m, rs)
      && |Elements(found)| == |found| == if n < room then n else room
  {
    hide Tampered;
    var found := FoundFrom(algo, m, rs, 0, room);
    FoundIsFirst(algo, m, rs, 0, room);
    IncreasingAsSet(found);
    var fs := Elements(found);
    assert fs <= TamperedSet(algo, m, rs);
    SubsetSize(fs, TamperedSet(algo, m, rs));
    if |found| < room {
      assert fs == TamperedSet(algo, m, rs);
    }
  }

  /** Scanning changes nothing that later scans look at. */
  ghost predicate SameButHash(rs: seq<Region>, rs': seq<Region>) {
    && |rs'| == |rs|
    && forall k :: 0 <= k < |rs| ==> rs'[k] == rs[k].(hash := rs'[k].hash)
  }

  lemma {:induction false} ScannedSame(algo: Algorithm, m: seq<Byte>, rs: seq<Region>, i: nat, room: nat)
    requires AllFit(|m|, rs) && i <= |rs|
    ensures SameButHash(rs[i..], ScannedFrom(algo, m, rs, i, room))
    decreases |rs| - i
  {
    hide Tampered, CurrentHash;
    if i < |rs| && room > 0 {
      ScannedSame(algo, m, rs, i + 1, if Tampered(algo, m, rs[i]) then room - 1 else room);
      assert rs[i..] == [rs[i]] + rs[i + 1..];
    }
  }

  // ---------------------------------------------------------------------------
  // The detection guarantee of one region
  // ---------------------------------------------------------------------------

  /** The region's good hash was taken of `reference` under the configured algorithm. */
  ghost predicate HashedFrom(algo: Algorithm, r: Region, reference: seq<Byte>) {
    Supported(algo) && r.lastGood == HashOf(algo, reference)
  }

  /** A registered region has the hash of the bytes it was registered with. */
  lemma RegisteredHashedFrom(algo: Algorithm, m: seq<Byte>, name: string, addr: nat, size: nat)
    requires Fits(|m|, addr, size) && Supported(algo)
    ensures HashedFrom(algo, Registered(algo, m, name, addr, size), m[addr..addr + size])
  {
  }

  /**
   End to end, for each supported algorithm: a region whose bytes equal the reference is
   never reported, and one whose bytes differ from it only within four consecutive bytes
   is always reported.
   */
  lemma ReportedWithinWindow(algo: Algorithm, m: seq<Byte>, r: Region, reference: seq<Byte>, lo: nat, hi: nat)
    requires Fits(|m|, r.base, r.size) && HashedFrom(algo, r, reference)
    requires AgreeOutside(Bytes(m, r), reference, lo, hi) && hi - lo <= 4
    ensures Tampered(algo, m, r) <==> Bytes(m, r) != reference
  {
    hide DigestOf;
    WindowTold(algo, Bytes(m, r), reference, lo, hi);
  }

  // ---------------------------------------------------------------------------
  // The code
  // ---------------------------------------------------------------------------

  class Monitor {
    const algorithm: Algorithm
    const memory: array<Byte>
    const unit: Crc32.CrcUnit
    var regions: Node?<Region>
    ghost var spine: seq<Node<Region>>

    ghost predicate Valid()
      reads this, spine, unit, unit.table
    {
      unit.Valid() && Chain(regions, spine) && AllFit(memory.Length, Regions())
    }

    ghost function Regions(): seq<Region>
      reads this, spine
    {
      Values(spine)
    }

    constructor (algorithm: Algorithm, memory: array<Byte>, unit: Crc32.CrcUnit)
      requires unit.Valid()
      ensures Valid() && this.algorithm == algorithm && this.memory == memory && Regions() == []
      ensures spine == []
    {
      this.algorithm := algorithm;
      this.memory := memory;
      this.unit := unit;
      this.regions := null;
      this.spine := [];
    }

    /** The hash of bytes in memory, into a fresh record. */
    method HashBytes(base: nat, size: nat) returns (status: Status, hash: HashRecord)
      requires Valid() && Fits(memory.Length, base, size)
      modifies unit, unit.table
      ensures Valid() && Regions() == old(Regions())
      ensures (status, hash) == Computed(algorithm, memory[..][base..base + size], FRESH)
    {
      hide Computed, Chain, Values, AllFit, Crc32.CrcUnit.Valid;
      assert memory[base..base + size] == memory[..][base..base + size];
      status, hash := Compute(unit, algorithm, memory[base..base + size], FRESH);
    }

    /** `ps14_memory_add_region`; `gotMemory` tells whether memory for the record was to be had. */
    method AddRegion(name: Option<string>, addr: nat, size: nat, gotMemory: bool) returns (region: Node?<Region>)
      requires Valid() && addr + size <= memory.Length
      modifies this, unit, unit.table
      ensures Valid()
      ensures region == null <==> name.None? || addr == 0 || size == 0 || !gotMemory
      ensures region == null ==> spine == old(spine)
      ensures region != null ==> fresh(region) && spine == [region] + old(spine)
      ensures region != null ==>
                Regions() == [Registered(algorithm, memory[..], name.value, addr, size)] + old(Regions())
    {
      if name.None? || addr == 0 || size == 0 {
        return null;
      }
      if !gotMemory {
        return null;
      }
      hide Chain, Values, Computed, Crc32.CrcUnit.Valid, AllFit;
      var status, h := HashBytes(addr, size);
      FitPush(memory.Length, Regions(), Registered(algorithm, memory[..], name.value, addr, size));
      region := new Node(Region(Stored(name.value, MAX_NAME), addr, size, h, h, false), regions);
      Pushed(regions, spine, region);
      regions := region;
      spine := [region] + spine;
    }

    /** `ps14_memory_remove_region`; `i` is the region's place, or the list's length if it is not in it. */
    method RemoveRegion(region: Node?<Region>, ghost i: nat)
      requires Valid() && (region != null ==> Placed(spine, region, i))
      modifies this, spine
      ensures Valid() && spine == if region == null then old(spine) else Gone(old(spine), i)
      ensures Regions() == if region == null then old(Regions()) else Gone(old(Regions()), i)
    {
      hide Chain, Values, AllFit, Gone, Without;
      if region == null {
        return;
      }
      FitGone(memory.Length, Regions(), i);
      GoneIs(Regions(), i);
      regions := Unlink(regions, region, spine, i);
      spine := Gone(spine, i);
    }

    /** `ps14_memory_scan_region`; a region that is not null is in the list. */
    method ScanRegion(region: Node?<Region>, ghost i: nat) returns (tampered: bool)
      requires Valid() && (region != null ==> i < |spine| && spine[i] == region)
      modifies Only(region)`value, unit, unit.table
      ensures Valid()
      ensures region == null ==> !tampered && Regions() == old(Regions())
      ensures region != null ==> tampered == Tampered(algorithm, memory[..], old(region.value))
      ensures region != null ==> region.value == Scanned(algorithm, memory[..], old(region.value))
      ensures region != null ==> Regions() == old(Regions())[i := region.value]
    {
      hide Computed, Compare, Chain, Values, Crc32.CrcUnit.Valid;
      if region == null {
        return false;
      }
      ghost var was := Regions();
      ChainDistinct(regions, spine);
      var r := region.value;
      var status, current := HashBytes(r.base, r.size);
      tampered := false;
      if status == Success && !Compare(current, r.lastGood) {
        region.value := region.value.(hash := current);
        tampered := true;
      }
      assert Regions() == was[i := region.value];
    }

    /** `ps14_memory_scan_all` with a results buffer of `max` entries, or none. */
    method ScanAll(hasResults: bool, max: nat) returns (results: seq<Node<Region>>, ghost found: seq<nat>)
      requires Valid()
      modifies spine, unit, unit.table
      ensures Valid()
      ensures (found, Regions()) == ScanOfAll(algorithm, memory[..], old(Regions()), if hasResults then max else 0)
      ensures |results| == |found|
      ensures forall k :: 0 <= k < |found| ==> found[k] < |spine| && results[k] == spine[found[k]]
    {
      hide Chain, Tampered, Scanned, Progress;
      results, found := [], [];
      ghost var rs := Regions();
      if !hasResults || max == 0 {
        ProgressStart(algorithm, memory[..], rs, 0);
        ProgressEnd(algorithm, memory[..], rs, 0, rs, [], 0);
        return;
      }
      ProgressStart(algorithm, memory[..], rs, max);
      var curr := regions;
      ghost var i := 0;
      ChainAt(regions, spine, 0);
      while curr != null && |results| < max
        invariant Valid()
        invariant i <= |spine| && curr == At(spine, i)
        invariant |results| == |found| <= max
        invariant forall k :: 0 <= k < |found| ==> found[k] < |spine| && results[k] == spine[found[k]]
        invariant Progress(algorithm, memory[..], rs, max, Regions(), found, i)
        decreases |spine| - i
      {
        ghost var (now, soFar) := (Regions(), found);
        var tampered := ScanRegion(curr, i);
        if tampered {
          results := results + [curr];
          found := found + [i];
        }
        ProgressStep(algorithm, memory[..], rs, max, now, soFar, i);
        ChainAt(regions, spine, i);
        curr := curr.next;
        i := i + 1;
      }
      ProgressEnd(algorithm, memory[..], rs, max, Regions(), found, i);
    }
  }

  /** A scan of `rs` that has come to position `i`, leaving the list as `now`. */
  ghost predicate Progress(algo: Algorithm, m: seq<Byte>, rs: seq<Region>, max: nat,
      now: seq<Region>, found: seq<nat>, i: nat)
    requires AllFit(|m|, rs)
  {
    && |now| == |rs| && i <= |rs| && |found| <= max
    && now[i..] == rs[i..]
    && FoundFrom(algo, m, rs, 0, max) == found + FoundFrom(algo, m, rs, i, max - |found|)
    && ScannedFrom(algo, m, rs, 0, max) == now[..i] + ScannedFrom(algo, m, rs, i, max - |found|)
  }

  lemma ProgressStart(algo: Algorithm, m: seq<Byte>, rs: seq<Region>, max: nat)
    requires AllFit(|m|, rs)
    ensures Progress(algo, m, rs, max, rs, [], 0)
  {
    hide FoundFrom, ScannedFrom, Tampered, Scanned;
    var (found, scanned) := (FoundFrom(algo, m, rs, 0, max), ScannedFrom(algo, m, rs, 0, max));
    assert [] + found == found;
    assert rs[..0] + scanned == scanned;
  }

  lemma ProgressStep(algo: Algorithm, m: seq<Byte>, rs: seq<Region>, max: nat,
      now: seq<Region>, found: seq<nat>, i: nat)
    requires AllFit(|m|, rs) && Progress(algo, m, rs, max, now, found, i)
    requires i < |rs| && |found| < max
    ensures Fits(|m|, now[i].base, now[i].size)
    ensures var tampered := Tampered(algo, m, now[i]);
      Progress(algo, m, rs, max, now[i := Scanned(algo, m, now[i])], if tampered then found + [i] else found, i + 1)
  {
    hide Tampered, Scanned;
    assert now[i] == now[i..][0] == rs[i..][0] == rs[i];
    var next := now[i := Scanned(algo, m, now[i])];
    assert next[i + 1..] == now[i..][1..] == rs[i..][1..] == rs[i + 1..];
    assert next[..i + 1] == now[..i] + [Scanned(algo, m, rs[i])];
  }

  lemma ProgressEnd(algo: Algorithm, m: seq<Byte>, rs: seq<Region>, max: nat,
      now: seq<Region>, found: seq<nat>, i: nat)
    requires AllFit(|m|, rs) && Progress(algo, m, rs, max, now, found, i)
    requires i == |rs| || |found| == max
    ensures (found, now) == ScanOfAll(algo, m, rs, max)
  {
    hide Tampered, Scanned;
    assert now == now[..i] + now[i..];
    assert found + [] == found;
    assert i == |rs| ==> rs[i..] == [];
  }
}
