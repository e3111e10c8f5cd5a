/**
 Backups and repair, src/core/repair_system/memory_repair.c. Backups are kept newest
 first; restoring a region copies the newest backup taken at its base address back into
 memory and makes the backup's hash the region's good hash.
 */
module MemoryRepair {
  import opened Words
  import opened Hash
  import opened Lists
  import opened CStrings
  import opened Search
  import opened MemoryScanner

  datatype Backup = Backup(address: nat, data: seq<Byte>, hash: HashRecord)

  datatype RepairResult = Success | Failed | Skipped

  /** Memory, the two registries, and how often repair was attempted and succeeded. */
  datatype State = State(memory: seq<Byte>, regions: seq<Region>, backups: seq<Backup>, attempts: nat, successes: nat)

  /** Everything registered lies inside memory. */
  ghost predicate Sound(st: State) {
    && AllFit(|st.memory|, st.regions)
    && forall k :: 0 <= k < |st.backups| ==> Fits(|st.memory|, st.backups[k].address, |st.backups[k].data|)
  }

  /** The backup `ps14_repair_backup_memory` takes. */
  function Taken(algo: Algorithm, m: seq<Byte>, address: nat, size: nat): (b: Backup)
    requires Fits(|m|, address, size)
    ensures b.address == address && |b.data| == size
  {
    var data := m[address..address + size];
    Backup(address, data, Computed(algo, data, FRESH).1)
  }

  function TakenAt(address: nat): Backup -> bool {
    (b: Backup) => b.address == address
  }

  /** The newest backup at an address, as a position in the list. */
  function FindBackup(bs: seq<Backup>, address: nat): (k: Option<nat>)
    ensures k.Some? ==> k.value < |bs| && bs[k.value].address == address
    ensures forall j :: 0 <= j < (if k.Some? then k.value else |bs|) ==> bs[j].address != address
  {
    First(bs, TakenAt(address))
  }

  function Overwrite(m: seq<Byte>, at: nat, data: seq<Byte>): (m': seq<Byte>)
    requires at + |data| <= |m|
    ensures |m'| == |m|
    ensures forall a :: 0 <= a < |m| ==> m'[a] == if at <= a < at + |data| then data[a - at] else m[a]
  {
    m[..at] + data + m[at + |data|..]
  }

  /** `ps14_repair_restore_memory` of the region at `i`. */
  function Restore(st: State, i: nat): (RepairResult, State)
    requires Sound(st) && i < |st.regions|
  {
    var st1 := st.(attempts := st.attempts + 1);
    match FindBackup(st.backups, st.regions[i].base)
    case None => (Failed, st1)
    case Some(k) =>
      var b := st.backups[k];
      var restored := st.regions[i].(hash := b.hash, lastGood := b.hash);
      (RepairResult.Success, st1.(memory := Overwrite(st.memory, b.address, b.data),
                     regions := st.regions[i := restored], successes := st.successes + 1))
  }

  /** `ps14_repair_backup_memory` of bytes that are there. */
  function AfterBackup(algo: Algorithm, st: State, address: nat, size: nat): State
    requires Fits(|st.memory|, address, size)
  {
    st.(backups := [Taken(algo, st.memory, address, size)] + st.backups)
  }

  /** `ps14_repair_free_memory_backup` of the backup at `i`. */
  function AfterFree(st: State, i: nat): State
    requires i < |st.backups|
  {
    st.(backups := Without(st.backups, i))
  }

  /** The state after scanning the region at `i`. */
  function AfterScan(algo: Algorithm, st: State, i: nat): State
    requires Sound(st) && i < |st.regions|
  {
    st.(regions := st.regions[i := Scanned(algo, st.memory, st.regions[i])])
  }

  /** `ps14_repair_attempt_auto_fix`. */
  function AutoFix(algo: Algorithm, st: State, i: nat): (RepairResult, State)
    requires Sound(st) && i < |st.regions|
  {
    if Tampered(algo, st.memory, st.regions[i]) then Restore(AfterScan(algo, st, i), i)
    else (Skipped, AfterScan(algo, st, i))
  }

  lemma SoundAt(st: State, i: nat)
    requires Sound(st) && i < |st.regions|
    ensures Fits(|st.memory|, st.regions[i].base, st.regions[i].size)
  {
  }

  lemma AfterScanSound(algo: Algorithm, st: State, i: nat)
    requires Sound(st) && i < |st.regions|
    ensures Sound(AfterScan(algo, st, i))
  {
    hide Tampered, CurrentHash;
  }

  lemma AfterBackupSound(algo: Algorithm, st: State, address: nat, size: nat)
    requires Sound(st) && Fits(|st.memory|, address, size)
    ensures Sound(AfterBackup(algo, st, address, size))
  {
    hide Computed;
  }

  lemma AfterFreeSound(st: State, i: nat)
    requires Sound(st) && i < |st.backups|
    ensures Sound(AfterFree(st, i))
  {
  }

  lemma BackupFits(st: State, k: nat)
    requires Sound(st) && k < |st.backups|
    ensures Fits(|st.memory|, st.backups[k].address, |st.backups[k].data|)
  {
  }

  lemma SoundScan(algo: Algorithm, st: State, max: nat)
    requires Sound(st)
    ensures AllFit(|st.memory|, st.regions)
  {
  }

  lemma RestoreSound(st: State, i: nat)
    requires Sound(st) && i < |st.regions|
    ensures var st' := Restore(st, i).1; Sound(st') && |st'.regions| == |st.regions| && |st'.memory| == |st.memory|
  {
  }

  lemma AutoFixSound(algo: Algorithm, st: State, i: nat)
    requires Sound(st) && i < |st.regions|
    ensures var st' := AutoFix(algo, st, i).1;
      Sound(st') && |st'.regions| == |st.regions| && |st'.memory| == |st.memory|
  {
    hide Restore, Tampered, CurrentHash;
    RestoreSound(AfterScan(algo, st, i), i);
  }

  ghost predicate AllBelow(s: seq<nat>, n: nat) {
    forall k :: 0 <= k < |s| ==> s[k] < n
  }

  /** The repair loop over the positions a scan found. */
  function FixEach(algo: Algorithm, st: State, found: seq<nat>): (r: (nat, State))
    requires Sound(st) && AllBelow(found, |st.regions|)
    ensures Sound(r.1) && |r.1.regions| == |st.regions| && |r.1.memory| == |st.memory|
    decreases |found|
  {
    if found == [] then (0, st)
    else
      AutoFixSound(algo, st, found[0]);
      var (result, st1) := AutoFix(algo, st, found[0]);
      Counted(if result.Success? then 1 else 0, FixEach(algo, st1, found[1..]))
  }

  function Counted(n: nat, r: (nat, State)): (nat, State) {
    (n + r.0, r.1)
  }

  /** The state after `ps14_memory_scan_all`. */
  function AfterScanAll(algo: Algorithm, st: State, max: nat): (r: State)
    requires Sound(st)
    ensures Sound(r) && |r.regions| == |st.regions| && |r.memory| == |st.memory|
  {
    ScannedSame(algo, st.memory, st.regions, 0, max);
    st.(regions := ScannedFrom(algo, st.memory, st.regions, 0, max))
  }

  /** The size of the result buffer of a repair pass. */
  const PASS_LIMIT := 64

  function FoundIn(algo: Algorithm, st: State, max: nat): (found: seq<nat>)
    requires Sound(st)
    ensures AllBelow(found, |st.regions|)
  {
    FoundBelow(algo, st, max);
    FoundFrom(algo, st.memory, st.regions, 0, max)
  }

  lemma FoundBelow(algo: Algorithm, st: State, max: nat)
    requires Sound(st)
    ensures AllBelow(FoundFrom(algo, st.memory, st.regions, 0, max), |st.regions|)
  {
    hide Tampered;
    var found := FoundFrom(algo, st.memory, st.regions, 0, max);
    FoundIsFirst(algo, st.memory, st.regions, 0, max);
    forall k | 0 <= k < |found| ensures found[k] < |st.regions| {
      assert found[k] in found;
    }
  }

  /** `ps14_repair_check_and_fix_all`. */
  function CheckAndFixAll(algo: Algorithm, st: State): (r: (nat, State))
    requires Sound(st)
    ensures Sound(r.1) && |r.1.regions| == |st.regions|
  {
    FixEach(algo, AfterScanAll(algo, st, PASS_LIMIT), FoundIn(algo, st, PASS_LIMIT))
  }

  /** `n` passes. */
  function Passes(algo: Algorithm, st: State, n: nat): (r: State)
    requires Sound(st)
    ensures Sound(r) && |r.regions| == |st.regions|
    decreases n
  {
    if n == 0 then st else Passes(algo, CheckAndFixAll(algo, st).1, n - 1)
  }

  // ---------------------------------------------------------------------------
  // What one repair does
  // ---------------------------------------------------------------------------

  /** Writing `size` bytes at an address leaves the region alone. */
  predicate ApartFrom(at: nat, size: nat, r: Region) {
    at + size <= r.base || r.base + r.size <= at
  }

  ghost predicate AllDisjoint(rs: seq<Region>) {
    forall i, j :: 0 <= i < |rs| && 0 <= j < |rs| && i != j ==> ApartFrom(rs[i].base, rs[i].size, rs[j])
  }

  predicate HasBackup(st: State, i: nat)
    requires i < |st.regions|
  {
    FindBackup(st.backups, st.regions[i].base).Some?
  }

  ghost predicate HonestBackup(algo: Algorithm, b: Backup) {
    Supported(algo) && b.hash == HashOf(algo, b.data)
  }

  /** The backup a restore of the region at `i` would use. */
  function Newest(st: State, i: nat): Backup
    requires i < |st.regions| && HasBackup(st, i)
  {
    st.backups[FindBackup(st.backups, st.regions[i].base).value]
  }

  /** Any backup that would be used for a region has the region's size and an honest hash. */
  ghost predicate BackupsFit(algo: Algorithm, st: State) {
    forall i :: 0 <= i < |st.regions| && HasBackup(st, i) ==>
      |Newest(st, i).data| == st.regions[i].size && HonestBackup(algo, Newest(st, i))
  }

  /** What a restore of one region writes leaves every other region alone. */
  ghost predicate WritesApart(st: State) {
    forall i, j :: 0 <= i < |st.regions| && HasBackup(st, i) && 0 <= j < |st.regions| && j != i ==>
      ApartFrom(st.regions[i].base, |Newest(st, i).data|, st.regions[j])
  }

  /** Disjoint regions with backups of their size are, and regions without a backup may overlap each other. */
  ghost predicate Repairable(algo: Algorithm, st: State) {
    Sound(st) && WritesApart(st) && BackupsFit(algo, st)
  }

  lemma DisjointIsApart(algo: Algorithm, st: State)
    requires AllDisjoint(st.regions) && BackupsFit(algo, st)
    ensures WritesApart(st)
  {
  }

  lemma RepairableIsSound(algo: Algorithm, st: State)
    requires Repairable(algo, st)
    ensures Sound(st)
  {
  }

  predicate TamperedAt(algo: Algorithm, st: State, i: nat)
    requires Sound(st) && i < |st.regions|
  {
    Tampered(algo, st.memory, st.regions[i])
  }

  function BytesAt(st: State, i: nat): seq<Byte>
    requires Sound(st) && i < |st.regions|
  {
    Bytes(st.memory, st.regions[i])
  }

  /** The regions are in the same places and the backups are the same. */
  ghost predicate SameLayout(st: State, st': State) {
    && st'.backups == st.backups && |st'.memory| == |st.memory| && |st'.regions| == |st.regions|
    && forall j :: 0 <= j < |st.regions| ==>
        st'.regions[j].base == st.regions[j].base && st'.regions[j].size == st.regions[j].size
  }

  lemma LayoutKeeps(algo: Algorithm, st: State, st': State)
    requires Repairable(algo, st) && SameLayout(st, st')
    ensures Repairable(algo, st')
    ensures forall j :: 0 <= j < |st.regions| ==> HasBackup(st', j) == HasBackup(st, j)
  {
    forall j | 0 <= j < |st.regions| ensures HasBackup(st', j) == HasBackup(st, j) {
    }
  }

  /**
   What a repair may do: the regions in `fixed` get the bytes of their newest backup and
   stop being tampered with; every other region keeps its bytes, its good hash and its
   verdict.
   */
  ghost predicate Repairs(algo: Algorithm, st: State, st': State, fixed: set<nat>)
    requires Sound(st)
  {
    && SameLayout(st, st') && Sound(st')
    && forall j :: 0 <= j < |st.regions| ==> RepairsAt(algo, st, st', j, j in fixed)
  }

  ghost predicate RepairsAt(algo: Algorithm, st: State, st': State, j: nat, isFixed: bool)
    requires Sound(st) && Sound(st') && SameLayout(st, st') && j < |st.regions|
  {
    if isFixed then
      HasBackup(st, j) && BytesAt(st', j) == Newest(st, j).data && !TamperedAt(algo, st', j)
    else
      && BytesAt(st', j) == BytesAt(st, j) && st'.regions[j].lastGood == st.regions[j].lastGood
      && TamperedAt(algo, st', j) == TamperedAt(algo, st, j)
  }

  lemma RepairsFacts(algo: Algorithm, st: State, st': State, fixed: set<nat>)
    requires Repairable(algo, st) && Repairs(algo, st, st', fixed)
    ensures Repairable(algo, st') && |st'.regions| == |st.regions|
    ensures BackedIn(st') == BackedIn(st)
    ensures TamperedIn(algo, st') == TamperedIn(algo, st) - fixed
  {
    hide Tampered, Bytes, Repairable, HasBackup;
    RepairableIsSound(algo, st);
    LayoutKeeps(algo, st, st');
    forall j: nat | j < |st.regions| ensures j in TamperedIn(algo, st') <==> j in TamperedIn(algo, st) - fixed {
      assert RepairsAt(algo, st, st', j, j in fixed);
    }
  }

  lemma RepairsCompose(algo: Algorithm, st: State, st1: State, st2: State, a: set<nat>, b: set<nat>)
    requires Repairable(algo, st) && Repairs(algo, st, st1, a) && Repairs(algo, st1, st2, b)
    ensures Repairs(algo, st, st2, a + b)
  {
    hide Tampered, Bytes, FindBackup;
    forall j | 0 <= j < |st.regions| ensures RepairsAt(algo, st, st2, j, j in a + b) {
      assert RepairsAt(algo, st, st1, j, j in a) && RepairsAt(algo, st1, st2, j, j in b);
      assert st1.regions[j].base == st.regions[j].base;
    }
  }

  /** Copying into a region's own place leaves the bytes of a disjoint region alone. */
  lemma OverwriteElsewhere(m: seq<Byte>, at: nat, data: seq<Byte>, r: Region)
    requires at + |data| <= |m| && Fits(|m|, r.base, r.size)
    requires at + |data| <= r.base || r.base + r.size <= at
    ensures Bytes(Overwrite(m, at, data), r) == Bytes(m, r)
  {
  }

  lemma OverwriteHere(m: seq<Byte>, data: seq<Byte>, r: Region)
    requires Fits(|m|, r.base, r.size) && |data| == r.size
    ensures Bytes(Overwrite(m, r.base, data), r) == data
  {
  }

  /** The verdict on a region depends on its bytes and its good hash alone. */
  lemma TamperedLocal(algo: Algorithm, m: seq<Byte>, r: Region, m': seq<Byte>, r': Region)
    requires Fits(|m|, r.base, r.size) && Fits(|m'|, r'.base, r'.size)
    requires Bytes(m, r) == Bytes(m', r') && r.lastGood == r'.lastGood
    ensures Tampered(algo, m, r) == Tampered(algo, m', r')
  {
    hide Computed, Compare, Bytes;
  }

  lemma UntouchedAt(algo: Algorithm, st: State, st': State, j: nat)
    requires Sound(st) && Sound(st') && SameLayout(st, st') && j < |st.regions|
    requires BytesAt(st', j) == BytesAt(st, j) && st'.regions[j].lastGood == st.regions[j].lastGood
    ensures RepairsAt(algo, st, st', j, false)
  {
    hide Tampered, Bytes;
    TamperedLocal(algo, st.memory, st.regions[j], st'.memory, st'.regions[j]);
  }

  /**
   A restore, whatever the regions and the backups are: it succeeds exactly with a backup,
   leaves a region its write does not touch alone, and leaves its own region reported
   exactly when the digest of its bytes is not that of the backup; never, if the backup has
   the region's size.
   */
  lemma RestoreWrites(algo: Algorithm, st: State, i: nat)
    requires Sound(st) && i < |st.regions|
    ensures var (result, st') := Restore(st, i);
      && Sound(st') && SameLayout(st, st') && !result.Skipped? && (result.Success? <==> HasBackup(st, i))
      && (!HasBackup(st, i) ==> st' == st.(attempts := st.attempts + 1))
    ensures HasBackup(st, i) ==>
      forall j :: 0 <= j < |st.regions| && j != i && ApartFrom(st.regions[i].base, |Newest(st, i).data|, st.regions[j])
        ==> RepairsAt(algo, st, Restore(st, i).1, j, false)
    ensures HasBackup(st, i) && HonestBackup(algo, Newest(st, i)) ==>
      var (b, st') := (Newest(st, i), Restore(st, i).1);
      && (TamperedAt(algo, st', i) <==> DigestOf(algo, BytesAt(st', i)) != DigestOf(algo, b.data))
      && (|b.data| == st.regions[i].size ==> BytesAt(st', i) == b.data && !TamperedAt(algo, st', i))
  {
    hide Bytes, Tampered, HonestBackup, Computed;
    var st' := Restore(st, i).1;
    RestoreSound(st, i);
    if HasBackup(st, i) {
      var b := Newest(st, i);
      forall j | 0 <= j < |st.regions| && j != i && ApartFrom(st.regions[i].base, |b.data|, st.regions[j])
        ensures RepairsAt(algo, st, st', j, false)
      {
        OverwriteElsewhere(st.memory, st.regions[i].base, b.data, st.regions[j]);
        UntouchedAt(algo, st, st', j);
      }
      if HonestBackup(algo, b) {
        ReportedByDigest(algo, st'.memory, st'.regions[i], b);
        if |b.data| == st.regions[i].size {
          OverwriteHere(st.memory, b.data, st'.regions[i]);
        }
      }
    }
  }

  lemma ReportedByDigest(algo: Algorithm, m: seq<Byte>, r: Region, b: Backup)
    requires Fits(|m|, r.base, r.size) && HonestBackup(algo, b) && r.lastGood == b.hash
    ensures Tampered(algo, m, r) <==> DigestOf(algo, Bytes(m, r)) != DigestOf(algo, b.data)
  {
    hide DigestOf;
  }

  /** A restore succeeds exactly with a backup, and then repairs its region and no other. */
  lemma RestoreEffect(algo: Algorithm, st: State, i: nat)
    requires Repairable(algo, st) && i < |st.regions|
    ensures var (result, st') := Restore(st, i);
      && (result.Success? <==> HasBackup(st, i)) && !result.Skipped?
      && Repairs(algo, st, st', if HasBackup(st, i) then {i} else {})
  {
    hide Bytes, Tampered, HonestBackup, Restore, DigestOf;
    var st' := Restore(st, i).1;
    RestoreWrites(algo, st, i);
    var fixed := if HasBackup(st, i) then {i} else {};
    forall j | 0 <= j < |st.regions| ensures RepairsAt(algo, st, st', j, j in fixed) {
      if !HasBackup(st, i) {
        UntouchedAt(algo, st, st', j);
      }
    }
  }

  lemma SameBytes(m: seq<Byte>, r: Region, r': Region)
    requires Fits(|m|, r.base, r.size) && r'.base == r.base && r'.size == r.size
    ensures Bytes(m, r') == Bytes(m, r)
  {
  }

  /** Scans repair nothing. */
  lemma ScansRepairNothing(algo: Algorithm, st: State, rs: seq<Region>)
    requires Sound(st) && SameButHash(st.regions, rs)
    ensures Repairs(algo, st, st.(regions := rs), {})
  {
    hide Bytes, Tampered;
    var st' := st.(regions := rs);
    forall j | 0 <= j < |st.regions| ensures RepairsAt(algo, st, st', j, false) {
      SameBytes(st.memory, st.regions[j], rs[j]);
      UntouchedAt(algo, st, st', j);
    }
  }

  /** An automatic fix, whatever the regions and the backups are. */
  lemma AutoFixWrites(algo: Algorithm, st: State, i: nat)
    requires Sound(st) && i < |st.regions|
    ensures var (result, st') := AutoFix(algo, st, i);
      && Sound(st') && SameLayout(st, st')
      && (result.Skipped? <==> !TamperedAt(algo, st, i))
      && (result.Success? <==> TamperedAt(algo, st, i) && HasBackup(st, i))
    ensures var (result, st') := AutoFix(algo, st, i);
      forall j :: 0 <= j < |st.regions|
        && (result.Success? ==> j != i && ApartFrom(st.regions[i].base, |Newest(st, i).data|, st.regions[j]))
        ==> RepairsAt(algo, st, st', j, false)
    ensures var (result, st') := AutoFix(algo, st, i);
      result.Success? && HonestBackup(algo, Newest(st, i)) && |Newest(st, i).data| == st.regions[i].size ==>
        BytesAt(st', i) == Newest(st, i).data && !TamperedAt(algo, st', i)
  {
    hide Bytes, CurrentHash, Tampered, Restore, HonestBackup, DigestOf, FindBackup;
    var st1 := AfterScan(algo, st, i);
    var none: set<nat> := {};
    AfterScanSound(algo, st, i);
    ScansRepairNothing(algo, st, st1.regions);
    assert st1 == st.(regions := st1.regions);
    if TamperedAt(algo, st, i) {
      RestoreWrites(algo, st1, i);
      var st' := Restore(st1, i).1;
      forall j | 0 <= j < |st.regions| && (HasBackup(st, i) ==>
          j != i && ApartFrom(st.regions[i].base, |Newest(st, i).data|, st.regions[j]))
        ensures RepairsAt(algo, st, st', j, false)
      {
        assert RepairsAt(algo, st, st1, j, j in none);
        if HasBackup(st, i) {
          assert Newest(st1, i) == Newest(st, i);
          assert st1.regions[j].base == st.regions[j].base && st1.regions[j].size == st.regions[j].size;
          assert RepairsAt(algo, st1, st', j, false);
        } else {
          UntouchedAt(algo, st, st', j);
        }
      }
    }
  }

  /** An automatic fix repairs its region exactly when that is tampered with and has a backup. */
  lemma AutoFixEffect(algo: Algorithm, st: State, i: nat)
    requires Repairable(algo, st) && i < |st.regions|
    ensures var (result, st') := AutoFix(algo, st, i);
      && (result.Skipped? <==> !TamperedAt(algo, st, i))
      && (result.Success? <==> TamperedAt(algo, st, i) && HasBackup(st, i))
      && Repairs(algo, st, st', if result.Success? then {i} else {})
  {
    hide Bytes, CurrentHash, Tampered, Repairs, HasBackup, Restore, BackupsFit;
    var st1 := AfterScan(algo, st, i);
    ScansRepairNothing(algo, st, st1.regions);
    assert st1 == st.(regions := st1.regions);
    RepairsFacts(algo, st, st1, {});
    if TamperedAt(algo, st, i) {
      RestoreEffect(algo, st1, i);
      SameBacked(st, st1, i);
      var st' := Restore(st1, i).1;
      RepairsCompose(algo, st, st1, st', {}, if HasBackup(st1, i) then {i} else {});
      assert {} + (if HasBackup(st1, i) then {i} else {}) == if HasBackup(st1, i) then {i} else {};
    }
  }

  lemma SameBacked(st: State, st1: State, i: nat)
    requires BackedIn(st) == BackedIn(st1) && i < |st.regions| == |st1.regions|
    ensures HasBackup(st, i) == HasBackup(st1, i)
  {
    hide HasBackup;
    assert i in BackedIn(st) <==> i in BackedIn(st1);
  }

  // ---------------------------------------------------------------------------
  // What one pass does
  // ---------------------------------------------------------------------------

  ghost function TamperedIn(algo: Algorithm, st: State): set<nat>
    requires Sound(st)
  {
    TamperedSet(algo, st.memory, st.regions)
  }

  ghost function BackedIn(st: State): set<nat> {
    set i: nat | i < |st.regions| && HasBackup(st, i)
  }

  lemma InSets(algo: Algorithm, st: State, i: nat)
    requires Sound(st) && i < |st.regions|
    ensures i in TamperedIn(algo, st) <==> TamperedAt(algo, st, i)
    ensures i in BackedIn(st) <==> HasBackup(st, i)
  {
    hide Tampered, HasBackup;
  }

  lemma SplitFirst(found: seq<nat>, backed: set<nat>)
    requires found != [] && Increasing(found)
    ensures Increasing(found[1..]) && found[0] !in Elements(found[1..])
    ensures Elements(found) * backed == (if found[0] in backed then {found[0]} else {}) + Elements(found[1..]) * backed
    ensures Elements(found) == {found[0]} + Elements(found[1..])
  {
    assert found == [found[0]] + found[1..];
  }

  /** The repair loop repairs exactly the listed tampered regions that have a backup, and counts them. */
  lemma {:induction false} FixEachEffect(algo: Algorithm, st: State, found: seq<nat>)
    requires Repairable(algo, st) && AllBelow(found, |st.regions|) && Increasing(found)
    requires Elements(found) <= TamperedIn(algo, st)
    ensures var (count, st') := FixEach(algo, st, found);
      && Repairs(algo, st, st', Elements(found) * BackedIn(st))
      && count == |Elements(found) * BackedIn(st)|
    decreases |found|
  {
    hide Repairable, Repairs, AutoFix, HasBackup, TamperedAt, TamperedIn, BackedIn, Increasing, Elements, Sound;
    RepairableIsSound(algo, st);
    if found == [] {
      ScansRepairNothing(algo, st, st.regions);
      assert st == st.(regions := st.regions);
      NoElements(BackedIn(st));
    } else {
      var (i, rest) := (found[0], found[1..]);
      SplitFirst(found, BackedIn(st));
      InSets(algo, st, i);
      AutoFixEffect(algo, st, i);
      AutoFixSound(algo, st, i);
      var (result, st1) := AutoFix(algo, st, i);
      var first := if result.Success? then {i} else {};
      RepairsFacts(algo, st, st1, first);
      FixEachEffect(algo, st1, rest);
      RepairsCompose(algo, st, st1, FixEach(algo, st1, rest).1, first, Elements(rest) * BackedIn(st));
    }
  }

  lemma NoElements(s: set<nat>)
    ensures Elements([]) * s == {}
  {
  }

  /**
   One pass, with n tampered regions: it looks at the first min(64, n) of them, repairs
   those that have a backup, disturbs no other region, and returns how many it repaired.
   */
  lemma PassEffect(algo: Algorithm, st: State) returns (found: set<nat>)
    requires Repairable(algo, st)
    ensures found <= TamperedIn(algo, st)
    ensures |found| == if |TamperedIn(algo, st)| < PASS_LIMIT then |TamperedIn(algo, st)| else PASS_LIMIT
    ensures forall i, j :: j in found && i < j && i in TamperedIn(algo, st) ==> i in found
    ensures var (count, st') := CheckAndFixAll(algo, st);
      Repairs(algo, st, st', found * BackedIn(st)) && count == |found * BackedIn(st)|
  {
    hide Repairable, Repairs, Tampered, BackedIn, FixEach, HasBackup;
    RepairableIsSound(algo, st);
    var list := FoundIn(algo, st, PASS_LIMIT);
    FoundIsFirst(algo, st.memory, st.regions, 0, PASS_LIMIT);
    FoundCount(algo, st.memory, st.regions, PASS_LIMIT);
    found := Elements(list);
    var st1 := AfterScanAll(algo, st, PASS_LIMIT);
    ScannedSame(algo, st.memory, st.regions, 0, PASS_LIMIT);
    assert st.regions[0..] == st.regions;
    ScansRepairNothing(algo, st, st1.regions);
    RepairsFacts(algo, st, st1, {});
    assert TamperedIn(algo, st) - {} == TamperedIn(algo, st);
    FixEachEffect(algo, st1, list);
    RepairsCompose(algo, st, st1, FixEach(algo, st1, list).1, {}, found * BackedIn(st));
    assert {} + found * BackedIn(st) == found * BackedIn(st);
  }

  // ---------------------------------------------------------------------------
  // What repeated passes converge to
  // ---------------------------------------------------------------------------

  /** The tampered regions no pass can repair. */
  ghost function Stuck(algo: Algorithm, st: State): set<nat>
    requires Sound(st)
  {
    TamperedIn(algo, st) - BackedIn(st)
  }

  /** Those of `s` before position `i`. */
  ghost function Before(s: set<nat>, i: nat): set<nat> {
    set j | j in s && j < i
  }

  /** The set of regions one pass repairs, with what is known about it. */
  lemma PassSets(algo: Algorithm, st: State) returns (found: set<nat>)
    requires Repairable(algo, st)
    ensures found <= TamperedIn(algo, st)
    ensures |found| == if |TamperedIn(algo, st)| < PASS_LIMIT then |TamperedIn(algo, st)| else PASS_LIMIT
    ensures forall i, j :: j in found && i < j && i in TamperedIn(algo, st) ==> i in found
    ensures var (count, st') := CheckAndFixAll(algo, st);
      && Repairable(algo, st') && count == |found * BackedIn(st)|
      && BackedIn(st') == BackedIn(st) && Stuck(algo, st') == Stuck(algo, st)
      && TamperedIn(algo, st') == TamperedIn(algo, st) - (found * BackedIn(st))
  {
    hide Repairable, Repairs, TamperedIn, BackedIn, CheckAndFixAll;
    RepairableIsSound(algo, st);
    found := PassEffect(algo, st);
    RepairsFacts(algo, st, CheckAndFixAll(algo, st).1, found * BackedIn(st));
  }

  /**
   With n tampered regions that all have backups, every pass repairs min(64, n) of them:
   k passes leave max(0, n - 64k).
   */
  lemma {:induction false} PassesRepair(algo: Algorithm, st: State, k: nat)
    requires Repairable(algo, st) && TamperedIn(algo, st) <= BackedIn(st)
    ensures var n := |TamperedIn(algo, st)|;
      && CheckAndFixAll(algo, st).0 == (if n < PASS_LIMIT then n else PASS_LIMIT)
      && |TamperedIn(algo, Passes(algo, st, k))| == (if n < 64 * k then 0 else n - 64 * k)
    decreases k
  {
    hide Repairable, TamperedIn, BackedIn, CheckAndFixAll;
    RepairableIsSound(algo, st);
    var found := PassSets(algo, st);
    var st1 := CheckAndFixAll(algo, st).1;
    assert found * BackedIn(st) == found;
    assert |TamperedIn(algo, st) - found| == |TamperedIn(algo, st)| - |found|;
    if k > 0 {
      PassesRepair(algo, st1, k - 1);
    }
  }

  /** The stuck regions stay exactly what they are. */
  lemma {:induction false} StuckStay(algo: Algorithm, st: State, k: nat)
    requires Repairable(algo, st)
    ensures Stuck(algo, Passes(algo, st, k)) == Stuck(algo, st)
    ensures Stuck(algo, st) <= TamperedIn(algo, Passes(algo, st, k))
    decreases k
  {
    hide Repairable, TamperedIn, BackedIn, CheckAndFixAll;
    RepairableIsSound(algo, st);
    if k > 0 {
      var found := PassSets(algo, st);
      StuckStay(algo, CheckAndFixAll(algo, st).1, k - 1);
    }
  }

  /** Whether a scan would report nothing. */
  ghost predicate Clean(algo: Algorithm, st: State)
    requires Sound(st)
  {
    forall max: nat :: FoundIn(algo, st, max) == []
  }

  lemma CleanIsUntampered(algo: Algorithm, st: State)
    requires Sound(st)
    ensures Clean(algo, st) <==> TamperedIn(algo, st) == {}
  {
    hide Tampered;
    forall max: nat ensures TamperedIn(algo, st) == {} ==> FoundIn(algo, st, max) == [] {
      FoundCount(algo, st.memory, st.regions, max);
    }
    FoundCount(algo, st.memory, st.regions, 1);
    assert Elements([]) == {};
    assert Clean(algo, st) ==> FoundIn(algo, st, 1) == [];
  }

  lemma EnoughPasses(algo: Algorithm, st: State, k: nat)
    requires Repairable(algo, st) && TamperedIn(algo, st) <= BackedIn(st)
    ensures 64 * k >= |TamperedIn(algo, st)| <==> Clean(algo, Passes(algo, st, k))
  {
    hide Repairable, TamperedIn, BackedIn, Passes, Clean;
    RepairableIsSound(algo, st);
    PassesRepair(algo, st, k);
    var left := TamperedIn(algo, Passes(algo, st, k));
    assert |left| == 0 <==> left == {};
    CleanIsUntampered(algo, Passes(algo, st, k));
  }

  /**
   Repeated passes reach a state in which scanning reports nothing exactly when every
   tampered region has a backup, and then it is there after k passes
   exactly when 64k is at least their number.
   */
  lemma PassesConverge(algo: Algorithm, st: State)
    requires Repairable(algo, st)
    ensures (exists k: nat :: Clean(algo, Passes(algo, st, k))) <==> TamperedIn(algo, st) <= BackedIn(st)
    ensures TamperedIn(algo, st) <= BackedIn(st) ==>
      forall k: nat :: 64 * k >= |TamperedIn(algo, st)| <==> Clean(algo, Passes(algo, st, k))
  {
    hide Repairable, TamperedIn, BackedIn, Passes, Clean;
    RepairableIsSound(algo, st);
    if TamperedIn(algo, st) <= BackedIn(st) {
      forall k: nat ensures 64 * k >= |TamperedIn(algo, st)| <==> Clean(algo, Passes(algo, st, k)) {
        EnoughPasses(algo, st, k);
      }
      var enough := |TamperedIn(algo, st)|;
      assert Clean(algo, Passes(algo, st, enough));
    } else {
      var i :| i in TamperedIn(algo, st) && i !in BackedIn(st);
      assert i in Stuck(algo, st);
      forall k: nat ensures !Clean(algo, Passes(algo, st, k)) {
        StuckStay(algo, st, k);
        CleanIsUntampered(algo, Passes(algo, st, k));
      }
    }
  }

  // A pass looks at 64 tampered regions only, so stuck ones can starve those behind them.

  lemma BlockedPass(algo: Algorithm, st: State, i: nat)
    requires Repairable(algo, st) && i in TamperedIn(algo, st)
    requires i !in BackedIn(st) || |Before(Stuck(algo, st), i)| >= PASS_LIMIT
    ensures var st' := CheckAndFixAll(algo, st).1; Repairable(algo, st') && i in TamperedIn(algo, st')
  {
    hide Repairable, TamperedIn, BackedIn, CheckAndFixAll;
    RepairableIsSound(algo, st);
    var found := PassSets(algo, st);
    if i in found {
      var ahead := Before(Stuck(algo, st), i);
      assert ahead <= found - {i};
      SubsetSize(ahead, found - {i});
    }
  }

  lemma FreePass(algo: Algorithm, st: State, i: nat)
    requires Repairable(algo, st) && i in TamperedIn(algo, st) * BackedIn(st)
    requires |Before(Stuck(algo, st), i)| < PASS_LIMIT
    ensures var st' := CheckAndFixAll(algo, st).1;
      && Repairable(algo, st') && BackedIn(st') == BackedIn(st) && Stuck(algo, st') == Stuck(algo, st)
      && (i !in TamperedIn(algo, st')
          || |Before(TamperedIn(algo, st'), i)| < |Before(TamperedIn(algo, st), i)|)
  {
    hide Repairable, TamperedIn, BackedIn, CheckAndFixAll;
    RepairableIsSound(algo, st);
    var found := PassSets(algo, st);
    var st' := CheckAndFixAll(algo, st).1;
    if i !in found {
      if |TamperedIn(algo, st)| < PASS_LIMIT {
        SubsetOfSameSize(found, TamperedIn(algo, st));
        assert false;
      }
      var (was, now) := (Before(TamperedIn(algo, st), i), Before(TamperedIn(algo, st'), i));
      assert found <= was;
      if found <= Before(Stuck(algo, st), i) {
        SubsetSize(found, Before(Stuck(algo, st), i));
        assert false;
      }
      var j :| j in found && j !in Before(Stuck(algo, st), i);
      assert j in was && j !in now && now <= was;
      assert now <= was - {j};
      SubsetSize(now, was - {j});
    }
  }

  lemma {:induction false} FreeIsRepaired(algo: Algorithm, st: State, i: nat) returns (k: nat)
    requires Repairable(algo, st) && i in TamperedIn(algo, st) * BackedIn(st)
    requires |Before(Stuck(algo, st), i)| < PASS_LIMIT
    ensures i !in TamperedIn(algo, Passes(algo, st, k))
    decreases |Before(TamperedIn(algo, st), i)|
  {
    hide Repairable, TamperedIn, BackedIn, CheckAndFixAll, Stuck;
    RepairableIsSound(algo, st);
    FreePass(algo, st, i);
    var st1 := CheckAndFixAll(algo, st).1;
    if i !in TamperedIn(algo, st1) {
      k := 1;
      assert Passes(algo, st, 1) == Passes(algo, st1, 0) == st1;
    } else {
      k := FreeIsRepaired(algo, st1, i);
      k := k + 1;
    }
  }

  lemma {:induction false} BlockedStays(algo: Algorithm, st: State, i: nat, k: nat)
    requires Repairable(algo, st) && i in TamperedIn(algo, st)
    requires i !in BackedIn(st) || |Before(Stuck(algo, st), i)| >= PASS_LIMIT
    ensures i in TamperedIn(algo, Passes(algo, st, k))
    decreases k
  {
    hide Repairable, TamperedIn, BackedIn, CheckAndFixAll, Stuck;
    RepairableIsSound(algo, st);
    if k > 0 {
      BlockedPass(algo, st, i);
      var found := PassSets(algo, st);
      BlockedStays(algo, CheckAndFixAll(algo, st).1, i, k - 1);
    }
  }

  /**
   A tampered region is repaired by some pass exactly when it has a backup and fewer than
   64 tampered regions without one stand before it in the list: those fill the result
   buffer of every pass and starve all that follow.
   */
  lemma RepairedUnlessStarved(algo: Algorithm, st: State, i: nat)
    requires Repairable(algo, st) && i in TamperedIn(algo, st)
    ensures (exists k: nat :: i !in TamperedIn(algo, Passes(algo, st, k)))
        <==> i in BackedIn(st) && |Before(Stuck(algo, st), i)| < PASS_LIMIT
  {
    hide Repairable, TamperedIn, BackedIn, CheckAndFixAll, Stuck, Passes;
    RepairableIsSound(algo, st);
    if i in BackedIn(st) && |Before(Stuck(algo, st), i)| < PASS_LIMIT {
      var k := FreeIsRepaired(algo, st, i);
    } else {
      forall k: nat ensures i in TamperedIn(algo, Passes(algo, st, k)) {
        BlockedStays(algo, st, i, k);
      }
    }
  }

  // ---------------------------------------------------------------------------
  // Overlapping regions
  // ---------------------------------------------------------------------------

  /** Two small regions that share an address at which their newest backups disagree. */
  ghost predicate Conflict(algo: Algorithm, st: State, i: nat, j: nat, at: nat) {
    && Sound(st) && i < |st.regions| && j < |st.regions|
    && Claims(algo, st, i, at) && Claims(algo, st, j, at)
    && Newest(st, i).data[at - st.regions[i].base] != Newest(st, j).data[at - st.regions[j].base]
  }

  /** The region at `i` covers an address and is judged by its newest backup, which has its size, at most four. */
  ghost predicate Claims(algo: Algorithm, st: State, i: nat, at: nat)
    requires i < |st.regions|
  {
    var r := st.regions[i];
    && r.base <= at < r.base + r.size && r.size <= 4 && HasBackup(st, i) && |Newest(st, i).data| == r.size
    && HonestBackup(algo, Newest(st, i)) && r.lastGood == Newest(st, i).hash
  }

  lemma ClaimsKept(algo: Algorithm, st: State, m: nat, i: nat, at: nat)
    requires Sound(st) && m < |st.regions| && i < |st.regions| && Claims(algo, st, i, at)
    ensures var st' := AutoFix(algo, st, m).1;
      && i < |st'.regions| && Claims(algo, st', i, at) && HasBackup(st', i) && Newest(st', i) == Newest(st, i)
      && st'.regions[i].base == st.regions[i].base
  {
    hide Tampered, Overwrite, HonestBackup, CurrentHash;
    AutoFixSound(algo, st, m);
  }

  lemma {:induction false} ConflictKept(algo: Algorithm, st: State, found: seq<nat>, i: nat, j: nat, at: nat)
    requires Conflict(algo, st, i, j, at) && AllBelow(found, |st.regions|)
    ensures Conflict(algo, FixEach(algo, st, found).1, i, j, at)
    decreases |found|
  {
    hide AutoFix, Claims, HasBackup;
    if found != [] {
      AutoFixSound(algo, st, found[0]);
      ClaimsBacked(algo, st, i, at);
      ClaimsBacked(algo, st, j, at);
      ClaimsKept(algo, st, found[0], i, at);
      ClaimsKept(algo, st, found[0], j, at);
      ConflictKept(algo, AutoFix(algo, st, found[0]).1, found[1..], i, j, at);
    }
  }

  lemma ClaimsBacked(algo: Algorithm, st: State, i: nat, at: nat)
    requires i < |st.regions| && Claims(algo, st, i, at)
    ensures HasBackup(st, i)
  {
  }

  lemma ScanKeepsClaims(algo: Algorithm, st: State, rs: seq<Region>, i: nat, j: nat, at: nat)
    requires Conflict(algo, st, i, j, at) && SameButHash(st.regions, rs)
    ensures Conflict(algo, st.(regions := rs), i, j, at)
  {
    hide HonestBackup;
  }

  /** A region judged by its backup and not reported holds the backup's bytes. */
  lemma CleanHoldsBackup(algo: Algorithm, st: State, i: nat, at: nat)
    requires Sound(st) && i < |st.regions| && Claims(algo, st, i, at) && !TamperedAt(algo, st, i)
    ensures BytesAt(st, i) == Newest(st, i).data
  {
    hide HashOf, Tampered;
    ReportedWithinWindow(algo, st.memory, st.regions[i], Newest(st, i).data, 0, st.regions[i].size);
  }

  /** Regions in conflict undo each other's repairs: no number of passes leads to a clean scan. */
  lemma {:induction false} ConflictNeverClean(algo: Algorithm, st: State, i: nat, j: nat, at: nat, k: nat)
    requires Conflict(algo, st, i, j, at)
    ensures !Clean(algo, Passes(algo, st, k))
    decreases k
  {
    hide Claims, Clean, FixEach, AfterScanAll, Tampered, HasBackup;
    if k > 0 {
      ScannedSame(algo, st.memory, st.regions, 0, PASS_LIMIT);
      assert st.regions[0..] == st.regions;
      var st1 := AfterScanAll(algo, st, PASS_LIMIT);
      AfterScanAllIs(algo, st, PASS_LIMIT);
      ScanKeepsClaims(algo, st, st1.regions, i, j, at);
      ConflictKept(algo, st1, FoundIn(algo, st, PASS_LIMIT), i, j, at);
      ConflictNeverClean(algo, CheckAndFixAll(algo, st).1, i, j, at, k - 1);
    } else {
      ConflictTampered(algo, st, i, j, at);
      CleanIsUntampered(algo, st);
    }
  }

  lemma AfterScanAllIs(algo: Algorithm, st: State, max: nat)
    requires Sound(st)
    ensures var st1 := AfterScanAll(algo, st, max);
      st1 == st.(regions := st1.regions) && SameButHash(st.regions, st1.regions)
  {
    hide Tampered;
    ScannedSame(algo, st.memory, st.regions, 0, max);
    assert st.regions[0..] == st.regions;
  }

  lemma ConflictTampered(algo: Algorithm, st: State, i: nat, j: nat, at: nat)
    requires Conflict(algo, st, i, j, at)
    ensures TamperedIn(algo, st) != {}
  {
    hide Tampered, HonestBackup;
    if TamperedIn(algo, st) == {} {
      InSets(algo, st, i);
      InSets(algo, st, j);
      CleanHoldsBackup(algo, st, i, at);
      CleanHoldsBackup(algo, st, j, at);
      assert false;
    }
  }
}
