/**
 The code of src/core/repair_system/memory_repair.c over the linked lists of backups and
 regions, each method proved to do what its function in MemoryRepair says.
 */
module Repairer {
  import opened Words
  import opened Hash
  import opened Lists
  import opened CStrings
  import opened Search
  import opened Counters
  import Crc32
  import opened MemoryScanner
  import R = MemoryRepair

  /** Nodes of different lists are different objects. */
  lemma Apart(a: seq<Node<Region>>, b: seq<Node<R.Backup>>)
    ensures forall i, j :: 0 <= i < |a| && 0 <= j < |b| ==> a[i] as object != b[j]
  {
  }

  /** Writes a backup back, and its hash into the region. */
  method WriteBack(monitor: Monitor, region: Node<Region>, ghost i: nat, b: R.Backup)
    requires monitor.Valid() && i < |monitor.spine| && monitor.spine[i] == region
    requires b.address + |b.data| <= monitor.memory.Length
    modifies monitor.memory, region`value
    ensures monitor.Valid()
    ensures monitor.memory[..] == R.Overwrite(old(monitor.memory[..]), b.address, b.data)
    ensures monitor.Regions() == old(monitor.Regions())[i := old(region.value).(hash := b.hash, lastGood := b.hash)]
  {
    hide Chain, R.Overwrite;
    ghost var regions := monitor.Regions();
    ChainDistinct(monitor.regions, monitor.spine);
    CopyInto(monitor.memory, b.address, b.data);
    region.value := region.value.(hash := b.hash, lastGood := b.hash);
    assert monitor.Regions() == regions[i := region.value];
  }

  class Repairer {
    const monitor: Monitor
    var backups: Node?<R.Backup>
    var attempted: nat
    var successful: nat
    ghost var backupSpine: seq<Node<R.Backup>>
    ghost var attempts: nat
    ghost var successes: nat

    ghost function State(): R.State
      reads this, monitor, monitor.memory, monitor.spine, backupSpine
    {
      R.State(monitor.memory[..], monitor.Regions(), Values(backupSpine), attempts, successes)
    }

    ghost predicate Valid()
      reads this, monitor, monitor.memory, monitor.spine, monitor.unit, monitor.unit.table, backupSpine
    {
      && monitor.Valid() && Chain(backups, backupSpine) && R.Sound(State())
      && attempted == attempts % TWO_32 && successful == successes % TWO_32
    }

    constructor (monitor: Monitor)
      requires monitor.Valid()
      ensures Valid() && this.monitor == monitor && backupSpine == []
      ensures State() == R.State(monitor.memory[..], monitor.Regions(), [], 0, 0)
    {
      this.monitor := monitor;
      backups, attempted, successful := null, 0, 0;
      backupSpine, attempts, successes := [], 0, 0;
    }

    /** `gotRecord` and `gotData` tell whether memory was to be had. */
    method BackupMemory(name: Option<string>, address: nat, size: nat, gotRecord: bool, gotData: bool)
        returns (backup: Node?<R.Backup>)
      requires Valid() && address + size <= monitor.memory.Length
      modifies this, monitor.unit, monitor.unit.table
      ensures Valid()
      ensures backup == null <==> name.None? || address == 0 || size == 0 || !gotRecord || !gotData
      ensures backup == null ==> backupSpine == old(backupSpine) && State() == old(State())
      ensures backup != null ==> fresh(backup) && backupSpine == [backup] + old(backupSpine)
      ensures backup != null ==> State() == R.AfterBackup(monitor.algorithm, old(State()), address, size)
    {
      hide Chain, Values, Computed, AllFit, Crc32.CrcUnit.Valid, R.Sound;
      if name.None? || address == 0 || size == 0 {
        return null;
      }
      if !gotRecord || !gotData {
        return null;
      }
      var data := monitor.memory[address..address + size];
      var status, hash := monitor.HashBytes(address, size);
      R.AfterBackupSound(monitor.algorithm, State(), address, size);
      backup := new Node(R.Backup(address, data, hash), backups);
      Pushed(backups, backupSpine, backup);
      backups := backup;
      backupSpine := [backup] + backupSpine;
    }

    /** `i` is the backup's place, or the list's length if it is not in it. */
    method FreeBackup(backup: Node?<R.Backup>, ghost i: nat)
      requires Valid() && (backup != null ==> Placed(backupSpine, backup, i))
      modifies this, backupSpine
      ensures Valid() && backupSpine == if backup == null then old(backupSpine) else Gone(old(backupSpine), i)
      ensures State() == if backup == null || i == |old(backupSpine)| then old(State())
                         else R.AfterFree(old(State()), i)
    {
      hide Chain, Values, R.Sound, AllFit, Fits, Crc32.CrcUnit.Valid, Gone, Without;
      if backup == null {
        return;
      }
      GoneIs(Values(backupSpine), i);
      if i < |backupSpine| {
        R.AfterFreeSound(State(), i);
      }
      Apart(monitor.spine, backupSpine);
      ghost var regions := monitor.Regions();
      backups := Unlink(backups, backup, backupSpine, i);
      backupSpine := Gone(backupSpine, i);
      assert monitor.Regions() == regions;
    }

    method FindBackupByAddress(address: nat) returns (backup: Node?<R.Backup>)
      requires Chain(backups, backupSpine)
      ensures match R.FindBackup(Values(backupSpine), address)
              case None => backup == null
              case Some(k) => k < |backupSpine| && backup == backupSpine[k]
    {
      hide Chain, Values;
      backup := FindNode(backups, R.TakenAt(address), backupSpine);
    }

    /** `ps14_repair_restore_memory`: a null region fails without counting as an attempt. */
    method RestoreMemory(region: Node?<Region>, ghost i: nat) returns (result: R.RepairResult)
      requires Valid() && (region != null ==> i < |monitor.spine| && monitor.spine[i] == region)
      modifies this, monitor.memory, Only(region)`value
      ensures Valid() && backupSpine == old(backupSpine)
      ensures region == null ==> result.Failed? && State() == old(State())
      ensures region != null ==> (result, State()) == R.Restore(old(State()), i)
    {
      if region == null {
        return R.Failed;
      }
      result := RestoreListed(region, i);
    }

    method RestoreListed(region: Node<Region>, ghost i: nat) returns (result: R.RepairResult)
      requires Valid() && i < |monitor.spine| && monitor.spine[i] == region
      modifies this, monitor.memory, region`value
      ensures Valid() && backupSpine == old(backupSpine)
      ensures (result, State()) == R.Restore(old(State()), i)
    {
      hide Chain, Values, At, R.Overwrite, R.Sound, R.FindBackup, AllFit, Fits, Up, Crc32.CrcUnit.Valid;
      ghost var st := State();
      R.RestoreSound(st, i);
      UpCounts(attempts);
      UpCounts(successes);
      attempted := Up(attempted);
      attempts := attempts + 1;
      ghost var k := R.FindBackup(st.backups, region.value.base);
      var backup := FindBackupByAddress(region.value.base);
      if backup == null {
        return R.Failed;
      }
      R.BackupFits(st, k.value);
      Apart(monitor.spine, backupSpine);
      WriteBack(monitor, region, i, backup.value);
      successful := Up(successful);
      successes := successes + 1;
      assert Values(backupSpine) == st.backups;
      assert State() == R.Restore(st, i).1;
      result := R.RepairResult.Success;
    }

    /** `ps14_repair_attempt_auto_fix`: a null region fails. */
    method AttemptAutoFix(region: Node?<Region>, ghost i: nat) returns (result: R.RepairResult)
      requires Valid() && (region != null ==> i < |monitor.spine| && monitor.spine[i] == region)
      modifies this, monitor.memory, Only(region)`value, monitor.unit, monitor.unit.table
      ensures Valid() && backupSpine == old(backupSpine)
      ensures region == null ==> result.Failed? && State() == old(State())
      ensures region != null ==> (result, State()) == R.AutoFix(monitor.algorithm, old(State()), i)
    {
      hide Chain, R.Restore, Tampered, Scanned, R.Sound;
      if region == null {
        return R.Failed;
      }
      ghost var st := State();
      R.SoundAt(st, i);
      R.AfterScanSound(monitor.algorithm, st, i);
      var tampered := monitor.ScanRegion(region, i);
      assert State() == R.AfterScan(monitor.algorithm, st, i);
      if !tampered {
        return R.Skipped;
      }
      result := RestoreMemory(region, i);
    }

    method CheckAndFixAll() returns (repaired: nat)
      requires Valid()
      modifies this, monitor.memory, monitor.spine, monitor.unit, monitor.unit.table
      ensures Valid() && backupSpine == old(backupSpine)
      ensures (repaired, State()) == R.CheckAndFixAll(monitor.algorithm, old(State()))
    {
      hide Chain, Values, R.AutoFix, R.Sound, FoundFrom, ScannedFrom, Crc32.CrcUnit.Valid;
      ghost var st := State();
      R.SoundScan(monitor.algorithm, st, R.PASS_LIMIT);
      var results, found := monitor.ScanAll(true, R.PASS_LIMIT);
      ghost var st1 := State();
      assert st1 == R.AfterScanAll(monitor.algorithm, st, R.PASS_LIMIT);
      assert found == R.FoundIn(monitor.algorithm, st, R.PASS_LIMIT);
      repaired := 0;
      var k := 0;
      while k < |results|
        invariant Valid() && backupSpine == old(backupSpine)
        invariant |monitor.spine| == |st.regions| == |State().regions|
        invariant k <= |results| == |found| && R.AllBelow(found, |st.regions|)
        invariant forall j :: 0 <= j < |found| ==> results[j] == monitor.spine[found[j]]
        invariant R.FixEach(monitor.algorithm, st1, found)
               == R.Counted(repaired, R.FixEach(monitor.algorithm, State(), found[k..]))
      {
        var fix := AttemptAutoFix(results[k], found[k]);
        if fix.Success? {
          repaired := repaired + 1;
        }
        k := k + 1;
      }
    }
  }

  /** A copy of `data` into memory at an address. */
  method CopyInto(memory: array<Byte>, at: nat, data: seq<Byte>)
    requires at + |data| <= memory.Length
    modifies memory
    ensures memory[..] == R.Overwrite(old(memory[..]), at, data)
  {
    forall k | 0 <= k < |data| {
      memory[at + k] := data[k];
    }
  }
}
