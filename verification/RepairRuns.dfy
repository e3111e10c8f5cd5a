/**
 Whole runs of the scanner and the repairer together, in any order, with memory written
 from outside in between. Beside the program's state a world remembers the history the
 guarantees speak of: the bytes each region had when it was registered or last restored,
 every capture ever made, and which captures were freed.
 */
module RepairRuns {
  import opened Folds
  import opened Words
  import opened Hash
  import LaneHash
  import opened Lists
  import opened CStrings
  import opened MemoryScanner
  import opened MemoryRepair

  datatype Capture = Capture(address: nat, bytes: seq<Byte>)

  /** `references` runs along the regions, `ids` along the backups: when each was taken. */
  datatype World = World(st: State, references: seq<seq<Byte>>, ids: seq<nat>, captures: seq<Capture>, freed: set<nat>)

  datatype Step =
    | Register(name: string, addr: nat, size: nat)
    | Unregister(i: nat)
    | Scan(i: nat)
    | ScanAll(max: nat)
    | TakeBackup(addr: nat, size: nat)
    | FreeBackup(k: nat)
    | RestoreRegion(i: nat)
    | FixRegion(i: nat)
    | Outside(memory: seq<Byte>)

  ghost predicate Aligned(w: World) {
    Sound(w.st) && |w.references| == |w.st.regions| && |w.ids| == |w.st.backups|
  }

  ghost predicate Enabled(w: World, step: Step) {
    && Aligned(w)
    && match step
       case Register(_, addr, size) => Fits(|w.st.memory|, addr, size)
       case TakeBackup(addr, size) => Fits(|w.st.memory|, addr, size)
       case FreeBackup(k) => k < |w.st.backups|
       case Unregister(i) => i < |w.st.regions|
       case Scan(i) => i < |w.st.regions|
       case RestoreRegion(i) => i < |w.st.regions|
       case FixRegion(i) => i < |w.st.regions|
       case ScanAll(_) => true
       case Outside(memory) => |memory| == |w.st.memory|
  }

  /** The references after a repair of the region at `i` that ended with `result`. */
  ghost function Referenced(w: World, i: nat, result: RepairResult): seq<seq<Byte>>
    requires i < |w.st.regions| == |w.references|
  {
    if result.Success? && HasBackup(w.st, i) then w.references[i := Newest(w.st, i).data] else w.references
  }

  ghost function After(algo: Algorithm, w: World, step: Step): World
    requires Enabled(w, step)
  {
    match step
    case Register(name, addr, size) =>
      w.(st := w.st.(regions := [Registered(algo, w.st.memory, name, addr, size)] + w.st.regions),
         references := [w.st.memory[addr..addr + size]] + w.references)
    case Unregister(i) =>
      w.(st := w.st.(regions := Without(w.st.regions, i)), references := Without(w.references, i))
    case Scan(i) => w.(st := AfterScan(algo, w.st, i))
    case ScanAll(max) => w.(st := AfterScanAll(algo, w.st, max))
    case TakeBackup(addr, size) =>
      w.(st := AfterBackup(algo, w.st, addr, size), ids := [|w.captures|] + w.ids,
         captures := w.captures + [Capture(addr, w.st.memory[addr..addr + size])])
    case FreeBackup(k) =>
      w.(st := AfterFree(w.st, k), ids := Without(w.ids, k), freed := w.freed + {w.ids[k]})
    case RestoreRegion(i) =>
      var (result, st) := Restore(w.st, i);
      w.(st := st, references := Referenced(w, i, result))
    case FixRegion(i) =>
      var (result, st) := AutoFix(algo, w.st, i);
      w.(st := st, references := Referenced(w, i, result))
    case Outside(memory) => w.(st := w.st.(memory := memory))
  }

  /** A program that has just started over some memory. */
  ghost predicate Initial(w: World) {
    w == World(State(w.st.memory, [], [], 0, 0), [], [], [], {})
  }

  ghost predicate Runnable(algo: Algorithm, w: World, steps: seq<Step>)
    decreases |steps|
  {
    steps == [] || (Enabled(w, steps[0]) && Runnable(algo, After(algo, w, steps[0]), steps[1..]))
  }

  ghost function Run(algo: Algorithm, w: World, steps: seq<Step>): World
    requires Runnable(algo, w, steps)
    decreases |steps|
  {
    if steps == [] then w else Run(algo, After(algo, w, steps[0]), steps[1..])
  }

  // ---------------------------------------------------------------------------
  // The invariant
  // ---------------------------------------------------------------------------

  /** Every good hash is that of the region's reference. */
  ghost predicate GoodHashes(algo: Algorithm, w: World)
    requires Aligned(w)
  {
    forall i :: 0 <= i < |w.references| ==> HashedFrom(algo, w.st.regions[i], w.references[i])
  }

  ghost predicate Decreasing(s: seq<nat>) {
    forall k, l :: 0 <= k < l < |s| ==> s[l] < s[k]
  }

  /** The backup list is the captures not freed, newest first, each under its own hash. */
  ghost predicate Live(algo: Algorithm, captures: seq<Capture>, freed: set<nat>, ids: seq<nat>, bs: seq<Backup>) {
    && |ids| == |bs| && Decreasing(ids)
    && (forall k :: 0 <= k < |ids| ==> LiveAt(algo, captures, freed, ids[k], bs[k]))
    && (forall id: nat :: id < |captures| && id !in freed ==> id in ids)
    && (forall id: nat :: id in freed ==> id < |captures|)
  }

  ghost predicate LiveAt(algo: Algorithm, captures: seq<Capture>, freed: set<nat>, id: nat, b: Backup) {
    id < |captures| && id !in freed && BackupOf(algo, captures[id], b)
  }

  ghost predicate LiveCaptures(algo: Algorithm, w: World) {
    Live(algo, w.captures, w.freed, w.ids, w.st.backups)
  }

  ghost predicate BackupOf(algo: Algorithm, c: Capture, b: Backup) {
    b.address == c.address && b.data == c.bytes && HonestBackup(algo, b)
  }

  ghost predicate Inv(algo: Algorithm, w: World) {
    && Aligned(w) && GoodHashes(algo, w) && LiveCaptures(algo, w)
    && w.st.successes <= w.st.attempts
  }

  lemma ScanKeeps(algo: Algorithm, w: World, i: nat)
    requires Supported(algo) && Inv(algo, w) && i < |w.st.regions|
    ensures Inv(algo, After(algo, w, Scan(i)))
  {
    hide Tampered, CurrentHash, Live, HashOf, Fits, Supported;
    var w' := After(algo, w, Scan(i));
    AfterScanSound(algo, w.st, i);
    assert w'.st.regions[i].lastGood == w.st.regions[i].lastGood;
    forall j | 0 <= j < |w.references| ensures HashedFrom(algo, w'.st.regions[j], w.references[j]) {
      assert HashedFrom(algo, w.st.regions[j], w.references[j]);
    }
  }

  lemma GoodAlone(algo: Algorithm, w: World, w': World)
    requires Aligned(w) && Aligned(w') && GoodHashes(algo, w)
    requires w'.st.regions == w.st.regions && w'.references == w.references
    ensures GoodHashes(algo, w')
  {
  }

  lemma NewestIsHonest(algo: Algorithm, w: World, i: nat)
    requires LiveCaptures(algo, w) && i < |w.st.regions| && HasBackup(w.st, i)
    ensures HonestBackup(algo, Newest(w.st, i))
  {
    hide HonestBackup;
    var k := FindBackup(w.st.backups, w.st.regions[i].base).value;
    assert LiveAt(algo, w.captures, w.freed, w.ids[k], w.st.backups[k]);
  }

  lemma RestoreKeeps(algo: Algorithm, w: World, i: nat)
    requires Supported(algo) && Inv(algo, w) && i < |w.st.regions|
    ensures Inv(algo, After(algo, w, RestoreRegion(i)))
  {
    hide Live, HashOf;
    RestoreSound(w.st, i);
    if HasBackup(w.st, i) {
      NewestIsHonest(algo, w, i);
    }
  }

  lemma AutoFixIsScanRestore(algo: Algorithm, w: World, i: nat)
    requires Supported(algo) && Inv(algo, w) && i < |w.st.regions|
    ensures var w1 := After(algo, w, Scan(i));
      && Enabled(w1, RestoreRegion(i))
      && After(algo, w, FixRegion(i)) == if TamperedAt(algo, w.st, i) then After(algo, w1, RestoreRegion(i)) else w1
  {
    hide Tampered, CurrentHash, Live, GoodHashes, Overwrite;
  }

  lemma RegisterKeeps(algo: Algorithm, w: World, name: string, addr: nat, size: nat)
    requires Supported(algo) && Inv(algo, w) && Fits(|w.st.memory|, addr, size)
    ensures Inv(algo, After(algo, w, Register(name, addr, size)))
  {
    hide Live, HashedFrom, Registered;
    RegisteredHashedFrom(algo, w.st.memory, name, addr, size);
  }

  lemma BackupKeeps(algo: Algorithm, w: World, addr: nat, size: nat)
    requires Supported(algo) && Inv(algo, w) && Fits(|w.st.memory|, addr, size)
    ensures Inv(algo, After(algo, w, TakeBackup(addr, size)))
  {
    hide GoodHashes, Live, Taken;
    GoodAlone(algo, w, After(algo, w, TakeBackup(addr, size)));
    TakenIsHonest(algo, w.st.memory, addr, size);
    LivePush(algo, w.captures, w.freed, w.ids, w.st.backups,
      Capture(addr, w.st.memory[addr..addr + size]), Taken(algo, w.st.memory, addr, size));
  }

  lemma TakenIsHonest(algo: Algorithm, m: seq<Byte>, addr: nat, size: nat)
    requires Supported(algo) && Fits(|m|, addr, size)
    ensures BackupOf(algo, Capture(addr, m[addr..addr + size]), Taken(algo, m, addr, size))
  {
  }

  lemma LivePush(algo: Algorithm, captures: seq<Capture>, freed: set<nat>, ids: seq<nat>, bs: seq<Backup>,
      c: Capture, b: Backup)
    requires Live(algo, captures, freed, ids, bs) && BackupOf(algo, c, b)
    ensures Live(algo, captures + [c], freed, [|captures|] + ids, [b] + bs)
  {
    hide BackupOf;
    var (captures', ids', bs') := (captures + [c], [|captures|] + ids, [b] + bs);
    forall k | 0 <= k < |ids'| ensures LiveAt(algo, captures', freed, ids'[k], bs'[k]) {
      if k > 0 {
        assert LiveAt(algo, captures, freed, ids[k - 1], bs[k - 1]);
      }
    }
    forall k, l | 0 <= k < l < |ids'| ensures ids'[l] < ids'[k] {
      assert LiveAt(algo, captures, freed, ids[l - 1], bs[l - 1]);
    }
    forall id: nat | id < |captures'| && id !in freed ensures id in ids' {
      assert ids'[0] == |captures|;
      assert id < |captures| ==> id in ids;
    }
  }

  lemma DecreasingWithout(s: seq<nat>, k: nat)
    requires Decreasing(s) && k < |s|
    ensures Decreasing(Without(s, k))
    ensures forall x :: x in s && x != s[k] ==> x in Without(s, k)
  {
    forall x | x in s && x != s[k] ensures x in Without(s, k) {
      var l :| 0 <= l < |s| && s[l] == x;
      assert Without(s, k)[if l < k then l else l - 1] == x;
    }
  }

  lemma LiveFree(algo: Algorithm, captures: seq<Capture>, freed: set<nat>, ids: seq<nat>, bs: seq<Backup>, k: nat)
    requires Live(algo, captures, freed, ids, bs) && k < |ids|
    ensures Live(algo, captures, freed + {ids[k]}, Without(ids, k), Without(bs, k))
  {
    hide BackupOf;
    var (freed', ids', bs') := (freed + {ids[k]}, Without(ids, k), Without(bs, k));
    DecreasingWithout(ids, k);
    assert LiveAt(algo, captures, freed, ids[k], bs[k]);
    forall l | 0 <= l < |ids'| ensures LiveAt(algo, captures, freed', ids'[l], bs'[l]) {
      var was := if l < k then l else l + 1;
      assert ids'[l] == ids[was] && bs'[l] == bs[was];
      assert LiveAt(algo, captures, freed, ids[was], bs[was]);
      assert ids[was] != ids[k];
    }
  }

  lemma FreeKeeps(algo: Algorithm, w: World, k: nat)
    requires Inv(algo, w) && k < |w.st.backups|
    ensures Inv(algo, After(algo, w, FreeBackup(k)))
  {
    hide GoodHashes, Live, Sound;
    AfterFreeSound(w.st, k);
    GoodAlone(algo, w, After(algo, w, FreeBackup(k)));
    LiveFree(algo, w.captures, w.freed, w.ids, w.st.backups, k);
  }

  lemma UnregisterKeeps(algo: Algorithm, w: World, i: nat)
    requires Inv(algo, w) && i < |w.st.regions|
    ensures Inv(algo, After(algo, w, Unregister(i)))
  {
    hide Live, HashedFrom;
  }

  lemma OutsideKeeps(algo: Algorithm, w: World, memory: seq<Byte>)
    requires Inv(algo, w) && |memory| == |w.st.memory|
    ensures Inv(algo, After(algo, w, Outside(memory)))
  {
    hide Live, HashedFrom;
  }

  lemma ScanAllKeeps(algo: Algorithm, w: World, max: nat)
    requires Supported(algo) && Inv(algo, w)
    ensures Inv(algo, After(algo, w, ScanAll(max)))
  {
    hide Live, Tampered, HashOf;
    ScannedSame(algo, w.st.memory, w.st.regions, 0, max);
    assert w.st.regions[0..] == w.st.regions;
  }

  lemma FixKeeps(algo: Algorithm, w: World, i: nat)
    requires Supported(algo) && Inv(algo, w) && i < |w.st.regions|
    ensures Inv(algo, After(algo, w, FixRegion(i)))
  {
    hide Tampered, Live, GoodHashes;
    ScanKeeps(algo, w, i);
    AutoFixIsScanRestore(algo, w, i);
    RestoreKeeps(algo, After(algo, w, Scan(i)), i);
  }

  /** Every step keeps the invariant. */
  lemma StepKeeps(algo: Algorithm, w: World, step: Step)
    requires Supported(algo) && Inv(algo, w) && Enabled(w, step)
    ensures Inv(algo, After(algo, w, step))
  {
    hide Inv, After, Sound;
    match step
    case Register(name, addr, size) => RegisterKeeps(algo, w, name, addr, size);
    case Unregister(i) => UnregisterKeeps(algo, w, i);
    case Scan(i) => ScanKeeps(algo, w, i);
    case ScanAll(max) => ScanAllKeeps(algo, w, max);
    case TakeBackup(addr, size) => BackupKeeps(algo, w, addr, size);
    case FreeBackup(k) => FreeKeeps(algo, w, k);
    case RestoreRegion(i) => RestoreKeeps(algo, w, i);
    case FixRegion(i) => FixKeeps(algo, w, i);
    case Outside(memory) => OutsideKeeps(algo, w, memory);
  }

  lemma {:induction false} RunKeeps(algo: Algorithm, w: World, steps: seq<Step>)
    requires Supported(algo) && Inv(algo, w) && Runnable(algo, w, steps)
    ensures Inv(algo, Run(algo, w, steps))
    decreases |steps|
  {
    hide Inv, After, Enabled;
    if steps != [] {
      StepKeeps(algo, w, steps[0]);
      RunKeeps(algo, After(algo, w, steps[0]), steps[1..]);
    }
  }

  // ---------------------------------------------------------------------------
  // What holds after any run
  // ---------------------------------------------------------------------------

  lemma InitialInv(algo: Algorithm, w: World)
    requires Initial(w)
    ensures Inv(algo, w)
  {
    hide BackupOf;
  }

  /** What every run from the start keeps. */
  lemma RunInv(algo: Algorithm, w: World, steps: seq<Step>)
    requires Supported(algo) && Initial(w) && Runnable(algo, w, steps)
    ensures Inv(algo, Run(algo, w, steps))
  {
    hide Initial, Inv, Runnable, Run;
    InitialInv(algo, w);
    RunKeeps(algo, w, steps);
  }

  /**
   After any run: a region with the bytes it had when it was registered or last restored
   is not reported, and one that differs from them only within four consecutive bytes is.
   */
  lemma ReportedInRuns(algo: Algorithm, w: World, steps: seq<Step>, i: nat, lo: nat, hi: nat)
    requires Supported(algo) && Initial(w) && Runnable(algo, w, steps)
    ensures Aligned(Run(algo, w, steps))
    ensures var now := Run(algo, w, steps);
      i < |now.st.regions| && AgreeOutside(BytesAt(now.st, i), now.references[i], lo, hi) && hi - lo <= 4 ==>
        (TamperedAt(algo, now.st, i) <==> BytesAt(now.st, i) != now.references[i])
  {
    hide Initial, Runnable, Run, Live, Tampered, AgreeOutside, HashedFrom;
    RunInv(algo, w, steps);
    var now := Run(algo, w, steps);
    if i < |now.st.regions| && AgreeOutside(BytesAt(now.st, i), now.references[i], lo, hi) && hi - lo <= 4 {
      ReportedWithinWindow(algo, now.st.memory, now.st.regions[i], now.references[i], lo, hi);
    }
  }

  /** The newest capture at an address that was not freed. */
  ghost predicate NewestLive(w: World, address: nat, id: nat) {
    && id < |w.captures| && id !in w.freed && w.captures[id].address == address
    && forall j: nat :: id < j < |w.captures| && w.captures[j].address == address ==> j in w.freed
  }

  /** A list position and a capture that agree, both newest at the address. */
  lemma FoundIsNewestLive(algo: Algorithm, w: World, address: nat)
    requires LiveCaptures(algo, w)
    ensures match FindBackup(w.st.backups, address)
            case None => (forall id: nat :: !NewestLive(w, address, id))
            case Some(k) => (
              && k < |w.ids| == |w.st.backups| && w.ids[k] < |w.captures|
              && w.st.backups[k].data == w.captures[w.ids[k]].bytes
              && forall id: nat :: NewestLive(w, address, id) <==> id == w.ids[k])
  {
    hide HonestBackup;
    var found := FindBackup(w.st.backups, address);
    if found.Some? {
      assert LiveAt(algo, w.captures, w.freed, w.ids[found.value], w.st.backups[found.value]);
    }
    forall id: nat ensures NewestLive(w, address, id) <==> found.Some? && id == w.ids[found.value] {
      if found.Some? && id == w.ids[found.value] {
        forall j: nat | id < j < |w.captures| && w.captures[j].address == address ensures j in w.freed {
          if j !in w.freed {
            var l := PositionOf(algo, w, j);
            assert false;
          }
        }
      }
      if NewestLive(w, address, id) {
        var l := PositionOf(algo, w, id);
        assert found.Some? && found.value <= l;
        assert LiveAt(algo, w.captures, w.freed, w.ids[found.value], w.st.backups[found.value]);
      }
    }
  }

  lemma PositionOf(algo: Algorithm, w: World, id: nat) returns (l: nat)
    requires LiveCaptures(algo, w) && id < |w.captures| && id !in w.freed
    ensures l < |w.ids| && w.ids[l] == id && w.st.backups[l].address == w.captures[id].address
  {
    hide HonestBackup;
    l :| 0 <= l < |w.ids| && w.ids[l] == id;
    assert LiveAt(algo, w.captures, w.freed, w.ids[l], w.st.backups[l]);
  }

  /**
   After any run: restoring a region succeeds exactly when a capture at its base address
   is not freed, and then writes back exactly the bytes of the newest such capture.
   */
  lemma RestoreWritesNewestLive(algo: Algorithm, w: World, steps: seq<Step>, i: nat)
    requires Supported(algo) && Initial(w) && Runnable(algo, w, steps)
    requires i < |Run(algo, w, steps).st.regions|
    ensures Sound(Run(algo, w, steps).st)
    ensures var now := Run(algo, w, steps);
      var (result, st) := Restore(now.st, i);
      var base := now.st.regions[i].base;
      && (result.Success? <==> exists id: nat :: NewestLive(now, base, id))
      && (forall id: nat :: NewestLive(now, base, id) ==>
            (base + |now.captures[id].bytes| <= |now.st.memory|
             && st.memory == Overwrite(now.st.memory, base, now.captures[id].bytes)))
      && (!result.Success? ==> st.memory == now.st.memory)
  {
    hide Initial, Runnable, Run, GoodHashes, Live, NewestLive, Overwrite;
    RunInv(algo, w, steps);
    var now := Run(algo, w, steps);
    FoundIsNewestLive(algo, now, now.st.regions[i].base);
    var k := FindBackup(now.st.backups, now.st.regions[i].base);
    if k.Some? {
      BackupFits(now.st, k.value);
      assert NewestLive(now, now.st.regions[i].base, now.ids[k.value]);
    }
  }

  /**
   After any run: no repair succeeded that was not attempted, and the 32-bit counters show
   it as long as the attempts fit them.
   */
  lemma CountersOrdered(algo: Algorithm, w: World, steps: seq<Step>)
    requires Supported(algo) && Initial(w) && Runnable(algo, w, steps)
    ensures var st := Run(algo, w, steps).st;
      && st.successes <= st.attempts
      && (st.attempts < 0x1_0000_0000 ==> st.successes % 0x1_0000_0000 <= st.attempts % 0x1_0000_0000)
  {
    hide Initial, Runnable, Run, GoodHashes, Live;
    RunInv(algo, w, steps);
  }

  /**
   After any run and a restore: the region is reported as it is, unchanged since, exactly
   when the digest of its bytes is not that of the backup; never with a backup of its size.
   */
  lemma ReportedAfterRestore(algo: Algorithm, w: World, steps: seq<Step>, i: nat)
    requires Supported(algo) && Initial(w) && Runnable(algo, w, steps)
    requires var st := Run(algo, w, steps).st; Sound(st) && i < |st.regions| && HasBackup(st, i)
    ensures var st := Run(algo, w, steps).st;
      var (b, st') := (Newest(st, i), Restore(st, i).1);
      && Sound(st') && i < |st'.regions|
      && (TamperedAt(algo, st', i) <==> DigestOf(algo, BytesAt(st', i)) != DigestOf(algo, b.data))
      && (|b.data| == st.regions[i].size ==> BytesAt(st', i) == b.data && !TamperedAt(algo, st', i))
  {
    hide Initial, Runnable, Run, GoodHashes, Live, Sound, Restore, HasBackup, DigestOf, HonestBackup;
    RunInv(algo, w, steps);
    var now := Run(algo, w, steps);
    NewestIsHonest(algo, now, i);
    RestoreWrites(algo, now.st, i);
  }

  lemma RunFrom(algo: Algorithm, w: World, step: Step, rest: seq<Step>)
    requires Enabled(w, step) && Runnable(algo, After(algo, w, step), rest)
    ensures Runnable(algo, w, [step] + rest)
    ensures Run(algo, w, [step] + rest) == Run(algo, After(algo, w, step), rest)
  {
    hide Enabled, After;
    assert ([step] + rest)[1..] == rest;
  }

  lemma EmptyRun(algo: Algorithm, w: World)
    ensures Runnable(algo, w, []) && Run(algo, w, []) == w
  {
  }

  /**
   It happens with a shorter backup: two bytes 1 are registered, the first is backed up,
   both become 2, and a restore leaves 1 and 2, which md5 reports at once.
   */
  lemma RestoredIsReported(w: World) returns (steps: seq<Step>)
    requires Initial(w) && w.st.memory == [0, 1, 1]
    ensures Runnable(MD5, w, steps)
    ensures var now := Run(MD5, w, steps);
      && Sound(now.st) && |now.st.regions| == 1 && HasBackup(now.st, 0)
      && Restore(now.st, 0).0.Success?
      && BytesAt(Restore(now.st, 0).1, 0) == [1, 2] && TamperedAt(MD5, Restore(now.st, 0).1, 0)
  {
    hide Runnable, Run, Tampered, Computed, DigestOf;
    var (register, backup, change) := (Register("", 1, 2), TakeBackup(1, 1), Outside([0, 2, 2]));
    var w1 := After(MD5, w, register);
    var w2 := After(MD5, w1, backup);
    var w3 := After(MD5, w2, change);
    EmptyRun(MD5, w3);
    RunFrom(MD5, w2, change, []);
    RunFrom(MD5, w1, backup, [change] + []);
    RunFrom(MD5, w, register, [backup] + ([change] + []));
    steps := [register] + ([backup] + ([change] + []));
    assert w3.st.backups[0].address == 1 && w3.st.backups[0].data == [1];
    ReportedAfterRestore(MD5, w, steps, 0);
    var st' := Restore(w3.st, 0).1;
    assert st'.memory == [0, 1, 2];
    assert BytesAt(st', 0) == [1, 2];
    Md5Tells();
  }

  lemma Md5Tells()
    ensures DigestOf(MD5, [1, 2]) != DigestOf(MD5, [1])
  {
    hide LaneHash.Md5Digest;
    LaneHash.SecondByteTold();
  }

  /** After any run every stored digest is that of the stored bytes, and these are some capture's not freed. */
  lemma DigestsMatch(algo: Algorithm, w: World, steps: seq<Step>, k: nat)
    requires Supported(algo) && Initial(w) && Runnable(algo, w, steps)
    requires k < |Run(algo, w, steps).st.backups|
    ensures var now := Run(algo, w, steps);
      && now.st.backups[k].hash == HashOf(algo, now.st.backups[k].data)
      && k < |now.ids| && now.ids[k] < |now.captures| && now.ids[k] !in now.freed
      && now.st.backups[k].data == now.captures[now.ids[k]].bytes
  {
    hide Initial, Runnable, Run, GoodHashes, HashOf, Sound;
    RunInv(algo, w, steps);
    var now := Run(algo, w, steps);
    assert LiveAt(algo, now.captures, now.freed, now.ids[k], now.st.backups[k]);
  }

  /**
   After any run the backups are honest, so with disjoint regions and backups of matching
   size the convergence results of MemoryRepair apply.
   */
  lemma RepairableAfterRun(algo: Algorithm, w: World, steps: seq<Step>)
    requires Supported(algo) && Initial(w) && Runnable(algo, w, steps)
    ensures var st := Run(algo, w, steps).st;
      AllDisjoint(st.regions)
      && (forall i :: 0 <= i < |st.regions| && HasBackup(st, i) ==> |Newest(st, i).data| == st.regions[i].size)
      ==> Repairable(algo, st)
  {
    hide Initial, Runnable, Run, GoodHashes, Live, HonestBackup, Sound, HasBackup, AllDisjoint, WritesApart;
    RunInv(algo, w, steps);
    var now := Run(algo, w, steps);
    forall i | 0 <= i < |now.st.regions| && HasBackup(now.st, i) ensures HonestBackup(algo, Newest(now.st, i)) {
      NewestIsHonest(algo, now, i);
    }
    if AllDisjoint(now.st.regions) && BackupsFit(algo, now.st) {
      DisjointIsApart(algo, now.st);
    }
  }

  /** The fixes of a pass, one after the other. */
  lemma {:induction false} FixesAreARun(algo: Algorithm, w: World, found: seq<nat>) returns (steps: seq<Step>)
    requires Supported(algo) && Inv(algo, w) && AllBelow(found, |w.st.regions|)
    ensures Runnable(algo, w, steps)
    ensures Run(algo, w, steps).st == FixEach(algo, w.st, found).1
    decreases |found|
  {
    hide GoodHashes, Live, AutoFix;
    if found == [] {
      steps := [];
    } else {
      var fix := FixRegion(found[0]);
      StepKeeps(algo, w, fix);
      AutoFixSound(algo, w.st, found[0]);
      var rest := FixesAreARun(algo, After(algo, w, fix), found[1..]);
      steps := [fix] + rest;
    }
  }

  /** A repair pass is a run, so all of the above holds across passes. */
  lemma PassIsARun(algo: Algorithm, w: World) returns (steps: seq<Step>)
    requires Supported(algo) && Inv(algo, w)
    ensures Runnable(algo, w, steps)
    ensures Run(algo, w, steps).st == CheckAndFixAll(algo, w.st).1
  {
    hide GoodHashes, Live, FixEach, AfterScanAll;
    StepKeeps(algo, w, ScanAll(PASS_LIMIT));
    var rest := FixesAreARun(algo, After(algo, w, ScanAll(PASS_LIMIT)), FoundIn(algo, w.st, PASS_LIMIT));
    steps := [ScanAll(PASS_LIMIT)] + rest;
  }
}
