/**
 Starvation happens: 65 one-byte regions are registered, only the one at the end of the
 list is backed up, and then every byte changes. The repair passes look at the 64 regions
 before it, can repair none of them, and never come to the last one.
 */
module Starvation {
  import opened Folds
  import opened Words
  import opened Hash
  import opened MemoryScanner
  import opened MemoryRepair
  import opened RepairRuns

  const COUNT := 65

  function Filled(b: Byte): (m: seq<Byte>)
    ensures |m| == COUNT + 1 && forall a :: 0 <= a < |m| ==> m[a] == b
  {
    seq(COUNT + 1, _ => b)
  }

  /** The last `n` addresses registered, from the highest down, so the lowest stands first. */
  function Rows(algo: Algorithm, n: nat): (rs: seq<Region>)
    requires n <= COUNT
    ensures |rs| == n
  {
    seq(n, i requires 0 <= i < n => Registered(algo, Filled(1), "", COUNT + 1 - n + i, 1))
  }

  function Ones(n: nat): (r: seq<seq<Byte>>)
    ensures |r| == n && forall i :: 0 <= i < n ==> r[i] == [1]
  {
    seq(n, _ => [1])
  }

  function RowsWorld(algo: Algorithm, n: nat): World
    requires n <= COUNT
  {
    World(State(Filled(1), Rows(algo, n), [], 0, 0), Ones(n), [], [], {})
  }

  /** All registered, the one at the highest address backed up, and all bytes changed. */
  function StarvedWorld(algo: Algorithm): World {
    World(State(Filled(0), Rows(algo, COUNT), [Taken(algo, Filled(1), COUNT, 1)], 0, 0), Ones(COUNT),
      [0], [Capture(COUNT, [1])], {})
  }

  lemma RowsFit(algo: Algorithm, n: nat)
    requires n <= COUNT
    ensures Aligned(RowsWorld(algo, n))
    ensures forall i :: 0 <= i < n ==> Rows(algo, n)[i].base == COUNT + 1 - n + i && Rows(algo, n)[i].size == 1
  {
    hide Registered, Aligned;
    var rs := Rows(algo, n);
    forall i | 0 <= i < n ensures rs[i].base == COUNT + 1 - n + i && rs[i].size == 1 {
      assert rs[i] == Registered(algo, Filled(1), "", COUNT + 1 - n + i, 1);
      PlacedAt(algo, COUNT + 1 - n + i);
    }
    AlignedIf(RowsWorld(algo, n));
  }

  lemma PlacedAt(algo: Algorithm, address: nat)
    requires 0 < address <= COUNT
    ensures var r := Registered(algo, Filled(1), "", address, 1); r.base == address && r.size == 1
  {
  }

  lemma AlignedIf(w: World)
    requires |w.references| == |w.st.regions| && |w.ids| == |w.st.backups|
    requires forall i :: 0 <= i < |w.st.regions| ==> Fits(|w.st.memory|, w.st.regions[i].base, w.st.regions[i].size)
    requires forall k :: 0 <= k < |w.st.backups| ==>
      Fits(|w.st.memory|, w.st.backups[k].address, |w.st.backups[k].data|)
    ensures Aligned(w)
  {
  }

  lemma RegisterNext(algo: Algorithm, n: nat)
    requires n < COUNT
    ensures Enabled(RowsWorld(algo, n), Register("", COUNT - n, 1))
    ensures After(algo, RowsWorld(algo, n), Register("", COUNT - n, 1)) == RowsWorld(algo, n + 1)
  {
    hide Computed;
    RowsFit(algo, n);
    var w := RowsWorld(algo, n);
    assert Rows(algo, n + 1) == [Registered(algo, Filled(1), "", COUNT - n, 1)] + Rows(algo, n);
    assert Filled(1)[COUNT - n..COUNT - n + 1] == [1];
    assert Ones(n + 1) == [[1]] + Ones(n);
  }

  lemma BackUpAndChange(algo: Algorithm)
    ensures Runnable(algo, RowsWorld(algo, COUNT), [TakeBackup(COUNT, 1), Outside(Filled(0))])
    ensures Run(algo, RowsWorld(algo, COUNT), [TakeBackup(COUNT, 1), Outside(Filled(0))]) == StarvedWorld(algo)
  {
    hide Rows, Taken;
    var (backup, change) := (TakeBackup(COUNT, 1), Outside(Filled(0)));
    var w := RowsWorld(algo, COUNT);
    RowsFit(algo, COUNT);
    assert Enabled(w, backup);
    var w1 := After(algo, w, backup);
    assert Filled(1)[COUNT..COUNT + 1] == [1];
    assert w1.ids == [0] && w1.captures == [Capture(COUNT, [1])];
    assert w1.st.backups == [Taken(algo, Filled(1), COUNT, 1)];
    assert w1.st == AfterBackup(algo, w.st, COUNT, 1);
    AfterBackupSound(algo, w.st, COUNT, 1);
    assert Enabled(w1, change);
    assert After(algo, w1, change) == StarvedWorld(algo);
    EmptyRun(algo, After(algo, w1, change));
    RunFrom(algo, w1, change, []);
    RunFrom(algo, w, backup, [change] + []);
    assert [backup] + ([change] + []) == [backup, change];
  }

  lemma {:induction false} RunsToStarved(algo: Algorithm, n: nat) returns (steps: seq<Step>)
    requires n <= COUNT
    ensures Runnable(algo, RowsWorld(algo, n), steps)
    ensures Run(algo, RowsWorld(algo, n), steps) == StarvedWorld(algo)
    decreases COUNT - n
  {
    hide RowsWorld, StarvedWorld, Enabled, After;
    if n == COUNT {
      BackUpAndChange(algo);
      steps := [TakeBackup(COUNT, 1), Outside(Filled(0))];
    } else {
      RegisterNext(algo, n);
      var rest := RunsToStarved(algo, n + 1);
      RunFrom(algo, RowsWorld(algo, n), Register("", COUNT - n, 1), rest);
      steps := [Register("", COUNT - n, 1)] + rest;
    }
  }

  /** The first `n` positions. */
  function UpTo(n: nat): (s: set<nat>)
    ensures |s| == n && forall j: nat :: j in s <==> j < n
  {
    if n == 0 then {} else UpTo(n - 1) + {n - 1}
  }

  lemma StarvedAligned(algo: Algorithm)
    ensures Aligned(StarvedWorld(algo))
  {
    hide Computed;
    RowsFit(algo, COUNT);
  }

  /** What is known of each region in the end. */
  lemma StarvedAt(algo: Algorithm, w: World, steps: seq<Step>, i: nat)
    requires Supported(algo) && Initial(w) && Runnable(algo, w, steps) && Run(algo, w, steps) == StarvedWorld(algo)
    requires i < COUNT
    ensures Aligned(StarvedWorld(algo))
    ensures TamperedAt(algo, StarvedWorld(algo).st, i)
    ensures HasBackup(StarvedWorld(algo).st, i) <==> i == COUNT - 1
    ensures StarvedWorld(algo).st.regions[i].base == i + 1 && StarvedWorld(algo).st.regions[i].size == 1
  {
    hide Runnable, Run, Tampered, Computed, Aligned, Registered, Initial;
    var now := StarvedWorld(algo);
    RowsFit(algo, COUNT);
    StarvedAligned(algo);
    AlignedIsSound(now);
    SoundAt(now.st, i);
    assert BytesAt(now.st, i) == [0];
    assert now.references[i] == [1];
    assert [0 as Byte][0] != [1 as Byte][0];
    ReportedInRuns(algo, w, steps, i, 0, 1);
    assert now.st.backups[0].address == COUNT;
  }

  lemma AlignedIsSound(w: World)
    requires Aligned(w)
    ensures Sound(w.st)
  {
  }

  /** All 65 regions are tampered with, and only the last is backed up. */
  lemma AllButLastStuck(algo: Algorithm, w: World, steps: seq<Step>)
    requires Supported(algo) && Initial(w) && Runnable(algo, w, steps) && Run(algo, w, steps) == StarvedWorld(algo)
    ensures var st := StarvedWorld(algo).st;
      && Repairable(algo, st) && TamperedIn(algo, st) == UpTo(COUNT) && BackedIn(st) == {COUNT - 1}
  {
    hide Runnable, Run, Tampered, Computed, HasBackup, StarvedWorld, Initial, UpTo;
    var st := StarvedWorld(algo).st;
    StarvedAligned(algo);
    StarvedShape(algo);
    AlignedIsSound(StarvedWorld(algo));
    forall i: nat | i < COUNT
      ensures TamperedAt(algo, st, i) && (HasBackup(st, i) <==> i == COUNT - 1)
      ensures st.regions[i].base == i + 1 && st.regions[i].size == 1
    {
      StarvedAt(algo, w, steps, i);
    }
    RepairableAfterRun(algo, w, steps);
  }

  lemma StarvedShape(algo: Algorithm)
    ensures |StarvedWorld(algo).st.regions| == COUNT
    ensures var st := StarvedWorld(algo).st;
      forall i :: 0 <= i < COUNT && HasBackup(st, i) ==> |Newest(st, i).data| == 1
  {
    hide Computed;
  }

  lemma StartsInitial(algo: Algorithm)
    ensures Initial(RowsWorld(algo, 0))
  {
  }

  /**
   A run from the start to a state in which 64 stuck regions stand before a tampered one
   that is backed up, which therefore no number of passes repairs.
   */
  lemma StarvationHappens(algo: Algorithm) returns (w: World, steps: seq<Step>)
    requires Supported(algo)
    ensures Initial(w) && Runnable(algo, w, steps)
    ensures var st := Run(algo, w, steps).st;
      && Repairable(algo, st) && COUNT - 1 in TamperedIn(algo, st) * BackedIn(st)
      && |Before(Stuck(algo, st), COUNT - 1)| == PASS_LIMIT
      && forall k: nat :: COUNT - 1 in TamperedIn(algo, Passes(algo, st, k))
  {
    hide Runnable, Run, TamperedIn, BackedIn, Repairable, Passes, Initial, RowsWorld, StarvedWorld, UpTo, Sound;
    w := RowsWorld(algo, 0);
    StartsInitial(algo);
    steps := RunsToStarved(algo, 0);
    AllButLastStuck(algo, w, steps);
    var st := StarvedWorld(algo).st;
    RepairableIsSound(algo, st);
    assert Before(Stuck(algo, st), COUNT - 1) == UpTo(COUNT - 1);
    RepairedUnlessStarved(algo, st, COUNT - 1);
  }
}
