/**
 The checksum table of src/core/integrity_check/checksum_db.c: 1024 slots that stand for a
 map from paths to hashes. A slot with an empty path is free.
 */
module ChecksumDb {
  import opened Hash
  import opened CStrings
  import opened Search

  const MAX_ENTRIES := 1024
  const MAX_PATH := 260

  datatype Slot = Slot(path: string, hash: HashRecord, valid: bool)

  datatype AddStatus = Success | InvalidArgument | Exhausted

  function AtPath(path: string): Slot -> bool {
    (s: Slot) => s.path == path
  }

  /** The first slot with a path. */
  function FirstSlot(slots: seq<Slot>, path: string): (k: Option<nat>)
    ensures k.Some? ==> k.value < |slots| && slots[k.value].path == path
    ensures forall j :: 0 <= j < (if k.Some? then k.value else |slots|) ==> slots[j].path != path
  {
    First(slots, AtPath(path))
  }

  function Added(slots: seq<Slot>, path: string, hash: HashRecord): (r: (AddStatus, seq<Slot>))
    ensures |r.1| == |slots|
  {
    match FirstSlot(slots, path)
    case Some(k) => (AddStatus.Success, slots[k := Slot(slots[k].path, hash, true)])
    case None =>
      match FirstSlot(slots, "")
      case Some(k) => (AddStatus.Success, slots[k := Slot(Stored(path, MAX_PATH), hash, true)])
      case None => (Exhausted, slots)
  }

  // ---------------------------------------------------------------------------
  // The map
  // ---------------------------------------------------------------------------

  predicate Proper(path: string) {
    path != "" && |path| < MAX_PATH
  }

  predicate Holds(slots: seq<Slot>, path: string) {
    exists i :: 0 <= i < |slots| && slots[i].path == path
  }

  /** The used slots are the first `|m|` ones, with the paths and hashes of the map. */
  ghost predicate Refines(slots: seq<Slot>, m: map<string, HashRecord>) {
    && |slots| == MAX_ENTRIES && |m| <= MAX_ENTRIES
    && (forall i :: |m| <= i < |slots| ==> slots[i].path == "")
    && (forall i :: 0 <= i < |m| ==> SlotIn(m, slots[i]))
    && (forall i, j :: 0 <= i < j < |m| ==> slots[i].path != slots[j].path)
    && (forall p :: p in m ==> Proper(p) && Holds(slots, p))
  }

  predicate SlotIn(m: map<string, HashRecord>, s: Slot) {
    s.path in m && s.hash == m[s.path] && s.valid
  }

  /** A path is found exactly if some slot has it. */
  lemma FoundIffHolds(slots: seq<Slot>, path: string)
    ensures FirstSlot(slots, path).Some? <==> Holds(slots, path)
  {
  }

  lemma FreeSlot(slots: seq<Slot>, m: map<string, HashRecord>)
    requires Refines(slots, m)
    ensures FirstSlot(slots, "") == if |m| < MAX_ENTRIES then Some(|m|) else None
  {
    hide FirstSlot, Holds;
    forall i | 0 <= i < |m| ensures slots[i].path != "" {
      assert SlotIn(m, slots[i]);
      assert Proper(slots[i].path);
    }
    var k := FirstSlot(slots, "");
    if |m| < MAX_ENTRIES {
      assert slots[|m|].path == "";
    }
  }

  lemma FoundIsIn(slots: seq<Slot>, m: map<string, HashRecord>, path: string)
    requires Refines(slots, m) && path != ""
    ensures FirstSlot(slots, path).Some? <==> path in m
    ensures FirstSlot(slots, path).Some? ==> FirstSlot(slots, path).value < |m|
  {
    hide FirstSlot, Holds;
    FoundIffHolds(slots, path);
    var k := FirstSlot(slots, path);
    if k.Some? {
      assert slots[k.value].path == path;
      assert SlotIn(m, slots[k.value]);
    }
  }

  lemma HoldsReplace(slots: seq<Slot>, k: nat, s: Slot)
    requires k < |slots|
    ensures Holds(slots[k := s], s.path)
    ensures forall p :: Holds(slots, p) && p != slots[k].path ==> Holds(slots[k := s], p)
  {
    var slots' := slots[k := s];
    assert slots'[k].path == s.path;
    forall p | Holds(slots, p) && p != slots[k].path ensures Holds(slots', p) {
      var i :| 0 <= i < |slots| && slots[i].path == p;
      assert slots'[i].path == p;
    }
  }

  lemma UpdateRefines(slots: seq<Slot>, m: map<string, HashRecord>, k: nat, hash: HashRecord)
    requires Refines(slots, m) && k < |m|
    ensures slots[k].path in m
    ensures Refines(slots[k := Slot(slots[k].path, hash, true)], m[slots[k].path := hash])
  {
    hide Holds, FirstSlot;
    var path := slots[k].path;
    assert SlotIn(m, slots[k]);
    var m' := m[path := hash];
    assert m'.Keys == m.Keys;
    assert |m'| == |m'.Keys| == |m|;
    HoldsReplace(slots, k, Slot(path, hash, true));
  }

  lemma InsertRefines(slots: seq<Slot>, m: map<string, HashRecord>, path: string, hash: HashRecord)
    requires Refines(slots, m) && |m| < MAX_ENTRIES && Proper(path) && path !in m
    ensures Refines(slots[|m| := Slot(path, hash, true)], m[path := hash])
  {
    hide Holds, FirstSlot;
    var m' := m[path := hash];
    assert m'.Keys == m.Keys + {path};
    assert |m'| == |m'.Keys| == |m| + 1;
    HoldsReplace(slots, |m|, Slot(path, hash, true));
    var slots' := slots[|m| := Slot(path, hash, true)];
    forall i | 0 <= i < |m| ensures slots[i].path != path && SlotIn(m', slots'[i]) {
      assert SlotIn(m, slots[i]);
    }
  }

  /** Adding a proper path adds to the map, or reports exhaustion exactly when 1024 other paths are stored. */
  lemma AddRefines(slots: seq<Slot>, m: map<string, HashRecord>, path: string, hash: HashRecord)
    requires Refines(slots, m) && Proper(path)
    ensures var (status, slots') := Added(slots, path, hash);
      && (status.Exhausted? <==> path !in m && |m| == MAX_ENTRIES) && !status.InvalidArgument?
      && Refines(slots', if status.Exhausted? then m else m[path := hash])
  {
    hide FirstSlot, Refines;
    FreeSlot(slots, m);
    FoundIsIn(slots, m, path);
    AtMost1024(slots, m);
    if path in m {
      UpdateRefines(slots, m, FirstSlot(slots, path).value, hash);
    } else if |m| < MAX_ENTRIES {
      InsertRefines(slots, m, path, hash);
    }
  }

  function Empty(): seq<Slot> {
    seq(MAX_ENTRIES, _ => Slot("", HashRecord(CRC32, Unset), false))
  }

  function AddedAll(slots: seq<Slot>, adds: seq<(string, HashRecord)>): seq<Slot> {
    if adds == [] then slots
    else
      var before := AddedAll(slots, adds[..|adds| - 1]);
      Added(before, adds[|adds| - 1].0, adds[|adds| - 1].1).1
  }

  /** The map after some adds, of which those beyond 1024 paths are dropped. */
  function Stored1024(adds: seq<(string, HashRecord)>): map<string, HashRecord> {
    if adds == [] then map[]
    else
      var m := Stored1024(adds[..|adds| - 1]);
      var (path, hash) := adds[|adds| - 1];
      if path !in m && |m| >= MAX_ENTRIES then m else m[path := hash]
  }

  /** After any run of adds of proper paths the table is the map: a prefix of distinct paths. */
  lemma {:induction false} RunRefines(adds: seq<(string, HashRecord)>)
    requires forall i :: 0 <= i < |adds| ==> Proper(adds[i].0)
    ensures Refines(AddedAll(Empty(), adds), Stored1024(adds))
    decreases |adds|
  {
    hide Refines, FirstSlot, Added;
    if adds == [] {
      EmptyRefines();
    } else {
      var before := adds[..|adds| - 1];
      RunRefines(before);
      AddRefines(AddedAll(Empty(), before), Stored1024(before), adds[|adds| - 1].0, adds[|adds| - 1].1);
      AtMost1024(AddedAll(Empty(), before), Stored1024(before));
    }
  }

  /** After any run, a proper path is turned away exactly when 1024 other paths are stored. */
  lemma ExhaustedExactly(adds: seq<(string, HashRecord)>, path: string, hash: HashRecord)
    requires Proper(path) && forall i :: 0 <= i < |adds| ==> Proper(adds[i].0)
    ensures Added(AddedAll(Empty(), adds), path, hash).0.Exhausted?
       <==> path !in Stored1024(adds) && |Stored1024(adds)| == MAX_ENTRIES
  {
    hide FirstSlot, Refines, Added;
    RunRefines(adds);
    AddRefines(AddedAll(Empty(), adds), Stored1024(adds), path, hash);
  }

  lemma AtMost1024(slots: seq<Slot>, m: map<string, HashRecord>)
    requires Refines(slots, m)
    ensures |m| <= MAX_ENTRIES
  {
  }

  lemma EmptyRefines()
    ensures Refines(Empty(), map[])
  {
  }

  /** An empty path is accepted while a slot is free, stores nothing findable, and leaves all paths alone. */
  lemma EmptyPathIsLost(slots: seq<Slot>, m: map<string, HashRecord>, hash: HashRecord)
    requires Refines(slots, m)
    ensures var (status, slots') := Added(slots, "", hash);
      && (status.Success? <==> |m| < MAX_ENTRIES)
      && Refines(slots', m)
  {
    hide FirstSlot, Holds;
    FreeSlot(slots, m);
    if |m| < MAX_ENTRIES {
      HoldsReplace(slots, |m|, Slot("", hash, true));
    }
  }

  predicate AllStored(slots: seq<Slot>) {
    forall i :: 0 <= i < |slots| ==> |slots[i].path| < MAX_PATH
  }

  /** A path that is not empty is found after it was added exactly when it fits the stored field. */
  lemma FoundAfterAdd(slots: seq<Slot>, path: string, hash: HashRecord)
    requires AllStored(slots) && path != "" && Added(slots, path, hash).0.Success?
    ensures var slots' := Added(slots, path, hash).1;
      AllStored(slots') && (FirstSlot(slots', path).Some? <==> |path| < MAX_PATH)
  {
    hide FirstSlot;
    var slots' := Added(slots, path, hash).1;
    FoundIffHolds(slots', path);
    match FirstSlot(slots, path)
    case Some(k) => assert slots'[k].path == path;
    case None => assert slots'[FirstSlot(slots, "").value].path == Stored(path, MAX_PATH);
  }

  /** Adding an overlong path twice takes two slots. */
  lemma LongPathsRepeat(slots: seq<Slot>, path: string, hash: HashRecord, k: nat, l: nat)
    requires |path| >= MAX_PATH && (forall i :: 0 <= i < |slots| ==> |slots[i].path| < MAX_PATH)
    requires FirstSlot(slots, "") == Some(k)
    requires k < l < |slots| && slots[l].path == "" && forall j :: k < j < l ==> slots[j].path != ""
    ensures var twice := Added(Added(slots, path, hash).1, path, hash).1;
      twice[k].path == twice[l].path == path[..MAX_PATH - 1]
  {
    hide FirstSlot;
    assert FirstSlot(slots, path).None?;
    var once := Added(slots, path, hash).1;
    assert once[k].path == path[..MAX_PATH - 1];
    assert FirstSlot(once, path).None?;
    assert FirstSlot(once, "") == Some(l) by {
      var f := FirstSlot(once, "");
      assert once[l].path == "";
    }
  }

  // ---------------------------------------------------------------------------
  // The code
  // ---------------------------------------------------------------------------

  method FindSlot(db: array<Slot>, path: string) returns (k: nat)
    ensures k <= db.Length
    ensures FirstSlot(db[..], path) == if k < db.Length then Some(k) else None
  {
    k := 0;
    while k < db.Length
      invariant k <= db.Length && forall j :: 0 <= j < k ==> db[j].path != path
    {
      if db[k].path == path {
        return;
      }
      k := k + 1;
    }
  }

  /** `ps14_checksum_db_add` to a table that was initialised. */
  method Add(db: array<Slot>, path: Option<string>, hash: Option<HashRecord>) returns (status: AddStatus)
    modifies db
    ensures status.InvalidArgument? <==> path.None? || hash.None?
    ensures status.InvalidArgument? ==> db[..] == old(db[..])
    ensures path.Some? && hash.Some? ==> (status, db[..]) == Added(old(db[..]), path.value, hash.value)
  {
    hide FirstSlot;
    if path.None? || hash.None? {
      return AddStatus.InvalidArgument;
    }
    var i := FindSlot(db, path.value);
    if i < db.Length {
      db[i] := db[i].(hash := hash.value, valid := true);
      return AddStatus.Success;
    }
    i := FindSlot(db, "");
    if i < db.Length {
      db[i] := Slot(Stored(path.value, MAX_PATH), hash.value, true);
      return AddStatus.Success;
    }
    return Exhausted;
  }
}
