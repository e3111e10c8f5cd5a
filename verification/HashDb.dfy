/**
 The hash database of src/core/memory_monitor/hash_database.c: a linked list that stands
 for a map from names to hashes.
 */
module HashDb {
  import opened Folds
  import opened Words
  import opened Hash
  import opened Lists
  import opened CStrings
  import opened Search
  import Crc32

  const MAX_NAME := 64

  datatype Entry = Entry(name: string, base: nat, size: nat, hash: HashRecord, algorithm: Algorithm)

  datatype AddStatus = Success | InvalidArgument | OutOfMemory | Unknown

  function Named(name: string): Entry -> bool {
    (e: Entry) => e.name == name
  }

  /** The position of the first entry with a name. */
  function FirstNamed(es: seq<Entry>, name: string): (k: Option<nat>)
    ensures k.Some? ==> k.value < |es| && es[k.value].name == name
    ensures forall j :: 0 <= j < (if k.Some? then k.value else |es|) ==> es[j].name != name
  {
    First(es, Named(name))
  }

  /** The list after adding an entry: names are compared in full but stored cut off. */
  function Added(es: seq<Entry>, name: string, base: nat, size: nat, hash: HashRecord, algorithm: Algorithm)
    : seq<Entry>
  {
    match FirstNamed(es, name)
    case Some(k) => es[k := Entry(es[k].name, base, size, hash, algorithm)]
    case None => [Entry(Stored(name, MAX_NAME), base, size, hash, algorithm)] + es
  }

  function Removed(es: seq<Entry>, name: string): seq<Entry> {
    match FirstNamed(es, name)
    case Some(k) => Without(es, k)
    case None => es
  }

  /** `ps14_hash_db_verify_region` of the bytes now at an address. */
  predicate Verified(es: seq<Entry>, name: string, address: nat, bytes: seq<Byte>) {
    var k := FirstNamed(es, name);
    && k.Some? && es[k.value].base == address && es[k.value].size == |bytes|
    && address != 0
    && var (status, current) := Computed(es[k.value].algorithm, bytes, HashRecord(CRC32, Unset));
      status.Success? && Compare(current, es[k.value].hash)
  }

  // ---------------------------------------------------------------------------
  // The map
  // ---------------------------------------------------------------------------

  /** What is known under a name: where the data was and the data itself. */
  datatype Known = Known(base: nat, data: seq<Byte>, algorithm: Algorithm)

  datatype Change = Add(name: string, known: Known) | Remove(name: string)

  predicate Proper(c: Change) {
    match c
    case Add(name, known) => |name| < MAX_NAME && known.data != [] && Supported(known.algorithm)
    case Remove(_) => true
  }

  function Apply(es: seq<Entry>, c: Change): seq<Entry>
    requires Proper(c)
  {
    match c
    case Add(name, k) => Added(es, name, k.base, |k.data|, HashOf(k.algorithm, k.data), k.algorithm)
    case Remove(name) => Removed(es, name)
  }

  function ApplyToMap(m: map<string, Known>, c: Change): map<string, Known> {
    match c
    case Add(name, k) => m[name := k]
    case Remove(name) => m - {name}
  }

  predicate NamesDiffer(es: seq<Entry>) {
    forall i, j :: 0 <= i < j < |es| ==> es[i].name != es[j].name
  }

  predicate Has(es: seq<Entry>, name: string) {
    exists i :: 0 <= i < |es| && es[i].name == name
  }

  predicate Records(e: Entry, k: Known) {
    && e.base == k.base && e.size == |k.data| && e.algorithm == k.algorithm && k.data != []
    && Supported(k.algorithm) && e.hash == HashOf(k.algorithm, k.data)
  }

  predicate RecordedIn(m: map<string, Known>, e: Entry) {
    e.name in m && Records(e, m[e.name])
  }

  /** The list stands for the map: the same names, each once, each with the hash of its data. */
  ghost predicate Refines(es: seq<Entry>, m: map<string, Known>) {
    && NamesDiffer(es)
    && (forall name :: name in m ==> Has(es, name))
    && (forall i :: 0 <= i < |es| ==> RecordedIn(m, es[i]))
  }

  lemma HasPush(e: Entry, es: seq<Entry>)
    ensures forall name :: Has([e] + es, name) <==> e.name == name || Has(es, name)
  {
    var all := [e] + es;
    forall name ensures Has(all, name) <==> e.name == name || Has(es, name) {
      if e.name == name {
        assert all[0].name == name;
      } else if Has(es, name) {
        var i :| 0 <= i < |es| && es[i].name == name;
        assert all[i + 1].name == name;
      }
    }
  }

  lemma HasReplace(es: seq<Entry>, k: nat, e: Entry)
    requires k < |es| && e.name == es[k].name
    ensures NamesDiffer(es) ==> NamesDiffer(es[k := e])
    ensures forall name :: Has(es[k := e], name) <==> Has(es, name)
  {
    forall name ensures Has(es[k := e], name) <==> Has(es, name) {
      if Has(es, name) {
        var i :| 0 <= i < |es| && es[i].name == name;
        assert es[k := e][i].name == name;
      }
    }
  }

  lemma HasWithout(es: seq<Entry>, k: nat)
    requires NamesDiffer(es) && k < |es|
    ensures NamesDiffer(Without(es, k))
    ensures forall name :: Has(Without(es, k), name) <==> Has(es, name) && name != es[k].name
  {
    var rest := Without(es, k);
    forall name ensures Has(rest, name) <==> Has(es, name) && name != es[k].name {
      if Has(es, name) && name != es[k].name {
        var i :| 0 <= i < |es| && es[i].name == name;
        assert rest[if i < k then i else i - 1].name == name;
      }
      if Has(rest, name) {
        var i :| 0 <= i < |rest| && rest[i].name == name;
        assert es[if i < k then i else i + 1].name == name;
      }
    }
  }

  lemma AddRefines(es: seq<Entry>, m: map<string, Known>, name: string, k: Known)
    requires Refines(es, m) && Proper(Add(name, k))
    ensures Refines(Apply(es, Add(name, k)), m[name := k])
  {
    hide Records, Has;
    var e := Entry(name, k.base, |k.data|, HashOf(k.algorithm, k.data), k.algorithm);
    var m' := m[name := k];
    NewIsRecorded(name, k);
    match FirstNamed(es, name)
    case Some(at) =>
      HasReplace(es, at, e);
      HasThis(es, at);
    case None =>
      HasPush(e, es);
      assert forall i :: 0 <= i < |es| ==> es[i].name != name;
  }

  lemma HasThis(es: seq<Entry>, i: nat)
    requires i < |es|
    ensures Has(es, es[i].name)
  {
  }

  lemma NewIsRecorded(name: string, k: Known)
    requires k.data != [] && Supported(k.algorithm)
    ensures Records(Entry(name, k.base, |k.data|, HashOf(k.algorithm, k.data), k.algorithm), k)
  {
  }

  lemma RemoveRefines(es: seq<Entry>, m: map<string, Known>, name: string)
    requires Refines(es, m)
    ensures Refines(Removed(es, name), m - {name})
  {
    hide Records, Has, FirstNamed;
    FoundIffHas(es, name);
    if Has(es, name) {
      HasWithout(es, FirstNamed(es, name).value);
    }
  }

  lemma FoundIffHas(es: seq<Entry>, name: string)
    ensures FirstNamed(es, name).Some? <==> Has(es, name)
  {
  }

  function AppliedAll(es: seq<Entry>, cs: seq<Change>): seq<Entry>
    requires forall i :: 0 <= i < |cs| ==> Proper(cs[i])
    decreases |cs|
  {
    if cs == [] then es else AppliedAll(Apply(es, cs[0]), cs[1..])
  }

  function AppliedToMap(m: map<string, Known>, cs: seq<Change>): map<string, Known>
    decreases |cs|
  {
    if cs == [] then m else AppliedToMap(ApplyToMap(m, cs[0]), cs[1..])
  }

  lemma {:induction false} RunRefines(es: seq<Entry>, m: map<string, Known>, cs: seq<Change>)
    requires Refines(es, m) && forall i :: 0 <= i < |cs| ==> Proper(cs[i])
    ensures Refines(AppliedAll(es, cs), AppliedToMap(m, cs))
    decreases |cs|
  {
    hide Refines, Apply;
    if cs != [] {
      match cs[0] {
        case Add(name, k) => { AddRefines(es, m, name, k); }
        case Remove(name) => { ApplyRemove(es, name); RemoveRefines(es, m, name); }
      }
      RunRefines(Apply(es, cs[0]), ApplyToMap(m, cs[0]), cs[1..]);
    }
  }

  lemma ApplyRemove(es: seq<Entry>, name: string)
    ensures Apply(es, Remove(name)) == Removed(es, name)
  {
  }

  /** After any changes from an empty database, finding is looking up in the map. */
  lemma FindIsLookup(cs: seq<Change>, name: string)
    requires forall i :: 0 <= i < |cs| ==> Proper(cs[i])
    ensures var (es, m) := (AppliedAll([], cs), AppliedToMap(map[], cs));
      && NamesDiffer(es)
      && (FirstNamed(es, name).Some? <==> name in m)
      && (name in m ==> Records(es[FirstNamed(es, name).value], m[name]))
  {
    hide Records, AppliedAll, AppliedToMap, Proper;
    EmptyRefines();
    RunRefines([], map[], cs);
    var (es, m) := (AppliedAll([], cs), AppliedToMap(map[], cs));
    var k := FirstNamed(es, name);
    if k.Some? {
      assert RecordedIn(m, es[k.value]);
    }
  }

  lemma EmptyRefines()
    ensures Refines([], map[])
  {
  }

  /**
   After any changes from an empty database: bytes that differ from those stored under a
   name only within four consecutive bytes verify exactly when they are the same bytes, at
   the same address, and not at the null address.
   */
  lemma VerifiedWithinWindow(cs: seq<Change>, name: string, address: nat, bytes: seq<Byte>, lo: nat, hi: nat)
    requires forall i :: 0 <= i < |cs| ==> Proper(cs[i])
    ensures var (es, m) := (AppliedAll([], cs), AppliedToMap(map[], cs));
      && (name !in m ==> !Verified(es, name, address, bytes))
      && (name in m && AgreeOutside(bytes, m[name].data, lo, hi) && hi - lo <= 4 ==>
            (Verified(es, name, address, bytes) <==> m[name].base == address && address != 0 && bytes == m[name].data))
  {
    hide AppliedAll, AppliedToMap, Proper, DigestOf;
    FindIsLookup(cs, name);
    var (es, m) := (AppliedAll([], cs), AppliedToMap(map[], cs));
    if name in m && AgreeOutside(bytes, m[name].data, lo, hi) && hi - lo <= 4 {
      WindowTold(m[name].algorithm, bytes, m[name].data, lo, hi);
    }
  }

  predicate AllStored(es: seq<Entry>) {
    forall i :: 0 <= i < |es| ==> |es[i].name| < MAX_NAME
  }

  /** A name is found after it was added exactly when it fits the stored field. */
  lemma FoundAfterAdd(es: seq<Entry>, name: string, base: nat, size: nat, hash: HashRecord, algorithm: Algorithm)
    requires AllStored(es)
    ensures var es' := Added(es, name, base, size, hash, algorithm);
      AllStored(es') && (FirstNamed(es', name).Some? <==> |name| < MAX_NAME)
  {
    hide FirstNamed;
    var es' := Added(es, name, base, size, hash, algorithm);
    FoundIffHas(es', name);
    match FirstNamed(es, name)
    case Some(k) => assert es'[k].name == name;
    case None =>
      assert es'[0].name == Stored(name, MAX_NAME);
      assert forall i :: 0 < i < |es'| ==> es'[i] == es[i - 1];
  }

  /** Adding an overlong name twice leaves two entries of one name. */
  lemma LongNamesRepeat(es: seq<Entry>, name: string, base: nat, size: nat, hash: HashRecord, algorithm: Algorithm)
    requires AllStored(es) && |name| >= MAX_NAME
    ensures var once := Added(es, name, base, size, hash, algorithm);
      !NamesDiffer(Added(once, name, base, size, hash, algorithm))
  {
    var once := Added(es, name, base, size, hash, algorithm);
    FoundAfterAdd(es, name, base, size, hash, algorithm);
    var twice := Added(once, name, base, size, hash, algorithm);
    assert twice[0].name == twice[1].name;
  }

  // ---------------------------------------------------------------------------
  // The code
  // ---------------------------------------------------------------------------

  class HashDatabase {
    const unit: Crc32.CrcUnit
    var first: Node?<Entry>
    ghost var spine: seq<Node<Entry>>

    ghost predicate Valid()
      reads this, spine, unit, unit.table
    {
      unit.Valid() && Chain(first, spine)
    }

    ghost function Entries(): seq<Entry>
      reads this, spine
    {
      Values(spine)
    }

    constructor (unit: Crc32.CrcUnit)
      requires unit.Valid()
      ensures Valid() && this.unit == unit && spine == [] && Entries() == []
    {
      this.unit := unit;
      first, spine := null, [];
    }

    /** Hashing leaves the list alone. */
    method HashData(algorithm: Algorithm, data: seq<Byte>) returns (status: Status, hash: HashRecord)
      requires Valid()
      modifies unit, unit.table
      ensures Valid() && Entries() == old(Entries())
      ensures (status, hash) == Computed(algorithm, data, HashRecord(CRC32, Unset))
    {
      hide Computed, Chain, Values, Crc32.CrcUnit.Valid;
      status, hash := Compute(unit, algorithm, data, HashRecord(CRC32, Unset));
    }

    /** `ps14_hash_db_find_entry`. */
    method Find(name: Option<string>) returns (entry: Node?<Entry>)
      requires Valid()
      ensures name.None? ==> entry == null
      ensures name.Some? ==>
                match FirstNamed(Entries(), name.value)
                case None => entry == null
                case Some(k) => k < |spine| && entry == spine[k]
    {
      hide Chain, Values;
      if name.None? {
        return null;
      }
      entry := FindNode(first, Named(name.value), spine);
    }

    /** `ps14_hash_db_add_entry`; `size` is the length of the data unless that is null. */
    method Add(name: Option<string>, address: nat, size: nat, data: Option<seq<Byte>>, algorithm: Algorithm,
        gotMemory: bool) returns (status: AddStatus)
      requires Valid() && (data.Some? ==> |data.value| == size)
      modifies this, spine, unit, unit.table
      ensures Valid()
      ensures status.InvalidArgument? <==> name.None? || size == 0
      ensures status.Unknown? <==> name.Some? && size != 0 && (data.None? || !Supported(algorithm))
      ensures status.OutOfMemory? <==>
                (name.Some? && size != 0 && data.Some? && Supported(algorithm)
                 && !gotMemory && FirstNamed(old(Entries()), name.value).None?)
      ensures status.Success? ==> data.Some? && Supported(algorithm)
      ensures status.Success? ==>
                Entries() == Added(old(Entries()), name.value, address, size, HashOf(algorithm, data.value), algorithm)
      ensures !status.Success? ==> Entries() == old(Entries())
    {
      hide Chain, Values, DigestOf, Crc32.CrcUnit.Valid;
      if name.None? || size == 0 {
        return AddStatus.InvalidArgument;
      }
      if data.None? {
        return Unknown;
      }
      var computed, hash := HashData(algorithm, data.value);
      if !computed.Success? {
        return Unknown;
      }
      var stored := Store(name.value, address, size, hash, algorithm, gotMemory);
      status := if stored then AddStatus.Success else OutOfMemory;
    }

    /** The update or insertion of an add. */
    method Store(name: string, address: nat, size: nat, hash: HashRecord, algorithm: Algorithm, gotMemory: bool)
        returns (stored: bool)
      requires Valid()
      modifies this, spine
      ensures Valid()
      ensures !stored <==> !gotMemory && FirstNamed(old(Entries()), name).None?
      ensures !stored ==> Entries() == old(Entries())
      ensures stored ==> Entries() == Added(old(Entries()), name, address, size, hash, algorithm)
    {
      hide Chain, Values, Crc32.CrcUnit.Valid;
      ghost var was := Entries();
      var entry := Find(Some(name));
      ghost var k := FirstNamed(Entries(), name);
      if entry != null {
        ChainDistinct(first, spine);
        entry.value := Entry(entry.value.name, address, size, hash, algorithm);
        assert Entries() == was[k.value := entry.value];
        return true;
      }
      if !gotMemory {
        return false;
      }
      entry := new Node(Entry(Stored(name, MAX_NAME), address, size, hash, algorithm), first);
      Pushed(first, spine, entry);
      first := entry;
      spine := [entry] + spine;
      return true;
    }

    /** `ps14_hash_db_remove_entry`. */
    method Remove(name: Option<string>)
      requires Valid()
      modifies this, Nodes(spine)
      ensures Valid()
      ensures Entries() == if name.None? then old(Entries()) else Removed(old(Entries()), name.value)
    {
      hide Chain, Values, Crc32.CrcUnit.Valid, FirstNamed, Gone, Without;
      if name.None? {
        return;
      }
      ghost var k := FirstNamed(Entries(), name.value);
      var entry := Find(name);
      if entry != null {
        GoneIs(Entries(), k.value);
        first := Unlink(first, entry, spine, k.value);
        spine := Gone(spine, k.value);
      }
    }

    /** `ps14_hash_db_verify_region` of readable bytes at an address. */
    method Verify(name: Option<string>, address: nat, bytes: seq<Byte>) returns (verified: bool)
      requires Valid()
      modifies unit, unit.table
      ensures Valid() && Entries() == old(Entries())
      ensures verified == (name.Some? && Verified(Entries(), name.value, address, bytes))
    {
      hide Chain, Values, Computed, Compare, Crc32.CrcUnit.Valid;
      if name.None? {
        return false;
      }
      var entry := Find(name);
      if entry == null || entry.value.base != address || entry.value.size != |bytes| || address == 0 {
        return false;
      }
      var status, current := HashData(entry.value.algorithm, bytes);
      verified := status.Success? && Compare(current, entry.value.hash);
    }
  }
}
