/**
 The protected-region registry of src/kernel/memory_guard.c over an abstract page map. The
 system calls that query and set page protection are reads and updates of that map; whether
 they and the allocation work is a parameter.
 */
module MemoryGuard {
  import opened Lists
  import opened CStrings
  import opened Search

  type Protection = bv16

  const PAGE_NOACCESS: Protection := 0x01
  const PAGE_READONLY: Protection := 0x02
  const PAGE_READWRITE: Protection := 0x04
  const PAGE_EXECUTE: Protection := 0x10
  const PAGE_EXECUTE_READ: Protection := 0x20
  const PAGE_EXECUTE_READWRITE: Protection := 0x40
  const PAGE_GUARD: Protection := 0x100

  /** The five low bits of the requested flags. */
  datatype Flags = Flags(read: bool, write: bool, execute: bool, guard: bool, noAccess: bool)

  /** `ps14_convert_flags`. */
  function Convert(f: Flags): Protection {
    if f.noAccess then PAGE_NOACCESS
    else
      var p: Protection := if f.read then 0 | PAGE_READONLY else 0;
      var p := if f.write then (p & !PAGE_READONLY) | PAGE_READWRITE else p;
      var p :=
        if !f.execute then p
        else if p & PAGE_READWRITE != 0 then PAGE_EXECUTE_READWRITE
        else if p & PAGE_READONLY != 0 then PAGE_EXECUTE_READ
        else PAGE_EXECUTE;
      var p := if f.guard then p | PAGE_GUARD else p;
      if p != 0 then p else PAGE_READONLY | PAGE_GUARD
  }

  /** A base protection, with a guard on any but no access at all. */
  predicate IsProtection(p: Protection) {
    var b := p & !PAGE_GUARD;
    && (b == PAGE_NOACCESS || b == PAGE_READONLY || b == PAGE_READWRITE || b == PAGE_EXECUTE
        || b == PAGE_EXECUTE_READ || b == PAGE_EXECUTE_READWRITE)
    && p != PAGE_NOACCESS | PAGE_GUARD
  }

  /** Exactly the guard flag alone converts to something that is no protection. */
  lemma ConvertsUnlessGuardAlone(f: Flags)
    ensures IsProtection(Convert(f)) <==> f != Flags(false, false, false, true, false)
  {
  }

  /** A page of some process. */
  datatype Page = Page(process: nat, number: nat)

  /** `count` pages of a process from page `first` on, which is the region's address. */
  datatype Region = Region(process: nat, first: nat, count: nat, flags: Flags)

  datatype Entry = Entry(region: Region, original: Protection)

  datatype State = State(pages: map<Page, Protection>, entries: seq<Entry>)

  predicate Covers(r: Region, page: Page) {
    page.process == r.process && r.first <= page.number < r.first + r.count
  }

  /** A region has pages, and all of them exist. */
  ghost predicate Mapped(pages: map<Page, Protection>, r: Region) {
    r.count > 0 && forall page :: Covers(r, page) ==> page in pages
  }

  function FirstPage(r: Region): Page {
    Page(r.process, r.first)
  }

  /** Setting the protection of all pages of a region. */
  function Set(pages: map<Page, Protection>, r: Region, p: Protection): map<Page, Protection> {
    map page | page in pages :: if Covers(r, page) then p else pages[page]
  }

  /** Whether the calls work, and if there is no memory for the entry, whether the first one is taken back. */
  datatype Trouble = Fine | QueryFails | ProtectFails | NoMemory(rolledBack: bool)

  /** The state after a protect: the protection on record is that of the first page. */
  function Protected(st: State, r: Region, trouble: Trouble): State
    requires FirstPage(r) in st.pages
  {
    match trouble
    case QueryFails => st
    case ProtectFails => st
    case NoMemory(rolledBack) =>
      var changed := Set(st.pages, r, Convert(r.flags));
      st.(pages := if rolledBack then Set(changed, r, st.pages[FirstPage(r)]) else changed)
    case Fine => State(Set(st.pages, r, Convert(r.flags)), st.entries + [Entry(r, st.pages[FirstPage(r)])])
  }

  function Beginning(address: nat): Entry -> bool {
    (e: Entry) => e.region.first == address
  }

  /** The first entry whose region begins at an address, in whatever process. */
  function EntryAt(es: seq<Entry>, address: nat): (k: Option<nat>)
    ensures k.Some? ==> k.value < |es| && es[k.value].region.first == address
    ensures forall j :: 0 <= j < (if k.Some? then k.value else |es|) ==> es[j].region.first != address
  {
    First(es, Beginning(address))
  }

  /** The entry goes, whether the call works or not. */
  function Unprotected(st: State, address: nat, works: bool): State {
    match EntryAt(st.entries, address)
    case None => st
    case Some(k) =>
      var e := st.entries[k];
      State(if works then Set(st.pages, e.region, e.original) else st.pages, Without(st.entries, k))
  }

  /** The pages after restoring entries in the order of their registration. */
  function Restored(pages: map<Page, Protection>, es: seq<Entry>): map<Page, Protection>
    decreases |es|
  {
    if es == [] then pages else Restored(Set(pages, es[0].region, es[0].original), es[1..])
  }

  /** The entries whose restoring call works. */
  function Working(es: seq<Entry>, works: seq<bool>): seq<Entry>
    requires |works| == |es|
    decreases |es|
  {
    if es == [] then [] else (if works[0] then [es[0]] else []) + Working(es[1..], works[1..])
  }

  /** The regions a scan reports, at most `room` of them; an entry whose query is not answered is passed over. */
  function Reported(pages: map<Page, Protection>, es: seq<Entry>, answered: seq<bool>, room: nat): seq<Region>
    requires |answered| == |es| && forall i :: 0 <= i < |es| ==> FirstPage(es[i].region) in pages
    decreases |es|
  {
    if es == [] || room == 0 then []
    else if answered[0] && pages[FirstPage(es[0].region)] != Convert(es[0].region.flags) then
      [es[0].region] + Reported(pages, es[1..], answered[1..], room - 1)
    else Reported(pages, es[1..], answered[1..], room)
  }

  // ---------------------------------------------------------------------------
  // What shutting down leaves
  // ---------------------------------------------------------------------------

  /** The last entry that covers a page. */
  function LastCovering(es: seq<Entry>, page: Page): (k: Option<nat>)
    ensures k.Some? ==> k.value < |es| && Covers(es[k.value].region, page)
    ensures forall j :: (if k.Some? then k.value + 1 else 0) <= j < |es| ==> !Covers(es[j].region, page)
    decreases |es|
  {
    if es == [] then None
    else if Covers(es[|es| - 1].region, page) then Some(|es| - 1)
    else LastCovering(es[..|es| - 1], page)
  }

  lemma {:induction false} RestoredKeys(pages: map<Page, Protection>, es: seq<Entry>)
    ensures Restored(pages, es).Keys == pages.Keys
    decreases |es|
  {
    if es != [] {
      var pages1 := Set(pages, es[0].region, es[0].original);
      assert pages1.Keys == pages.Keys;
      RestoredKeys(pages1, es[1..]);
    }
  }

  /** Shutting down leaves a page as the last registered entry that covers it recorded it. */
  lemma {:induction false} ShutdownLeaves(pages: map<Page, Protection>, es: seq<Entry>, page: Page)
    requires page in pages
    ensures page in Restored(pages, es)
    ensures Restored(pages, es)[page]
         == match LastCovering(es, page) case None => pages[page] case Some(k) => es[k].original
    decreases |es|
  {
    if es != [] {
      var pages1 := Set(pages, es[0].region, es[0].original);
      ShutdownLeaves(pages1, es[1..], page);
      var (k, l) := (LastCovering(es, page), LastCovering(es[1..], page));
      if l.Some? {
        assert Covers(es[l.value + 1].region, page);
        assert k.Some?;
        assert k.value == l.value + 1;
      } else {
        assert forall j :: 0 <= j < |es| - 1 ==> !Covers(es[1..][j].region, page);
      }
    }
  }

  /** The last entry that covers a page and whose restoring call works. */
  ghost predicate LastWorking(es: seq<Entry>, works: seq<bool>, page: Page, k: nat)
    requires |works| == |es|
  {
    && k < |es| && works[k] && Covers(es[k].region, page)
    && forall j :: k < j < |es| && works[j] ==> !Covers(es[j].region, page)
  }

  /**
   Shutting down, whichever calls work: a page gets what the last of the working entries
   that cover it recorded, or keeps what it has.
   */
  lemma {:induction false} ShutdownLeavesWorking(pages: map<Page, Protection>, es: seq<Entry>, works: seq<bool>,
      page: Page)
    requires page in pages && |works| == |es|
    ensures var end := Restored(pages, Working(es, works));
      && page in end
      && (forall k: nat :: LastWorking(es, works, page, k) ==> end[page] == es[k].original)
      && ((forall k :: 0 <= k < |es| && works[k] ==> !Covers(es[k].region, page)) ==> end[page] == pages[page])
    decreases |es|
  {
    if es != [] {
      var rest := Working(es[1..], works[1..]);
      var pages1 := if works[0] then Set(pages, es[0].region, es[0].original) else pages;
      assert works[0] ==> ([es[0]] + rest)[1..] == rest;
      assert [] + rest == rest;
      assert Restored(pages, Working(es, works)) == Restored(pages1, rest);
      ShutdownLeavesWorking(pages1, es[1..], works[1..], page);
      forall k: nat | LastWorking(es, works, page, k)
        ensures Restored(pages1, rest)[page] == es[k].original
      {
        if k > 0 {
          assert LastWorking(es[1..], works[1..], page, k - 1);
        } else {
          assert forall m :: 0 <= m < |es| - 1 && works[1..][m] ==> !Covers(es[1..][m].region, page);
        }
      }
    }
  }

  /** A shutdown in which all calls work would leave every page as at the start. */
  predicate Restorable(base: map<Page, Protection>, st: State) {
    Restored(st.pages, st.entries) == base
  }

  /** All pages of a region have one protection at the start. */
  ghost predicate Had(base: map<Page, Protection>, r: Region, p: Protection) {
    forall page :: Covers(r, page) ==> page in base && base[page] == p
  }

  /** What a shutdown gives a page. */
  function GivenBack(st: State, page: Page): Protection
    requires page in st.pages
  {
    match LastCovering(st.entries, page)
    case None => st.pages[page]
    case Some(k) => st.entries[k].original
  }

  lemma RestorablePages(base: map<Page, Protection>, st: State)
    requires st.pages.Keys == base.Keys
    ensures Restorable(base, st) <==> forall page :: page in base ==> GivenBack(st, page) == base[page]
  {
    hide Restored, LastCovering;
    RestoredKeys(st.pages, st.entries);
    var restored := Restored(st.pages, st.entries);
    forall page | page in base ensures page in restored && restored[page] == GivenBack(st, page) {
      ShutdownLeaves(st.pages, st.entries, page);
    }
  }

  lemma LastCoveringPush(es: seq<Entry>, e: Entry, page: Page)
    ensures LastCovering(es + [e], page) == if Covers(e.region, page) then Some(|es|) else LastCovering(es, page)
  {
    assert (es + [e])[..|es|] == es;
  }

  /**
   Protecting a region, overlapping or not, protected already or not, keeps a shutdown
   restoring every page if and only if all its pages had at the start the protection that
   its first page has now.
   */
  lemma ProtectRestorable(base: map<Page, Protection>, st: State, r: Region)
    requires st.pages.Keys == base.Keys && Mapped(base, r) && Restorable(base, st)
    ensures FirstPage(r) in st.pages
    ensures Restorable(base, Protected(st, r, Fine)) <==> Had(base, r, st.pages[FirstPage(r)])
  {
    hide Restorable, Convert;
    assert Covers(r, FirstPage(r));
    var st' := Protected(st, r, Fine);
    RestorablePages(base, st);
    RestorablePages(base, st');
    forall page ensures LastCovering(st'.entries, page)
        == if Covers(r, page) then Some(|st.entries|) else LastCovering(st.entries, page) {
      LastCoveringPush(st.entries, Entry(r, st.pages[FirstPage(r)]), page);
    }
  }

  /**
   A protect that runs out of memory leaves its region with the first page's protection, or
   with the one asked for if that cannot be taken back, which matters exactly for pages no
   entry covers.
   */
  lemma FailedProtectRestorable(base: map<Page, Protection>, st: State, r: Region, rolledBack: bool)
    requires st.pages.Keys == base.Keys && Mapped(base, r) && Restorable(base, st)
    ensures FirstPage(r) in st.pages
    ensures Restorable(base, Protected(st, r, NoMemory(rolledBack))) <==>
      forall page :: Covers(r, page) && page in base && LastCovering(st.entries, page).None? ==>
        base[page] == if rolledBack then st.pages[FirstPage(r)] else Convert(r.flags)
  {
    hide Restorable, Convert, LastCovering;
    assert Covers(r, FirstPage(r));
    RestorablePages(base, st);
    RestorablePages(base, Protected(st, r, NoMemory(rolledBack)));
  }

  lemma LastCoveringWithout(es: seq<Entry>, k: nat, page: Page)
    requires k < |es|
    ensures match LastCovering(es, page)
            case None => LastCovering(Without(es, k), page) == None
            case Some(l) => l != k ==> LastCovering(Without(es, k), page) == Some(if l < k then l else l - 1)
  {
    hide LastCovering;
    var rest := Without(es, k);
    var (was, now) := (LastCovering(es, page), LastCovering(rest, page));
    var l := match was case None => -1 case Some(i) => if i < k then i else i - 1;
    forall m | l < m < |rest| ensures was != Some(k) ==> !Covers(rest[m].region, page) {
      assert rest[m] == es[if m < k then m else m + 1];
    }
    if was.Some? && was.value != k {
      assert rest[l] == es[was.value];
    }
  }

  /**
   Unprotecting keeps a shutdown restoring every page if and only if every page that the
   removed entry was the last to cover is then given back its protection at the start: by
   the entry now the last to cover it, or else by the call, if that works.
   */
  lemma UnprotectRestorable(base: map<Page, Protection>, st: State, address: nat, k: nat, works: bool)
    requires st.pages.Keys == base.Keys && Restorable(base, st) && EntryAt(st.entries, address) == Some(k)
    ensures Restorable(base, Unprotected(st, address, works)) <==>
      forall page :: page in base && LastCovering(st.entries, page) == Some(k) ==>
        match LastCovering(Without(st.entries, k), page)
        case None => works || st.pages[page] == base[page]
        case Some(l) => Without(st.entries, k)[l].original == base[page]
  {
    hide Restorable, LastCovering, EntryAt, GivenBack, Unprotected;
    var st' := Unprotected(st, address, works);
    RestorablePages(base, st);
    forall page | page in base
      ensures page in st'.pages
      ensures GivenBack(st', page) == if LastCovering(st.entries, page) != Some(k) then base[page]
        else match LastCovering(Without(st.entries, k), page)
             case None => if works then base[page] else st.pages[page]
             case Some(l) => Without(st.entries, k)[l].original
    {
      assert GivenBack(st, page) == base[page];
      UnprotectGives(st, address, k, works, page);
    }
    UnprotectKeys(st, address, works);
    RestorablePages(base, st');
  }

  lemma UnprotectKeys(st: State, address: nat, works: bool)
    ensures Unprotected(st, address, works).pages.Keys == st.pages.Keys
  {
  }

  lemma UnprotectGives(st: State, address: nat, k: nat, works: bool, page: Page)
    requires EntryAt(st.entries, address) == Some(k) && page in st.pages
    ensures page in Unprotected(st, address, works).pages
    ensures LastCovering(st.entries, page) != Some(k) ==>
      GivenBack(Unprotected(st, address, works), page) == GivenBack(st, page)
    ensures LastCovering(st.entries, page) == Some(k) ==>
      GivenBack(Unprotected(st, address, works), page) ==
        match LastCovering(Without(st.entries, k), page)
        case None => if works then GivenBack(st, page) else st.pages[page]
        case Some(l) => Without(st.entries, k)[l].original
  {
    hide LastCovering, EntryAt;
    LastCoveringWithout(st.entries, k, page);
    CoveredIfLast(st.entries, page);
  }

  lemma CoveredIfLast(es: seq<Entry>, page: Page)
    ensures forall i :: 0 <= i < |es| && Covers(es[i].region, page) ==> LastCovering(es, page).Some?
  {
  }

  /**
   A second protect of the same pages keeps a shutdown restoring them exactly when the
   first one asked for the protection they had anyway.
   */
  lemma ProtectedTwiceRestores(base: map<Page, Protection>, st: State, r: Region, again: Region)
    requires st.pages.Keys == base.Keys && Mapped(base, r) && Restorable(base, st)
    requires FirstPage(r) in st.pages && Had(base, r, st.pages[FirstPage(r)])
    requires again == r.(flags := again.flags)
    ensures var st1 := Protected(st, r, Fine);
      && Restorable(base, st1) && FirstPage(again) in st1.pages
      && (Restorable(base, Protected(st1, again, Fine)) <==> st.pages[FirstPage(r)] == Convert(r.flags))
  {
    hide Restorable, Convert;
    assert Covers(r, FirstPage(r));
    ProtectRestorable(base, st, r);
    var st1 := Protected(st, r, Fine);
    assert st1.pages[FirstPage(again)] == Convert(r.flags);
    forall page ensures Covers(again, page) == Covers(r, page) {
    }
    ProtectRestorable(base, st1, again);
  }

  /** Protecting a region twice and shutting down leaves it with its first requested protection. */
  lemma ProtectedTwiceStays(pages: map<Page, Protection>, r: Region, again: Region, page: Page)
    requires Mapped(pages, r) && Covers(r, page)
    requires again == r.(flags := again.flags)
    ensures FirstPage(r) in pages && FirstPage(again) in Protected(State(pages, []), r, Fine).pages
    ensures var st := Protected(Protected(State(pages, []), r, Fine), again, Fine);
      page in pages && page in Restored(st.pages, st.entries)
      && Restored(st.pages, st.entries)[page] == Convert(r.flags)
  {
    hide Convert;
    assert Covers(r, FirstPage(r));
    var st := Protected(Protected(State(pages, []), r, Fine), again, Fine);
    ShutdownLeaves(st.pages, st.entries, page);
    assert Covers(st.entries[1].region, page);
  }

  // ---------------------------------------------------------------------------
  // Runs
  // ---------------------------------------------------------------------------

  datatype Op =
    | Protect(r: Region, trouble: Trouble)
    | Unprotect(address: nat)
    | Outside(page: Page, p: Protection)

  predicate Overlap(r: Region, s: Region) {
    r.process == s.process && r.first < s.first + s.count && s.first < r.first + r.count
  }

  /** Another region: no shared page, and another address in whatever process. */
  predicate Apart(r: Region, s: Region) {
    !Overlap(r, s) && r.first != s.first
  }

  ghost predicate Uniform(pages: map<Page, Protection>, r: Region, p: Protection) {
    forall page :: page in pages && Covers(r, page) ==> pages[page] == p
  }

  ghost predicate Covered(es: seq<Entry>, page: Page) {
    exists i :: 0 <= i < |es| && Covers(es[i].region, page)
  }

  /**
   Protected regions are mapped, uniform at the start and apart from the protected ones;
   others change protected pages only; calls that undo a change work.
   */
  ghost predicate Allowed(base: map<Page, Protection>, st: State, op: Op) {
    match op
    case Protect(r, trouble) =>
      && trouble != NoMemory(false) && st.pages.Keys == base.Keys
      && Mapped(base, r) && FirstPage(r) in base && Uniform(base, r, base[FirstPage(r)])
      && (forall i :: 0 <= i < |st.entries| ==> Apart(r, st.entries[i].region))
    case Unprotect(_) => true
    case Outside(page, _) => page in st.pages && Covered(st.entries, page)
  }

  function After(st: State, op: Op): State
    requires op.Protect? ==> FirstPage(op.r) in st.pages
    requires op.Outside? ==> op.page in st.pages
  {
    match op
    case Protect(r, trouble) => Protected(st, r, trouble)
    case Unprotect(address) => Unprotected(st, address, true)
    case Outside(page, p) => st.(pages := st.pages[page := p])
  }

  lemma AllowedMeans(base: map<Page, Protection>, st: State, op: Op)
    requires Allowed(base, st, op)
    ensures op.Protect? ==> FirstPage(op.r) in st.pages
    ensures op.Outside? ==> op.page in st.pages
  {
  }

  ghost predicate Runnable(base: map<Page, Protection>, st: State, ops: seq<Op>)
    decreases |ops|
  {
    ops == [] || (Allowed(base, st, ops[0]) && Runnable(base, After(st, ops[0]), ops[1..]))
  }

  ghost function Run(base: map<Page, Protection>, st: State, ops: seq<Op>): State
    requires Runnable(base, st, ops)
    decreases |ops|
  {
    if ops == [] then st else Run(base, After(st, ops[0]), ops[1..])
  }

  /** The entries are apart, and recorded the protection all their pages had at the start. */
  ghost predicate Recorded(base: map<Page, Protection>, es: seq<Entry>) {
    && (forall i, j :: 0 <= i < j < |es| ==> Apart(es[i].region, es[j].region))
    && (forall i :: 0 <= i < |es| ==> EntryRecorded(base, es[i]))
  }

  ghost predicate EntryRecorded(base: map<Page, Protection>, e: Entry) {
    Mapped(base, e.region) && Uniform(base, e.region, e.original)
  }

  /** What is not protected is as it was at the start. */
  ghost predicate Untouched(base: map<Page, Protection>, st: State) {
    && st.pages.Keys == base.Keys
    && forall page :: page in base && !Covered(st.entries, page) ==> st.pages[page] == base[page]
  }

  /** Every protected page has the protection asked for. */
  ghost predicate InForce(st: State) {
    forall i :: 0 <= i < |st.entries| ==> Uniform(st.pages, st.entries[i].region, Convert(st.entries[i].region.flags))
  }

  lemma NotCoveredFirst(base: map<Page, Protection>, st: State, r: Region)
    requires Mapped(base, r) && forall i :: 0 <= i < |st.entries| ==> Apart(r, st.entries[i].region)
    ensures Covers(r, FirstPage(r)) && FirstPage(r) in base
    ensures forall page :: Covers(r, page) ==> !Covered(st.entries, page)
  {
    assert Covers(r, FirstPage(r));
    forall page | Covers(r, page) ensures !Covered(st.entries, page) {
      forall i | 0 <= i < |st.entries| ensures !Covers(st.entries[i].region, page) {
        assert Apart(r, st.entries[i].region);
      }
    }
  }

  lemma ProtectKeeps(base: map<Page, Protection>, st: State, r: Region, trouble: Trouble)
    requires Recorded(base, st.entries) && Untouched(base, st) && Allowed(base, st, Protect(r, trouble))
    ensures var st' := After(st, Protect(r, trouble)); Recorded(base, st'.entries) && Untouched(base, st')
    ensures InForce(st) ==> InForce(After(st, Protect(r, trouble)))
  {
    hide Convert, Mapped, Covered;
    NotCoveredFirst(base, st, r);
    var st' := Protected(st, r, trouble);
    if trouble.Fine? {
      CoveredPush(st.entries, Entry(r, st.pages[FirstPage(r)]));
    }
    forall i | 0 <= i < |st.entries| && InForce(st)
      ensures Uniform(st'.pages, st.entries[i].region, Convert(st.entries[i].region.flags))
    {
      forall page | page in st.pages && Covers(st.entries[i].region, page) ensures !Covers(r, page) {
        CoveredBy(st.entries, i, page);
      }
    }
  }

  lemma CoveredBy(es: seq<Entry>, i: nat, page: Page)
    requires i < |es| && Covers(es[i].region, page)
    ensures Covered(es, page)
  {
  }

  lemma CoveredPush(es: seq<Entry>, e: Entry)
    ensures forall page :: Covered(es + [e], page) <==> Covered(es, page) || Covers(e.region, page)
  {
    forall page ensures Covered(es + [e], page) <==> Covered(es, page) || Covers(e.region, page) {
      if Covered(es, page) {
        var i :| 0 <= i < |es| && Covers(es[i].region, page);
        assert Covers((es + [e])[i].region, page);
      }
      if Covers(e.region, page) {
        assert Covers((es + [e])[|es|].region, page);
      }
    }
  }

  lemma CoveredWithout(es: seq<Entry>, k: nat)
    requires k < |es|
    ensures forall page :: Covered(es, page) ==> Covered(Without(es, k), page) || Covers(es[k].region, page)
  {
    forall page | Covered(es, page) ensures Covered(Without(es, k), page) || Covers(es[k].region, page) {
      var i :| 0 <= i < |es| && Covers(es[i].region, page);
      if i != k {
        assert Covers(Without(es, k)[if i < k then i else i - 1].region, page);
      }
    }
  }

  lemma UnprotectKeeps(base: map<Page, Protection>, st: State, address: nat)
    requires Recorded(base, st.entries) && Untouched(base, st)
    ensures var st' := Unprotected(st, address, true); Recorded(base, st'.entries) && Untouched(base, st')
    ensures InForce(st) ==> InForce(Unprotected(st, address, true))
  {
    hide Convert, Covered, EntryAt;
    var st' := Unprotected(st, address, true);
    match EntryAt(st.entries, address)
    case None =>
    case Some(k) =>
      CoveredWithout(st.entries, k);
      assert EntryRecorded(base, st.entries[k]);
      forall i | 0 <= i < |st'.entries| && InForce(st)
        ensures Uniform(st'.pages, st'.entries[i].region, Convert(st'.entries[i].region.flags))
      {
        var was := if i < k then i else i + 1;
        assert st'.entries[i] == st.entries[was];
        assert Uniform(st.pages, st.entries[was].region, Convert(st.entries[was].region.flags));
        if was < k {
          assert Apart(st.entries[was].region, st.entries[k].region);
        } else {
          assert Apart(st.entries[k].region, st.entries[was].region);
        }
      }
  }

  /** Whatever is allowed keeps the records straight; without outside changes the protection stays in force. */
  lemma {:induction false} RunKeeps(base: map<Page, Protection>, st: State, ops: seq<Op>)
    requires Recorded(base, st.entries) && Untouched(base, st) && Runnable(base, st, ops)
    ensures var end := Run(base, st, ops); Recorded(base, end.entries) && Untouched(base, end)
    ensures InForce(st) && (forall i :: 0 <= i < |ops| ==> !ops[i].Outside?) ==> InForce(Run(base, st, ops))
    decreases |ops|
  {
    hide Recorded, Untouched, InForce, Allowed, Protected, Unprotected;
    if ops != [] {
      AllowedMeans(base, st, ops[0]);
      match ops[0] {
        case Protect(r, trouble) => { ProtectKeeps(base, st, r, trouble); }
        case Unprotect(address) => { UnprotectKeeps(base, st, address); }
        case Outside(page, p) => { OutsideKeeps(base, st, page, p); }
      }
      RunKeeps(base, After(st, ops[0]), ops[1..]);
    }
  }

  lemma OutsideKeeps(base: map<Page, Protection>, st: State, page: Page, p: Protection)
    requires Untouched(base, st) && Allowed(base, st, Outside(page, p))
    ensures Untouched(base, After(st, Outside(page, p)))
  {
    hide Covered;
  }

  /**
   Any interleaving of protects, unprotects and outside changes to protected pages,
   followed by a shutdown, leaves every page with the protection it had at the start.
   */
  lemma ShutdownRestores(base: map<Page, Protection>, ops: seq<Op>)
    requires Runnable(base, State(base, []), ops)
    ensures var end := Run(base, State(base, []), ops); Restored(end.pages, end.entries) == base
  {
    hide Runnable, Run, Restored, Covered;
    RunKeeps(base, State(base, []), ops);
    var end := Run(base, State(base, []), ops);
    forall page | page in base
      ensures page in Restored(end.pages, end.entries) && Restored(end.pages, end.entries)[page] == base[page]
    {
      ShutdownLeaves(end.pages, end.entries, page);
      var k := LastCovering(end.entries, page);
      if k.Some? {
        assert EntryRecorded(base, end.entries[k.value]);
      } else {
        UncoveredBy(end.entries, page);
      }
    }
    RestoredKeys(end.pages, end.entries);
    assert Restored(end.pages, end.entries).Keys == base.Keys;
  }

  lemma UncoveredBy(es: seq<Entry>, page: Page)
    requires LastCovering(es, page).None?
    ensures !Covered(es, page)
  {
  }

  /** While nobody else changes protected pages, a scan reports no region. */
  lemma ScanIsQuiet(base: map<Page, Protection>, ops: seq<Op>, answered: seq<bool>, room: nat)
    requires Runnable(base, State(base, []), ops) && forall i :: 0 <= i < |ops| ==> !ops[i].Outside?
    ensures var end := Run(base, State(base, []), ops);
      && (forall i :: 0 <= i < |end.entries| ==> FirstPage(end.entries[i].region) in end.pages)
      && (|answered| == |end.entries| ==> Reported(end.pages, end.entries, answered, room) == [])
  {
    hide Runnable, Run, Convert, Covered;
    RunKeeps(base, State(base, []), ops);
    var end := Run(base, State(base, []), ops);
    forall i | 0 <= i < |end.entries|
      ensures FirstPage(end.entries[i].region) in end.pages
      ensures end.pages[FirstPage(end.entries[i].region)] == Convert(end.entries[i].region.flags)
    {
      assert EntryRecorded(base, end.entries[i]);
      assert Covers(end.entries[i].region, FirstPage(end.entries[i].region));
    }
    if |answered| == |end.entries| {
      NoneReported(end.pages, end.entries, answered, room);
    }
  }

  lemma {:induction false} NoneReported(pages: map<Page, Protection>, es: seq<Entry>, answered: seq<bool>, room: nat)
    requires |answered| == |es| && forall i :: 0 <= i < |es| ==> FirstPage(es[i].region) in pages
    ensures Reported(pages, es, answered, room) == [] <==>
      room == 0 || forall i :: 0 <= i < |es| && answered[i] ==>
        pages[FirstPage(es[i].region)] == Convert(es[i].region.flags)
    decreases |es|
  {
    hide Convert;
    if es != [] && room > 0 && (answered[0] ==> pages[FirstPage(es[0].region)] == Convert(es[0].region.flags)) {
      NoneReported(pages, es[1..], answered[1..], room);
      assert es == [es[0]] + es[1..] && answered == [answered[0]] + answered[1..];
    }
  }

  lemma WorkingStep(pages: map<Page, Protection>, es: seq<Entry>, works: seq<bool>, i: nat)
    requires |works| == |es| && i < |es|
    ensures Restored(pages, Working(es[i..], works[i..]))
         == Restored(if works[i] then Set(pages, es[i].region, es[i].original) else pages,
              Working(es[i + 1..], works[i + 1..]))
  {
    assert es[i..][1..] == es[i + 1..] && works[i..][1..] == works[i + 1..];
    var rest := Working(es[i + 1..], works[i + 1..]);
    assert ([es[i]] + rest)[1..] == rest && [] + rest == rest;
  }

  lemma ReportedStep(pages: map<Page, Protection>, es: seq<Entry>, answered: seq<bool>, i: nat, room: nat)
    requires |answered| == |es| && i <= |es| && forall j :: 0 <= j < |es| ==> FirstPage(es[j].region) in pages
    ensures i == |es| || room == 0 ==> Reported(pages, es[i..], answered[i..], room) == []
    ensures i < |es| && room > 0 ==>
      Reported(pages, es[i..], answered[i..], room)
      == if answered[i] && pages[FirstPage(es[i].region)] != Convert(es[i].region.flags)
         then [es[i].region] + Reported(pages, es[i + 1..], answered[i + 1..], room - 1)
         else Reported(pages, es[i + 1..], answered[i + 1..], room)
  {
    hide Convert, FirstPage;
    if i < |es| {
      assert es[i..][1..] == es[i + 1..] && answered[i..][1..] == answered[i + 1..];
    }
  }

  // ---------------------------------------------------------------------------
  // The code
  // ---------------------------------------------------------------------------

  datatype Status = Success | InvalidParameter | AccessViolation | AccessDenied | OutOfMemory

  class Guard {
    var pages: map<Page, Protection>
    var entries: seq<Entry>
    var initialized: bool

    ghost predicate Valid()
      reads this
    {
      forall i :: 0 <= i < |entries| ==> FirstPage(entries[i].region) in pages
    }

    constructor (pages: map<Page, Protection>)
      ensures Valid() && !initialized && entries == [] && this.pages == pages
    {
      this.pages := pages;
      entries, initialized := [], false;
    }

    /** `ps14_memory_guard_init` of a registry with nothing in it. */
    method Init()
      requires entries == []
      modifies this`initialized
      ensures initialized
    {
      initialized := true;
    }

    /** The system call on a region. */
    method SetProtection(r: Region, p: Protection)
      modifies this`pages
      ensures pages == Set(old(pages), r, p)
    {
      pages := Set(pages, r, p);
    }

    /** `ps14_memory_guard_protect` of a region whose first page is there if its address is valid. */
    method ProtectRegion(input: Option<Region>, fullSize: bool, addressValid: bool, trouble: Trouble)
        returns (status: Status)
      requires Valid() && (input.Some? && addressValid ==> FirstPage(input.value) in pages)
      modifies this`pages, this`entries
      ensures Valid()
      ensures status == if !initialized || input.None? || !fullSize || !addressValid then InvalidParameter
                        else match trouble
                             case Fine => Success
                             case QueryFails => AccessViolation
                             case ProtectFails => AccessDenied
                             case NoMemory(_) => OutOfMemory
      ensures status.InvalidParameter? ==> (pages, entries) == old((pages, entries))
      ensures !status.InvalidParameter? ==>
                State(pages, entries) == Protected(old(State(pages, entries)), input.value, trouble)
    {
      hide Convert;
      if !initialized || input.None? || !fullSize || !addressValid {
        return InvalidParameter;
      }
      var r := input.value;
      if trouble.QueryFails? {
        return AccessViolation;
      }
      var original := pages[FirstPage(r)];
      if trouble.ProtectFails? {
        return AccessDenied;
      }
      SetProtection(r, Convert(r.flags));
      if trouble.NoMemory? {
        if trouble.rolledBack {
          SetProtection(r, original);
        }
        return OutOfMemory;
      }
      entries := entries + [Entry(r, original)];
      return Success;
    }

    /** `ps14_memory_guard_unprotect`: nothing tells whether an entry was found, or whether the call works. */
    method UnprotectRegion(input: Option<Region>, fullSize: bool, works: bool) returns (status: Status)
      requires Valid()
      modifies this`pages, this`entries
      ensures Valid()
      ensures status.InvalidParameter? <==> !initialized || input.None? || !fullSize
      ensures status.InvalidParameter? ==> (pages, entries) == old((pages, entries))
      ensures !status.InvalidParameter? ==>
                State(pages, entries) == Unprotected(old(State(pages, entries)), input.value.first, works)
    {
      if !initialized || input.None? || !fullSize {
        return InvalidParameter;
      }
      var i := 0;
      while i < |entries|
        invariant i <= |entries| && pages == old(pages) && entries == old(entries)
        invariant forall j :: 0 <= j < i ==> entries[j].region.first != input.value.first
      {
        if entries[i].region.first == input.value.first {
          if works {
            SetProtection(entries[i].region, entries[i].original);
          }
          entries := Without(entries, i);
          return Success;
        }
        i := i + 1;
      }
      return Success;
    }

    /** `ps14_memory_guard_shutdown`, which frees the entries; `works` tells which calls work. */
    method Shutdown(works: seq<bool>)
      requires Valid() && |works| == |entries|
      modifies this
      ensures Valid() && !initialized && entries == []
      ensures pages == Restored(old(pages), Working(old(entries), works))
    {
      var i := 0;
      while i < |entries|
        invariant i <= |entries| && entries == old(entries)
        invariant Restored(old(pages), Working(old(entries), works))
               == Restored(pages, Working(entries[i..], works[i..]))
      {
        WorkingStep(pages, entries, works, i);
        if works[i] {
          SetProtection(entries[i].region, entries[i].original);
        }
        i := i + 1;
      }
      entries, initialized := [], false;
    }

    /** `ps14_memory_guard_scan` into a buffer of `oc` regions; `answered` tells which queries succeed. */
    method Scan(hasOut: bool, oc: nat, answered: seq<bool>) returns (status: Status, out: seq<Region>)
      requires Valid() && |answered| == |entries|
      ensures status == if !initialized || !hasOut || oc == 0 then InvalidParameter else Success
      ensures out == if status.InvalidParameter? then [] else Reported(pages, entries, answered, oc)
    {
      hide Convert, FirstPage, Reported;
      out := [];
      if !initialized || !hasOut || oc == 0 {
        return InvalidParameter, [];
      }
      var i := 0;
      assert entries[0..] == entries && answered[0..] == answered;
      while i < |entries| && |out| < oc
        invariant i <= |entries| && |out| <= oc
        invariant Reported(pages, entries, answered, oc)
               == out + Reported(pages, entries[i..], answered[i..], oc - |out|)
      {
        ReportedStep(pages, entries, answered, i, oc - |out|);
        if answered[i] && pages[FirstPage(entries[i].region)] != Convert(entries[i].region.flags) {
          out := out + [entries[i].region];
        }
        i := i + 1;
      }
      ReportedStep(pages, entries, answered, i, oc - |out|);
      status := Success;
    }
  }
}
