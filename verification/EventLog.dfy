/**
 The event log of src/kernel/process_watcher.c. Notifications are filtered, appended to a
 fixed buffer while it has room, and drained in batches; every drain empties the log.
 */
module EventLog {
  import opened CStrings
  import opened Counters

  const MAX_EVENTS := 1024
  const MAX_PATH := 260

  datatype Kind = Create | Terminate | ThreadCreate | ThreadTerminate | DllLoad | DllUnload

  /** The name holds the low byte of each 16-bit character. */
  datatype Event = Event(kind: Kind, process: nat, thread: nat, name: seq<nat>)

  /** What the system reports; an absent name is `None`, and so is absent image information. */
  datatype Notification =
    | ProcessCreated(pid: nat, name: Option<seq<nat>>)
    | ProcessTerminated(pid: nat)
    | Thread(pid: nat, tid: nat, created: bool)
    | Image(name: Option<seq<nat>>, pid: nat, systemMode: Option<bool>)

  function Narrow(name: Option<seq<nat>>): (r: seq<nat>)
    ensures |r| < MAX_PATH
  {
    match name
    case None => []
    case Some(wide) =>
      var length := if |wide| < MAX_PATH - 1 then |wide| else MAX_PATH - 1;
      seq(length, i requires 0 <= i < length => wide[i] % 256)
  }

  /** The event for a notification; an image without information gives none. */
  function EventOf(n: Notification): Option<Event> {
    match n
    case ProcessCreated(pid, name) => Some(Event(Create, pid % TWO_32, 0, Narrow(name)))
    case ProcessTerminated(pid) => Some(Event(Terminate, pid % TWO_32, 0, []))
    case Thread(pid, tid, created) =>
      Some(Event(if created then ThreadCreate else ThreadTerminate, pid % TWO_32, tid % TWO_32, []))
    case Image(name, pid, systemMode) =>
      if systemMode.None? then None
      else Some(Event(if systemMode.value then DllUnload else DllLoad, pid % TWO_32, 0, Narrow(name)))
  }

  /** The log after a notification. */
  function Logged<T>(log: seq<T>, enabled: bool, event: Option<T>): seq<T> {
    if enabled && event.Some? && |log| < MAX_EVENTS then log + [event.value] else log
  }

  /** How many events a drain of `oc` delivers. */
  function Batch(logged: nat, oc: nat): nat {
    if oc < logged then oc else logged
  }

  // ---------------------------------------------------------------------------
  // Whole runs
  // ---------------------------------------------------------------------------

  datatype Op =
    | Notify(n: Notification)
    | Drain(hasOut: bool, oc: nat)
    | Monitor(size: nat, pid: nat)
    | Stop
    | Shutdown
    | Start

  /** An event with the number of the notification it came from. */
  datatype Stamped = Stamped(id: nat, event: Event)

  /**
   The log and its switch, and the history: what came, how much of it before the log was last
   emptied, what was accepted since then, and what became of everything.
   */
  datatype World = World(log: seq<Stamped>, enabled: bool, notified: seq<Notification>, since: nat,
    accepted: seq<Stamped>, delivered: seq<Stamped>, ignored: set<nat>, dropped: set<nat>, discarded: set<nat>)

  function Ids(s: seq<Stamped>): set<nat> {
    set k | 0 <= k < |s| :: s[k].id
  }

  function Notified(w: World, n: Notification): World {
    var id := |w.notified|;
    var w1 := w.(notified := w.notified + [n]);
    match EventOf(n)
    case None => w1.(ignored := w.ignored + {id})
    case Some(event) =>
      var s := Stamped(id, event);
      if !w.enabled then w1.(ignored := w.ignored + {id})
      else
        var w2 := w1.(accepted := w.accepted + [s], log := Logged(w.log, w.enabled, Some(s)));
        if |w.log| < MAX_EVENTS then w2 else w2.(dropped := w.dropped + {id})
  }

  /** Emptying the log after delivering the first `c` events. */
  function Reset(w: World, c: nat): World
    requires c <= |w.log|
  {
    w.(log := [], since := |w.notified|, accepted := [],
       delivered := w.delivered + w.log[..c], discarded := w.discarded + Ids(w.log[c..]))
  }

  function After(w: World, op: Op): World {
    match op
    case Notify(n) => Notified(w, n)
    case Drain(hasOut, oc) => if !hasOut || oc == 0 then w else Reset(w, Batch(|w.log|, oc))
    case Monitor(size, pid) => if size < 4 then w else w.(enabled := pid != 0)
    case Stop => w.(enabled := false)
    case Shutdown => Reset(w, 0).(enabled := false)
    case Start => Reset(w, 0).(enabled := true)
  }

  function Run(w: World, ops: seq<Op>): World
    decreases |ops|
  {
    if ops == [] then w else Run(After(w, ops[0]), ops[1..])
  }

  const FRESH := World([], false, [], 0, [], [], {}, {}, {})

  /** Strictly in order of notification. */
  predicate InOrder(s: seq<Stamped>) {
    forall k, l :: 0 <= k < l < |s| ==> s[k].id < s[l].id
  }

  /** Each the event of the notification it is stamped with. */
  predicate Genuine(w: World, s: seq<Stamped>) {
    forall k :: 0 <= k < |s| ==> s[k].id < |w.notified| && EventOf(w.notified[s[k].id]) == Some(s[k].event)
  }

  /** In how many of the five places a notification is. */
  function Fates(w: World, id: nat): nat {
    (if id in w.ignored then 1 else 0) + (if id in w.dropped then 1 else 0) + (if id in w.discarded then 1 else 0)
    + (if id in Ids(w.delivered) then 1 else 0) + (if id in Ids(w.log) then 1 else 0)
  }

  ghost predicate Inv(w: World) {
    && InOrder(w.delivered + w.log) && Genuine(w, w.delivered + w.log)
    && (forall id: nat :: Fates(w, id) == if id < |w.notified| then 1 else 0)
    && w.log == w.accepted[..if |w.accepted| < MAX_EVENTS then |w.accepted| else MAX_EVENTS]
    && AcceptedSince(w)
  }

  /** The accepted events are those of all notifications since the last reset but the ignored ones, in order. */
  ghost predicate AcceptedSince(w: World) {
    && w.since <= |w.notified| && InOrder(w.accepted) && Genuine(w, w.accepted)
    && forall id: nat :: id in Ids(w.accepted) <==> w.since <= id < |w.notified| && id !in w.ignored
  }

  lemma AcceptedStep(w: World, n: Notification)
    requires AcceptedSince(w) && forall id: nat :: id in w.ignored ==> id < |w.notified|
    ensures AcceptedSince(Notified(w, n))
  {
    hide EventOf;
    if EventOf(n).Some? {
      var s := Stamped(|w.notified|, EventOf(n).value);
      IdsConcat(w.accepted, [s]);
      IdOfOne(s);
    }
  }

  lemma IgnoredCame(w: World)
    requires Inv(w)
    ensures forall id: nat :: id in w.ignored || id in w.dropped ==> id < |w.notified|
  {
    forall id: nat | id in w.ignored || id in w.dropped ensures id < |w.notified| {
      assert Fates(w, id) == if id < |w.notified| then 1 else 0;
    }
  }

  lemma IdsConcat(a: seq<Stamped>, b: seq<Stamped>)
    ensures Ids(a + b) == Ids(a) + Ids(b)
  {
    forall id | id in Ids(a) + Ids(b) ensures id in Ids(a + b) {
      if id in Ids(a) {
        var k :| 0 <= k < |a| && a[k].id == id;
        assert (a + b)[k].id == id;
      } else {
        var k :| 0 <= k < |b| && b[k].id == id;
        assert (a + b)[|a| + k].id == id;
      }
    }
  }

  lemma IdOfOne(s: Stamped)
    ensures Ids([s]) == {s.id} && Ids([]) == {}
  {
    assert [s][0].id == s.id;
  }

  lemma NotifiedKeeps(w: World, n: Notification)
    requires Inv(w)
    ensures Inv(Notified(w, n))
  {
    hide EventOf, AcceptedSince;
    IgnoredCame(w);
    AcceptedStep(w, n);
    var id := |w.notified|;
    var w' := Notified(w, n);
    assert Fates(w, id) == 0;
    if EventOf(n).Some? {
      IdsConcat(w.log, [Stamped(id, EventOf(n).value)]);
      IdOfOne(Stamped(id, EventOf(n).value));
      var s := Stamped(id, EventOf(n).value);
      assert w.delivered + (w.log + [s]) == (w.delivered + w.log) + [s];
    }
    forall i: nat ensures Fates(w', i) == if i < |w'.notified| then 1 else 0 {
      assert Fates(w, i) == if i < |w.notified| then 1 else 0;
    }
  }

  lemma AcceptedReset(w: World, c: nat)
    requires AcceptedSince(w) && c <= |w.log|
    ensures AcceptedSince(Reset(w, c))
  {
    hide EventOf;
    IdOfOne(Stamped(0, Event(Create, 0, 0, [])));
  }

  lemma ResetFates(w: World, c: nat, i: nat)
    requires InOrder(w.delivered + w.log) && c <= |w.log|
    ensures Fates(Reset(w, c), i) == Fates(w, i)
      || (i in w.discarded && i in Ids(w.log)) || (i in Ids(w.delivered) && i in Ids(w.log))
  {
    hide Ids;
    var (out, rest) := (w.log[..c], w.log[c..]);
    assert w.log == out + rest;
    IdsConcat(out, rest);
    IdsConcat(w.delivered, out);
    IdOfOne(Stamped(0, Event(Create, 0, 0, [])));
    Apart(w, c, i);
  }

  lemma ResetKeeps(w: World, c: nat)
    requires Inv(w) && c <= |w.log|
    ensures Inv(Reset(w, c))
  {
    hide EventOf, AcceptedSince, Ids;
    AcceptedReset(w, c);
    var w' := Reset(w, c);
    assert w'.delivered + w'.log == (w.delivered + w.log)[..|w.delivered| + c];
    forall i: nat ensures Fates(w', i) == if i < |w'.notified| then 1 else 0 {
      assert Fates(w, i) == if i < |w.notified| then 1 else 0;
      ResetFates(w, c, i);
    }
  }

  lemma Apart(w: World, c: nat, i: nat)
    requires InOrder(w.delivered + w.log) && c <= |w.log|
    ensures !(i in Ids(w.log[..c]) && i in Ids(w.log[c..]))
  {
    if i in Ids(w.log[..c]) {
      var k :| 0 <= k < c && w.log[k].id == i;
      forall l | c <= l < |w.log| ensures w.log[l].id != i {
        assert (w.delivered + w.log)[|w.delivered| + k].id < (w.delivered + w.log)[|w.delivered| + l].id;
      }
    }
  }

  lemma StepKeeps(w: World, op: Op)
    requires Inv(w)
    ensures Inv(After(w, op))
  {
    hide EventOf, InOrder, Genuine, Notified, Reset;
    match op
    case Notify(n) => NotifiedKeeps(w, n);
    case Drain(hasOut, oc) =>
      if hasOut && oc != 0 {
        ResetKeeps(w, Batch(|w.log|, oc));
      }
    case Monitor(size, pid) => SwitchKeeps(w, pid != 0);
    case Stop => SwitchKeeps(w, false);
    case Shutdown =>
      ResetKeeps(w, 0);
      SwitchKeeps(Reset(w, 0), false);
    case Start =>
      ResetKeeps(w, 0);
      SwitchKeeps(Reset(w, 0), true);
  }

  lemma SwitchKeeps(w: World, enabled: bool)
    requires Inv(w)
    ensures Inv(w.(enabled := enabled))
  {
    hide EventOf, InOrder, Ids;
    var w' := w.(enabled := enabled);
    forall id: nat ensures Fates(w', id) == if id < |w'.notified| then 1 else 0 {
      assert Fates(w, id) == if id < |w.notified| then 1 else 0;
    }
  }

  /** The notifications among some operations. */
  function NotificationsIn(ops: seq<Op>): seq<Notification>
    decreases |ops|
  {
    if ops == [] then []
    else (if ops[0].Notify? then [ops[0].n] else []) + NotificationsIn(ops[1..])
  }

  lemma {:induction false} RunKeeps(w: World, ops: seq<Op>)
    requires Inv(w)
    ensures Inv(Run(w, ops)) && Run(w, ops).notified == w.notified + NotificationsIn(ops)
    decreases |ops|
  {
    hide Inv;
    if ops != [] {
      StepKeeps(w, ops[0]);
      RunKeeps(After(w, ops[0]), ops[1..]);
    }
  }

  /**
   Whole runs. What was delivered, batch after batch, is events of the notifications, in
   the order of notification, none twice; the log is the first at most 1024 events accepted
   since it was last emptied, which are those of all notifications since then that were not
   ignored; and every notification is in exactly one of five places:
   ignored, dropped on a full log, discarded by a short drain or a reset, delivered, or
   still logged.
   */
  lemma EveryEventHasOneFate(ops: seq<Op>)
    ensures var w := Run(FRESH, ops);
      && w.notified == NotificationsIn(ops)
      && InOrder(w.delivered) && Genuine(w, w.delivered) && InOrder(w.log) && Genuine(w, w.log)
      && (forall id: nat :: id < |w.notified| ==> Fates(w, id) == 1)
      && w.log == w.accepted[..if |w.accepted| < MAX_EVENTS then |w.accepted| else MAX_EVENTS]
      && InOrder(w.accepted) && Genuine(w, w.accepted)
      && (forall id: nat :: id in Ids(w.accepted) <==> w.since <= id < |w.notified| && id !in w.ignored)
  {
    hide EventOf, Run, Ids;
    FreshInv();
    RunKeeps(FRESH, ops);
    var w := Run(FRESH, ops);
    assert forall k :: 0 <= k < |w.delivered| ==> w.delivered[k] == (w.delivered + w.log)[k];
    assert forall k :: 0 <= k < |w.log| ==> w.log[k] == (w.delivered + w.log)[|w.delivered| + k];
    forall id: nat | id < |w.notified| ensures Fates(w, id) == 1 {
      assert Fates(w, id) == if id < |w.notified| then 1 else 0;
    }
  }

  lemma {:induction false} RunConcat(w: World, a: seq<Op>, b: seq<Op>)
    ensures Run(w, a + b) == Run(Run(w, a), b)
    decreases |a|
  {
    hide After;
    if a == [] {
      assert a + b == b;
    } else {
      RunConcat(After(w, a[0]), a[1..], b);
      assert (a + b)[1..] == a[1..] + b;
    }
  }

  /** What was ignored or dropped stays that, and what was not never becomes it. */
  lemma {:induction false} LossIsSettled(w: World, ops: seq<Op>, id: nat)
    requires id < |w.notified|
    ensures id in Run(w, ops).ignored <==> id in w.ignored
    ensures id in Run(w, ops).dropped <==> id in w.dropped
    decreases |ops|
  {
    hide EventOf;
    if ops != [] {
      LossIsSettled(After(w, ops[0]), ops[1..], id);
    }
  }

  /**
   Why a notification is lost on arrival, in any run: it is ignored exactly when it came
   while switched off or gives no event, and dropped exactly when it came to a full log.
   */
  lemma LostOnArrival(before: seq<Op>, n: Notification, later: seq<Op>)
    ensures var (w, end) := (Run(FRESH, before), Run(FRESH, before + [Notify(n)] + later));
      var id := |NotificationsIn(before)|;
      && (id in end.ignored <==> !w.enabled || EventOf(n).None?)
      && (id in end.dropped <==> w.enabled && EventOf(n).Some? && |w.log| == MAX_EVENTS)
  {
    hide EventOf, Run, Inv;
    FreshInv();
    RunKeeps(FRESH, before);
    var w := Run(FRESH, before);
    IgnoredCame(w);
    LogIsBounded(w);
    assert before + [Notify(n)] + later == before + ([Notify(n)] + later);
    RunConcat(FRESH, before, [Notify(n)] + later);
    RunFirst(w, Notify(n), later);
    LossIsSettled(Notified(w, n), later, |w.notified|);
  }

  lemma LogIsBounded(w: World)
    requires Inv(w)
    ensures |w.log| <= MAX_EVENTS
  {
  }

  lemma RunFirst(w: World, op: Op, ops: seq<Op>)
    ensures Run(w, [op] + ops) == Run(After(w, op), ops)
  {
    assert ([op] + ops)[1..] == ops;
  }

  lemma FreshInv()
    ensures Inv(FRESH)
  {
  }

  // ---------------------------------------------------------------------------
  // The code
  // ---------------------------------------------------------------------------

  function Plain(s: seq<Stamped>): seq<Event> {
    seq(|s|, i requires 0 <= i < |s| => s[i].event)
  }

  /** The stamped log of a run is the log of the code with stamps. */
  lemma PlainSteps(w: World, n: Notification, c: nat)
    requires c <= |w.log|
    ensures Plain(Notified(w, n).log) == Logged(Plain(w.log), w.enabled, EventOf(n))
    ensures Plain(w.log[..c]) == Plain(w.log)[..c]
  {
    hide EventOf;
  }

  datatype Status = Done(count: nat) | InvalidParameter

  class Watcher {
    const log: array<Event>
    var count: nat
    var enabled: bool

    ghost predicate Valid()
      reads this
    {
      log.Length == MAX_EVENTS && count <= MAX_EVENTS
    }

    ghost function Log(): seq<Event>
      requires Valid()
      reads this, log
    {
      log[..count]
    }

    constructor ()
      ensures Valid() && fresh(log) && Log() == [] && !enabled
    {
      log := new Event[MAX_EVENTS](_ => Event(Create, 0, 0, []));
      count, enabled := 0, false;
    }

    /** `ps14_process_watcher_init`. */
    method Init()
      requires Valid()
      modifies this
      ensures Valid() && Log() == [] && enabled
    {
      count := 0;
      enabled := true;
    }

    /** The low bytes of at most 259 characters. */
    method CopyName(name: Option<seq<nat>>) returns (narrow: seq<nat>)
      ensures narrow == Narrow(name)
    {
      narrow := [];
      if name.Some? {
        var length := if |name.value| < MAX_PATH - 1 then |name.value| else MAX_PATH - 1;
        var i := 0;
        while i < length
          invariant |narrow| == i <= length
          invariant forall k :: 0 <= k < i ==> narrow[k] == name.value[k] % 256
        {
          narrow := narrow + [name.value[i] % 256];
          i := i + 1;
        }
      }
    }

    /** The end of all three notify routines. */
    method Append(event: Event)
      requires Valid()
      modifies this`count, log
      ensures Valid() && Log() == Logged(old(Log()), true, Some(event))
    {
      if count < MAX_EVENTS {
        log[count] := event;
        count := count + 1;
      }
    }

    /** The three notify routines. */
    method Notify(n: Notification)
      requires Valid()
      modifies this`count, log
      ensures Valid() && Log() == Logged(old(Log()), enabled, EventOf(n))
    {
      if !enabled {
        return;
      }
      match n
      case ProcessCreated(pid, name) =>
        var narrow := CopyName(name);
        Append(Event(Create, pid % TWO_32, 0, narrow));
      case ProcessTerminated(pid) =>
        Append(Event(Terminate, pid % TWO_32, 0, []));
      case Thread(pid, tid, created) =>
        Append(Event(if created then ThreadCreate else ThreadTerminate, pid % TWO_32, tid % TWO_32, []));
      case Image(name, pid, systemMode) =>
        if systemMode.Some? {
          var narrow := CopyName(name);
          Append(Event(if systemMode.value then DllUnload else DllLoad, pid % TWO_32, 0, narrow));
        }
    }

    /** `ps14_process_watcher_get_events` into a buffer of `oc` entries. */
    method GetEvents(out: array?<Event>, oc: nat) returns (status: Status)
      requires Valid() && (out != null ==> oc <= out.Length && out != log)
      modifies this`count, if out == null then {} else {out}
      ensures Valid()
      ensures status.InvalidParameter? <==> out == null || oc == 0
      ensures status.InvalidParameter? ==> Log() == old(Log())
      ensures status.Done? ==> status.count == Batch(|old(Log())|, oc) && Log() == []
      ensures status.Done? ==> out[..] == old(Log())[..status.count] + old(out[..])[status.count..]
    {
      if out == null || oc == 0 {
        return InvalidParameter;
      }
      var c := if oc < count then oc else count;
      var i := 0;
      while i < c
        invariant i <= c && count == old(count) && log[..] == old(log[..])
        invariant forall k :: 0 <= k < out.Length ==> out[k] == if k < i then log[k] else old(out[k])
      {
        out[i] := log[i];
        i := i + 1;
      }
      count := 0;
      return Done(c);
    }

    /** `ps14_process_watcher_monitor`: a nonzero process number switches on for all processes. */
    method Monitor(size: nat, pid: nat) returns (status: Status)
      requires Valid()
      modifies this`enabled
      ensures Valid() && Log() == old(Log())
      ensures enabled == if size < 4 then old(enabled) else pid != 0
      ensures status.InvalidParameter? <==> size < 4
    {
      if size < 4 {
        return InvalidParameter;
      }
      enabled := pid != 0;
      return Done(0);
    }

    /** `ps14_process_watcher_stop` and `ps14_process_watcher_shutdown`; only the latter empties the log. */
    method Stop(shutdown: bool)
      requires Valid()
      modifies this
      ensures Valid() && !enabled
      ensures Log() == if shutdown then [] else old(Log())
    {
      enabled := false;
      if shutdown {
        count := 0;
      }
    }
  }
}
