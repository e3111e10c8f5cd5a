/**
 Sessions, src/core/auth_gateway/session_manager.c, with the two operations of
 src/core/auth_gateway/auth_client.c that interact with their expiry. The clock is a
 parameter; session IDs are random and only compared.
 */
module Sessions {
  import opened Lists
  import opened CStrings
  import opened Search
  import opened Counters

  const TWO_64 := 0x1_0000_0000_0000_0000
  const MAX_NAME := 64

  datatype SessionState = Invalid | Pending | Active | Expired | Banned

  datatype Session = Session(id: string, userId: string, username: string, createdAt: nat, expiresAt: nat,
    state: SessionState)

  datatype Status = Success | InvalidArgument | NotFound | AuthenticationFailed

  /** The session made at `now`; the expiry is a 64-bit sum. */
  function Created(id: string, userId: string, username: Option<string>, now: nat, timeout: nat): Session {
    Session(id, Stored(userId, MAX_NAME), match username case None => "" case Some(n) => Stored(n, MAX_NAME),
      now, (now + timeout) % TWO_64, Active)
  }

  predicate Live(s: Session) {
    s.state.Active? || s.state.Pending?
  }

  /** `ps14_session_is_valid`: the verdict, and the session with its state updated. */
  function Judged(s: Session, now: nat): (bool, Session) {
    if !Live(s) then (false, s)
    else if now > s.expiresAt then (false, s.(state := Expired))
    else (true, s)
  }

  /** `ps14_auth_refresh_session` counts from the creation, not from now. */
  function Refreshed(s: Session, timeout: nat): Session {
    s.(expiresAt := (s.createdAt + timeout) % TWO_64)
  }

  /** What is not expired, in order. */
  function Kept(sessions: seq<Session>, now: nat): seq<Session> {
    if sessions == [] then []
    else if now > sessions[0].expiresAt then Kept(sessions[1..], now)
    else [sessions[0]] + Kept(sessions[1..], now)
  }

  // ---------------------------------------------------------------------------
  // The life of one session
  // ---------------------------------------------------------------------------

  /** What can happen to a session object, at any clock value. */
  datatype Event = Validate(now: nat) | Refresh | Ban | Invalidate

  function After(s: Session, timeout: nat, e: Event): Session {
    match e
    case Validate(now) => Judged(s, now).1
    case Refresh => Refreshed(s, timeout)
    case Ban => s.(state := Banned)
    case Invalidate => s.(state := Invalid)
  }

  function Lived(s: Session, timeout: nat, events: seq<Event>): Session
    decreases |events|
  {
    if events == [] then s else Lived(After(s, timeout, events[0]), timeout, events[1..])
  }

  /** The verdict on a session after some events. */
  predicate ValidAt(s: Session, timeout: nat, events: seq<Event>, now: nat) {
    Judged(Lived(s, timeout, events), now).0
  }

  lemma {:induction false} DeadStaysDead(s: Session, timeout: nat, events: seq<Event>)
    requires !Live(s)
    ensures !Live(Lived(s, timeout, events))
    decreases |events|
  {
    if events != [] {
      DeadStaysDead(After(s, timeout, events[0]), timeout, events[1..]);
    }
  }

  /** Once judged invalid, whatever happens afterwards, a session is never judged valid again. */
  lemma InvalidityIsPermanent(s: Session, timeout: nat, judged: nat, events: seq<Event>, now: nat)
    requires !Judged(s, judged).0
    ensures !ValidAt(s, timeout, [Validate(judged)] + events, now)
  {
    assert ([Validate(judged)] + events)[1..] == events;
    DeadStaysDead(Judged(s, judged).1, timeout, events);
  }

  /** When a session expires that was refreshed or not. */
  function Expiry(created: nat, first: nat, configured: nat, refreshed: bool): nat {
    (created + if refreshed then configured else first) % TWO_64
  }

  predicate AnyRefresh(events: seq<Event>) {
    exists k :: 0 <= k < |events| && events[k].Refresh?
  }

  /** No ban, no invalidation, and no check after the expiry of its time. */
  ghost predicate Unharmed(created: nat, first: nat, configured: nat, events: seq<Event>) {
    forall k :: 0 <= k < |events| ==>
      match events[k]
      case Validate(now) => now <= Expiry(created, first, configured, AnyRefresh(events[..k]))
      case Refresh => true
      case _ => false
  }

  /** The state of a session that has lived since its creation. */
  lemma {:induction false} LivedSinceCreation(id: string, userId: string, username: Option<string>, created: nat,
      first: nat, configured: nat, events: seq<Event>)
    ensures var s := Lived(Created(id, userId, username, created, first), configured, events);
      && s.createdAt == created
      && s.expiresAt == Expiry(created, first, configured, AnyRefresh(events))
      && (Live(s) <==> Unharmed(created, first, configured, events))
    decreases |events|
  {
    if events != [] {
      var (before, last) := (events[..|events| - 1], events[|events| - 1]);
      LivedSinceCreation(id, userId, username, created, first, configured, before);
      LivedLast(Created(id, userId, username, created, first), configured, events);
      assert AnyRefresh(events) <==> AnyRefresh(before) || last.Refresh?;
      assert forall k :: 0 <= k < |before| ==> events[..k] == before[..k];
    }
  }

  lemma {:induction false} LivedLast(s: Session, timeout: nat, events: seq<Event>)
    requires events != []
    ensures Lived(s, timeout, events)
         == After(Lived(s, timeout, events[..|events| - 1]), timeout, events[|events| - 1])
    decreases |events|
  {
    if |events| > 1 {
      LivedLast(After(s, timeout, events[0]), timeout, events[1..]);
      assert events[1..][..|events| - 2] == events[..|events| - 1][1..];
    }
  }

  /**
   Exactly when a session is valid: it was never banned, invalidated or checked too late,
   and now is not past its expiry.
   */
  lemma ValidExactly(id: string, userId: string, username: Option<string>, created: nat, first: nat,
      configured: nat, events: seq<Event>, now: nat)
    ensures ValidAt(Created(id, userId, username, created, first), configured, events, now)
       <==> (Unharmed(created, first, configured, events)
             && now <= Expiry(created, first, configured, AnyRefresh(events)))
  {
    LivedSinceCreation(id, userId, username, created, first, configured, events);
  }

  /** No session is valid longer after its creation than the greater of the two timeouts. */
  lemma ValidityIsBounded(id: string, userId: string, username: Option<string>, created: nat, first: nat,
      configured: nat, events: seq<Event>, now: nat)
    requires ValidAt(Created(id, userId, username, created, first), configured, events, now)
    ensures now <= created + if first > configured then first else configured
  {
    ValidExactly(id, userId, username, created, first, configured, events, now);
    ModAtMost(created + first);
    ModAtMost(created + configured);
  }

  lemma ModAtMost(n: nat)
    ensures n % TWO_64 <= n
  {
  }

  /** A session is valid when it is made exactly if its expiry does not overflow. */
  lemma BornValid(id: string, userId: string, username: Option<string>, created: nat, first: nat)
    requires created < TWO_64 && first < TWO_64
    ensures Judged(Created(id, userId, username, created, first), created).0 <==> created + first < TWO_64
  {
  }

  // ---------------------------------------------------------------------------
  // Cleaning up
  // ---------------------------------------------------------------------------

  lemma {:induction false} KeptExactly(sessions: seq<Session>, now: nat)
    ensures forall s :: s in Kept(sessions, now) <==> s in sessions && now <= s.expiresAt
    ensures |Kept(sessions, now)| <= |sessions|
  {
    if sessions != [] {
      KeptExactly(sessions[1..], now);
      assert sessions == [sessions[0]] + sessions[1..];
    }
  }

  /**
   Cleaning up against validity at the same clock value: what is removed would be judged
   invalid, and what is kept is judged valid exactly when it is still live.
   */
  lemma CleanupAgreesWithValidity(sessions: seq<Session>, now: nat)
    ensures forall s :: s in sessions && s !in Kept(sessions, now) ==> !Judged(s, now).0
    ensures forall s :: s in Kept(sessions, now) ==> (Judged(s, now).0 <==> Live(s))
  {
    KeptExactly(sessions, now);
  }

  // ---------------------------------------------------------------------------
  // The code
  // ---------------------------------------------------------------------------

  function WithId(id: string): Session -> bool {
    (s: Session) => s.id == id
  }

  /** The position of the first session with an ID. */
  function FirstWithId(sessions: seq<Session>, id: string): (k: Option<nat>)
    ensures k.Some? ==> k.value < |sessions| && sessions[k.value].id == id
    ensures forall j :: 0 <= j < (if k.Some? then k.value else |sessions|) ==> sessions[j].id != id
  {
    First(sessions, WithId(id))
  }

  class SessionManager {
    const timeout: nat
    var sessions: Node?<Session>
    ghost var spine: seq<Node<Session>>

    ghost predicate Valid()
      reads this, spine
    {
      Chain(sessions, spine)
    }

    ghost function All(): seq<Session>
      reads this, spine
    {
      Values(spine)
    }

    /** `timeout` is the configured session timeout, 3600 without a configuration. */
    constructor (configured: Option<nat>)
      ensures Valid() && spine == [] && All() == []
      ensures timeout == match configured case None => 3600 case Some(t) => t
    {
      timeout := match configured case None => 3600 case Some(t) => t;
      sessions, spine := null, [];
    }

    method Create(id: string, userId: Option<string>, username: Option<string>, now: nat, timeout: nat, gotMemory: bool)
        returns (session: Node?<Session>)
      requires Valid()
      modifies this
      ensures Valid()
      ensures session == null <==> userId.None? || !gotMemory
      ensures session == null ==> spine == old(spine)
      ensures session != null ==> fresh(session) && spine == [session] + old(spine)
      ensures session != null ==> All() == [Created(id, userId.value, username, now, timeout)] + old(All())
    {
      hide Chain, Created;
      if userId.None? || !gotMemory {
        return null;
      }
      session := new Node(Created(id, userId.value, username, now, timeout), sessions);
      Pushed(sessions, spine, session);
      sessions := session;
      spine := [session] + spine;
    }

    /** `i` is the session's place, or the list's length if it is not in it. */
    method Destroy(session: Node?<Session>, ghost i: nat)
      requires Valid() && (session != null ==> Placed(spine, session, i))
      modifies this, spine
      ensures Valid() && spine == if session == null then old(spine) else Gone(old(spine), i)
      ensures All() == if session == null then old(All()) else Gone(old(All()), i)
    {
      hide Chain, Values;
      if session == null {
        return;
      }
      sessions := Unlink(sessions, session, spine, i);
      spine := Gone(spine, i);
    }

    /** `ps14_session_find`. */
    method Find(id: Option<string>) returns (session: Node?<Session>)
      requires Valid()
      ensures id.None? ==> session == null
      ensures id.Some? ==>
                match FirstWithId(All(), id.value)
                case None => session == null
                case Some(k) => k < |spine| && session == spine[k]
    {
      hide Chain, Values;
      if id.None? {
        return null;
      }
      session := FindNode(sessions, WithId(id.value), spine);
    }

    /** `ps14_session_is_valid`; the check itself may change the session. */
    method IsValid(session: Node?<Session>, now: nat, ghost i: nat) returns (valid: bool)
      requires Valid() && (session != null ==> i < |spine| && spine[i] == session)
      modifies Only(session)`value
      ensures Valid()
      ensures session == null ==> !valid && All() == old(All())
      ensures session != null ==>
                valid == Judged(old(session.value), now).0
                && All() == old(All())[i := Judged(old(session.value), now).1]
    {
      hide Chain, Values;
      if session == null {
        return false;
      }
      ghost var was := All();
      ChainDistinct(sessions, spine);
      var state := session.value.state;
      if state == Banned || state == Invalid || state == Expired {
        assert was == was[i := session.value];
        return false;
      }
      if now > session.value.expiresAt {
        session.value := session.value.(state := Expired);
        assert All() == was[i := session.value];
        return false;
      }
      assert was == was[i := session.value];
      return true;
    }

    /** `ps14_session_ban` and `ps14_session_invalidate`. */
    method Close(session: Node?<Session>, banned: bool, ghost i: nat)
      requires Valid() && (session != null ==> i < |spine| && spine[i] == session)
      modifies Only(session)`value
      ensures Valid()
      ensures session == null ==> All() == old(All())
      ensures session != null ==>
                All() == old(All())[i := After(old(session.value), timeout, if banned then Ban else Invalidate)]
    {
      hide Chain, Values;
      if session == null {
        return;
      }
      ghost var was := All();
      ChainDistinct(sessions, spine);
      session.value := session.value.(state := if banned then Banned else Invalid);
      assert All() == was[i := session.value];
    }

    /** `ps14_auth_validate_session`. */
    method ValidateSession(id: Option<string>, now: nat) returns (status: Status)
      requires Valid()
      modifies spine
      ensures Valid()
      ensures status.InvalidArgument? <==> id.None?
      ensures id.None? ==> All() == old(All())
      ensures id.Some? ==>
                match FirstWithId(old(All()), id.value)
                case None => status == NotFound && All() == old(All())
                case Some(k) =>
                  var (valid, s) := Judged(old(All())[k], now);
                  status == (if valid then Success else AuthenticationFailed) && All() == old(All())[k := s]
    {
      hide Chain, Judged;
      if id.None? {
        return InvalidArgument;
      }
      ghost var k := FirstWithId(All(), id.value);
      var session := Find(id);
      if session == null {
        return NotFound;
      }
      var valid := IsValid(session, now, k.value);
      return if valid then Success else AuthenticationFailed;
    }

    /** `ps14_auth_refresh_session`, which does not look at the session's state. */
    method RefreshSession(id: Option<string>) returns (status: Status)
      requires Valid()
      modifies spine
      ensures Valid()
      ensures status.InvalidArgument? <==> id.None?
      ensures id.None? ==> All() == old(All())
      ensures id.Some? ==>
                match FirstWithId(old(All()), id.value)
                case None => status == NotFound && All() == old(All())
                case Some(k) =>
                  status == Success && All() == old(All())[k := After(old(All())[k], timeout, Refresh)]
    {
      hide Chain;
      if id.None? {
        return InvalidArgument;
      }
      ghost var k := FirstWithId(All(), id.value);
      var session := Find(id);
      if session == null {
        return NotFound;
      }
      ghost var was := All();
      ChainDistinct(sessions, spine);
      session.value := session.value.(expiresAt := (session.value.createdAt + timeout) % TWO_64);
      assert All() == was[k.value := session.value];
      return Success;
    }

    /** Cuts out the node at `i`, given the one before it. */
    method CutOut(prev: Node?<Session>, ghost i: nat)
      requires Valid() && i < |spine| && prev == Prior(spine, i)
      modifies this, Nodes(spine)
      ensures Valid() && spine == Without(old(spine), i) && Nodes(spine) <= old(Nodes(spine))
      ensures All() == Without(old(All()), i)
    {
      hide Chain;
      ChainAt(sessions, spine, 0);
      NodesWithout(spine, i);
      sessions := UnlinkAfter(sessions, prev, spine, i);
      spine := Without(spine, i);
    }

    /** `ps14_session_cleanup_expired`: a pointer to a link walks the list and cuts nodes out behind it. */
    method CleanupExpired(now: nat) returns (count: nat)
      requires Valid()
      modifies this, Nodes(spine)
      ensures Valid()
      ensures All() == Kept(old(All()), now)
      ensures count == (|old(All())| - |All()|) % TWO_32
    {
      hide Chain, Values, Nodes, At, Prior, Kept, Up, Cleaning, Without;
      count := 0;
      ghost var was := All();
      ghost var nodes := Nodes(spine);
      var prev: Node?<Session> := null;
      var curr := sessions;
      ghost var j := 0;
      CleaningStart(was, now);
      ChainAt(sessions, spine, 0);
      Ends(spine, 0);
      while curr != null
        invariant Valid() && Nodes(spine) <= nodes
        invariant j <= |spine| && curr == At(spine, j) && prev == Prior(spine, j)
        invariant Cleaning(was, All(), j, count, now)
        decreases |spine| - j
      {
        Ends(spine, j);
        CleaningStep(was, All(), j, count, now);
        ChainAt(sessions, spine, j);
        AroundWithout(spine, j);
        if now > curr.value.expiresAt {
          curr := curr.next;
          CutOut(prev, j);
          count := Up(count);
        } else {
          prev := curr;
          curr := curr.next;
          j := j + 1;
        }
      }
      Ends(spine, j);
      CleaningEnd(was, All(), j, count, now);
    }
  }

  /** A cleanup of `was` that has passed `j` sessions and left the list as `all`. */
  ghost predicate Cleaning(was: seq<Session>, all: seq<Session>, j: nat, count: nat, now: nat) {
    && j <= |all| <= |was| && count == (|was| - |all|) % TWO_32
    && Kept(was, now) == all[..j] + Kept(all[j..], now)
  }

  lemma CleaningStart(was: seq<Session>, now: nat)
    ensures Cleaning(was, was, 0, 0, now)
  {
  }

  lemma CleaningStep(was: seq<Session>, all: seq<Session>, j: nat, count: nat, now: nat)
    requires Cleaning(was, all, j, count, now) && j < |all|
    ensures now > all[j].expiresAt ==> Cleaning(was, Without(all, j), j, Up(count), now)
    ensures now <= all[j].expiresAt ==> Cleaning(was, all, j + 1, count, now)
  {
    hide Up;
    var rest := Without(all, j);
    UpCounts(|was| - |all|);
    assert rest[..j] == all[..j] && rest[j..] == all[j..][1..];
    assert all[j..][1..] == all[j + 1..];
    assert all[..j + 1] == all[..j] + [all[j]];
  }

  lemma CleaningEnd(was: seq<Session>, all: seq<Session>, j: nat, count: nat, now: nat)
    requires Cleaning(was, all, j, count, now) && j == |all|
    ensures Kept(was, now) == all && count == (|was| - |all|) % TWO_32
  {
  }
}
