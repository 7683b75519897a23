/**
 * Connection admission: accept, authenticate, timer expiry and close interleave freely, and every section that holds
 * the listener's lock is one atomic step.
 */
module Admission {
  import opened Basics

  type ConnId = nat
  type Time = int

  datatype Limits = Limits(maxConnections: int, maxUnauthenticated: int, timeout: int) {
    predicate Valid() {
      && maxConnections > 0 && maxUnauthenticated > 0 && timeout > 0
      && maxUnauthenticated < maxConnections
    }
  }

  /** How far the one effective `Close` of a connection has come: the socket is closed before the lock is taken. */
  datatype CloseStage = NotClosed | SocketClosed | Closed

  /** `Stop` turns an armed timer idle; it cannot retract a callback that has started. */
  datatype Timer = Armed | Started | Idle

  datatype Conn = Conn(
    acceptedAt: Time,
    deadline: Time,
    authenticated: bool,
    expired: bool,
    timer: Timer,
    stage: CloseStage,
    // Some thread decided, under the lock, that expiry must close this connection, and has yet to call `Close`.
    mustClose: bool,
    // The effective close came from expiry.
    closedByExpiry: bool,
    promotedAt: Time)

  /** What the listener's lock guards, with the connections that ever were admitted. */
  datatype Shared = Shared(limits: Limits, conns: map<ConnId, Conn>, active: set<ConnId>, pending: int) {

    function Stopped(timer: Timer): Timer {
      if timer == Armed then Idle else timer
    }

    predicate Full() {
      |active| >= limits.maxConnections || pending >= limits.maxUnauthenticated
    }

    /** The lock section of `Accept`. */
    function Admit(id: ConnId, acceptedAt: Time): Shared {
      if Full() then this
      else
        this.(
          conns := conns[id := Conn(acceptedAt, acceptedAt + limits.timeout, false, false, Armed, NotClosed, false, false, 0)],
          active := active + {id},
          pending := pending + 1)
    }

    /** The lock section of `authenticateConnection`. */
    function Authenticate(id: ConnId, now: Time): Shared
      requires id in conns
    {
      var c := conns[id];
      if id !in active || c.expired || c.authenticated then this
      else if now >= c.deadline then this.(conns := conns[id := c.(expired := true, mustClose := true)])
      else
        this.(
          conns := conns[id := c.(authenticated := true, timer := Stopped(c.timer), promotedAt := now)],
          pending := pending - 1)
    }

    /** Whether authentication reports success. */
    predicate Authenticates(id: ConnId, now: Time)
      requires id in conns
    {
      id in active && !conns[id].expired && (conns[id].authenticated || now < conns[id].deadline)
    }

    /** The lock section of the timer callback. */
    function Expire(id: ConnId): Shared
      requires id in conns
    {
      var c := conns[id].(timer := Idle);
      var shouldClose := id in active && !c.authenticated && !c.expired;
      this.(conns := conns[id := if shouldClose then c.(expired := true, mustClose := true) else c])
    }

    /** The lock section of the effective `Close`. */
    function Remove(id: ConnId): Shared
      requires id in conns
    {
      var c := conns[id];
      this.(
        conns := conns[id := c.(timer := Stopped(c.timer), stage := Closed)],
        active := active - {id},
        pending := if id in active && !c.authenticated then pending - 1 else pending)
    }

    function Waiting(): set<ConnId> {
      set id | id in active && id in conns && !conns[id].authenticated
    }

    ghost predicate ConnInv(id: ConnId)
      requires id in conns
    {
      var c := conns[id];
      && c.deadline == c.acceptedAt + limits.timeout
      && !(c.authenticated && c.expired)
      && (c.authenticated ==> c.promotedAt < c.deadline)
      && (id in active <==> c.stage != Closed)
      // Every expiry decision stays with a closer until the socket is closed, and only expiry decisions close by expiry.
      && (c.mustClose || c.closedByExpiry ==> c.expired)
      && (c.closedByExpiry ==> c.stage != NotClosed)
      && (c.expired && c.stage == NotClosed ==> c.mustClose)
      // An open connection without a decision still has its timer.
      && (!c.authenticated && !c.expired && c.stage == NotClosed ==> c.timer != Idle)
    }

    ghost predicate Inv() {
      && limits.Valid()
      && active <= conns.Keys
      && pending == |Waiting()|
      && |active| <= limits.maxConnections
      && pending <= limits.maxUnauthenticated
      && forall id :: id in conns ==> ConnInv(id)
    }
  }

  // ----- The listener as an object -----

  class BoundedListener {
    const limits: Limits
    var conns: map<ConnId, Conn>
    var active: set<ConnId>
    var pending: int

    function View(): Shared
      reads this
    {
      Shared(limits, conns, active, pending)
    }

    constructor (limits: Limits)
      requires limits.Valid()
      ensures View() == Shared(limits, map[], {}, 0) && View().Inv()
    {
      this.limits := limits;
      conns, active, pending := map[], {}, 0;
      new;
      assert View().Waiting() == {};
    }

    method AcceptSection(id: ConnId, acceptedAt: Time) returns (admitted: bool)
      requires View().Inv() && id !in conns
      modifies this
      ensures View() == old(View()).Admit(id, acceptedAt) && View().Inv()
      ensures admitted <==> id in active
      ensures admitted <==>
        |old(active)| < limits.maxConnections && old(pending) < limits.maxUnauthenticated
      ensures admitted ==>
        && active == old(active) + {id} && pending == old(pending) + 1
        && conns == old(conns)[id := conns[id]] && IsNewcomer(conns[id], acceptedAt + limits.timeout)
      ensures !admitted ==> active == old(active) && pending == old(pending) && conns == old(conns)
    {
      hide Shared.Inv;
      AdmitKeepsInv(View(), id, acceptedAt);
      AdmitsExactly(View(), id, acceptedAt);
      OnlyAdmittedAreActive(View(), id);
      if |active| >= limits.maxConnections || pending >= limits.maxUnauthenticated {
        return false;
      }
      conns := conns[id := Conn(acceptedAt, acceptedAt + limits.timeout, false, false, Armed, NotClosed, false, false, 0)];
      active := active + {id};
      pending := pending + 1;
      return true;
    }

    method AuthenticateSection(id: ConnId, now: Time) returns (ok: bool)
      requires View().Inv() && id in conns
      modifies this
      ensures View() == old(View()).Authenticate(id, now) && View().Inv()
      ensures ok <==> old(View()).Authenticates(id, now)
      ensures ok <==>
        old(id in active && !conns[id].expired && (conns[id].authenticated || now < conns[id].deadline))
      ensures ok ==> conns[id].authenticated && active == old(active)
      ensures ok && !old(conns[id].authenticated) ==> pending == old(pending) - 1
      ensures !ok ==> conns[id].authenticated == old(conns[id].authenticated) && pending == old(pending)
    {
      AuthenticateKeepsInv(View(), id, now);
      var c := conns[id];
      if id !in active || c.expired {
        return false;
      }
      if c.authenticated {
        return true;
      }
      if now >= c.deadline {
        conns := conns[id := c.(expired := true, mustClose := true)];
        return false;
      }
      conns := conns[id := c.(authenticated := true, timer := if c.timer == Armed then Idle else c.timer, promotedAt := now)];
      pending := pending - 1;
      return true;
    }

    method ExpireSection(id: ConnId) returns (shouldClose: bool)
      requires View().Inv() && id in conns && conns[id].timer == Started
      modifies this
      ensures View() == old(View()).Expire(id) && View().Inv()
      ensures shouldClose <==> old(id in active && !conns[id].authenticated && !conns[id].expired)
    {
      ExpireKeepsInv(View(), id);
      var c := conns[id];
      shouldClose := id in active && !c.authenticated && !c.expired;
      if shouldClose {
        conns := conns[id := c.(timer := Idle, expired := true, mustClose := true)];
      } else {
        conns := conns[id := c.(timer := Idle)];
      }
    }

    method CloseSection(id: ConnId)
      requires View().Inv() && id in conns && conns[id].stage == SocketClosed
      modifies this
      ensures View() == old(View()).Remove(id) && View().Inv()
    {
      RemoveKeepsInv(View(), id);
      var c := conns[id];
      conns := conns[id := c.(timer := if c.timer == Armed then Idle else c.timer, stage := Closed)];
      if id in active {
        active := active - {id};
        if !c.authenticated {
          pending := pending - 1;
        }
      }
      assert active == old(active) - {id};
    }
  }

  /** A listener exists exactly for positive limits that leave room beside the unauthenticated connections. */
  method NewBoundedListener(limits: Limits) returns (listener: BoundedListener?)
    ensures listener != null <==>
      && limits.maxConnections > 0 && limits.maxUnauthenticated > 0 && limits.timeout > 0
      && limits.maxUnauthenticated < limits.maxConnections
    ensures listener != null ==> fresh(listener) && listener.View() == Shared(limits, map[], {}, 0)
  {
    if !limits.Valid() {
      return null;
    }
    listener := new BoundedListener(limits);
  }

  // ----- What the lock sections decide -----

  /** A connection that was just accepted: waiting, its timer armed, nothing closed. */
  predicate IsNewcomer(c: Conn, deadline: Time) {
    c.deadline == deadline && !c.authenticated && !c.expired && c.timer == Armed && c.stage == NotClosed && !c.mustClose
  }

  /** Acceptance admits a socket exactly while both counts are below their limits. */
  lemma AdmitsExactly(s: Shared, id: ConnId, acceptedAt: Time)
    ensures var t := s.Admit(id, acceptedAt);
      if |s.active| < s.limits.maxConnections && s.pending < s.limits.maxUnauthenticated then
        && t.active == s.active + {id} && t.pending == s.pending + 1
        && id in t.conns && t == s.(conns := s.conns[id := t.conns[id]], active := t.active, pending := t.pending)
        && IsNewcomer(t.conns[id], acceptedAt + s.limits.timeout)
      else t == s
  {
  }

  /**
   * Authentication promotes exactly an active waiting connection strictly before its deadline, expires it from the
   * deadline on, and changes nothing else.
   */
  lemma AuthenticatesExactly(s: Shared, id: ConnId, now: Time)
    requires id in s.conns
    ensures var c, t := s.conns[id], s.Authenticate(id, now);
      && t == s.(conns := s.conns[id := t.conns[id]], pending := t.pending)
      && (if id in s.active && !c.expired && !c.authenticated then
            && t.conns[id].authenticated == (now < c.deadline)
            && t.conns[id].expired == (now >= c.deadline)
            && (now >= c.deadline ==> t.conns[id].mustClose)
            && t.pending == if now < c.deadline then s.pending - 1 else s.pending
          else t == s)
  {
  }

  /** The timer callback expires exactly an active waiting connection; otherwise it only ends. */
  lemma ExpiresExactly(s: Shared, id: ConnId)
    requires id in s.conns
    ensures var c, t := s.conns[id], s.Expire(id);
      && t == s.(conns := s.conns[id := t.conns[id]])
      && t.conns[id].timer == Idle && t.conns[id].authenticated == c.authenticated && t.conns[id].stage == c.stage
      && (id in s.active && !c.authenticated && !c.expired ==> t.conns[id].expired && t.conns[id].mustClose)
      && (!(id in s.active && !c.authenticated && !c.expired) ==>
            t.conns[id].expired == c.expired && t.conns[id].mustClose == c.mustClose)
  {
  }

  /** Closing takes the connection out, and out of the pending ones exactly if it was still waiting. */
  lemma RemovesExactly(s: Shared, id: ConnId)
    requires id in s.conns
    ensures var t := s.Remove(id);
      && t.active == s.active - {id} && t.conns[id].stage == Closed
      && t.pending == s.pending - (if id in s.active && !s.conns[id].authenticated then 1 else 0)
      && t == s.(conns := s.conns[id := t.conns[id]], active := t.active, pending := t.pending)
  {
  }

  // ----- Each lock section keeps the invariant -----

  lemma AdmitKeepsInv(s: Shared, id: ConnId, acceptedAt: Time)
    requires s.Inv() && id !in s.conns
    ensures s.Admit(id, acceptedAt).Inv()
  {
    if !s.Full() {
      hide Shared.ConnInv, Shared.Waiting;
      var t := s.Admit(id, acceptedAt);
      AdmittedWaits(s, id, acceptedAt);
      forall other | other in t.conns
        ensures t.ConnInv(other)
      {
        AdmittedConn(s, id, acceptedAt, other);
      }
    }
  }

  lemma AdmittedWaits(s: Shared, id: ConnId, acceptedAt: Time)
    requires !s.Full() && s.active <= s.conns.Keys && id !in s.conns
    ensures s.Admit(id, acceptedAt).Waiting() == s.Waiting() + {id} && id !in s.Waiting()
  {
  }

  lemma AdmittedConn(s: Shared, id: ConnId, acceptedAt: Time, other: ConnId)
    requires !s.Full() && id !in s.conns && (other == id || (other in s.conns && s.ConnInv(other)))
    ensures s.Admit(id, acceptedAt).ConnInv(other)
  {
  }

  lemma OnlyAdmittedAreActive(s: Shared, id: ConnId)
    requires s.Inv() && id !in s.conns
    ensures id !in s.active
  {
  }

  lemma AuthenticateKeepsInv(s: Shared, id: ConnId, now: Time)
    requires s.Inv() && id in s.conns
    ensures s.Authenticate(id, now).Inv()
  {
    var t := s.Authenticate(id, now);
    assert s.ConnInv(id);
    if t != s {
      if now >= s.conns[id].deadline {
        assert t.Waiting() == s.Waiting();
      } else {
        assert t.Waiting() == s.Waiting() - {id};
      }
      forall other | other in t.conns
        ensures t.ConnInv(other)
      {
        assert s.ConnInv(other);
      }
    }
  }

  lemma ExpireKeepsInv(s: Shared, id: ConnId)
    requires s.Inv() && id in s.conns
    ensures s.Expire(id).Inv()
  {
    var t := s.Expire(id);
    assert t.Waiting() == s.Waiting();
    forall other | other in t.conns
      ensures t.ConnInv(other)
    {
      assert s.ConnInv(other);
    }
  }

  lemma RemoveKeepsInv(s: Shared, id: ConnId)
    requires s.Inv() && id in s.conns && s.conns[id].stage == SocketClosed
    ensures s.Remove(id).Inv()
  {
    var t := s.Remove(id);
    assert s.ConnInv(id);
    assert t.Waiting() == s.Waiting() - {id};
    assert s.active == t.active + {id};
    forall other | other in t.conns
      ensures t.ConnInv(other)
    {
      assert s.ConnInv(other);
    }
  }

  // ----- Runs -----

  /** Where the accepting goroutine is: it holds at most one socket that is not admitted. */
  datatype Acceptor = Listening | Holding(acceptedAt: Time) | Rejecting

  datatype State = State(shared: Shared, clock: Time, acceptor: Acceptor)

  datatype Action =
    | Tick(now: Time)
    | AcceptSocket
    | AcceptLock(id: ConnId)
    | CloseRejected
    | StartTimer(id: ConnId)
    | ExpireLock(id: ConnId)
    | AuthenticateLock(id: ConnId)
    | CloseSocket(id: ConnId, byExpiry: bool)
    | JoinClose(id: ConnId)
    | CloseLock(id: ConnId)

  predicate Enabled(s: State, a: Action) {
    var conns := s.shared.conns;
    match a
    case Tick(now) => now >= s.clock
    case AcceptSocket => s.acceptor == Listening
    case AcceptLock(id) => s.acceptor.Holding? && id !in conns
    case CloseRejected => s.acceptor == Rejecting
    case StartTimer(id) => id in conns && conns[id].timer == Armed && s.clock >= conns[id].deadline
    case ExpireLock(id) => id in conns && conns[id].timer == Started
    case AuthenticateLock(id) => id in conns
    // The first `Close` to run closes the socket before it asks for the lock.
    case CloseSocket(id, byExpiry) => id in conns && conns[id].stage == NotClosed && (byExpiry ==> conns[id].mustClose)
    // A later `Close` waits for the first and does nothing itself.
    case JoinClose(id) => id in conns && conns[id].mustClose && conns[id].stage == Closed
    case CloseLock(id) => id in conns && conns[id].stage == SocketClosed
  }

  function Next(s: State, a: Action): State
    requires Enabled(s, a)
  {
    var shared := s.shared;
    match a
    case Tick(now) => s.(clock := now)
    case AcceptSocket => s.(acceptor := Holding(s.clock))
    case AcceptLock(id) =>
      s.(shared := shared.Admit(id, s.acceptor.acceptedAt), acceptor := if shared.Full() then Rejecting else Listening)
    case CloseRejected => s.(acceptor := Listening)
    case StartTimer(id) => s.(shared := shared.(conns := shared.conns[id := shared.conns[id].(timer := Started)]))
    case ExpireLock(id) => s.(shared := shared.Expire(id))
    case AuthenticateLock(id) => s.(shared := shared.Authenticate(id, s.clock))
    case CloseSocket(id, byExpiry) =>
      var c := shared.conns[id];
      s.(shared := shared.(conns := shared.conns[id :=
        c.(stage := SocketClosed, closedByExpiry := byExpiry, mustClose := if byExpiry then false else c.mustClose)]))
    case JoinClose(id) => s.(shared := shared.(conns := shared.conns[id := shared.conns[id].(mustClose := false)]))
    case CloseLock(id) => s.(shared := shared.Remove(id))
  }

  function Initial(limits: Limits, clock: Time): State {
    State(Shared(limits, map[], {}, 0), clock, Listening)
  }

  lemma StepKeepsInv(s: State, a: Action)
    requires s.shared.Inv() && Enabled(s, a)
    ensures Next(s, a).shared.Inv() && Next(s, a).shared.limits == s.shared.limits
  {
    match a
    case AcceptLock(id) => AdmitKeepsInv(s.shared, id, s.acceptor.acceptedAt);
    case ExpireLock(id) => ExpireKeepsInv(s.shared, id);
    case AuthenticateLock(id) => AuthenticateKeepsInv(s.shared, id, s.clock);
    case CloseLock(id) => RemoveKeepsInv(s.shared, id);
    case StartTimer(id) => FieldKeepsInv(s.shared, Next(s, a).shared, id);
    case CloseSocket(id, _) => FieldKeepsInv(s.shared, Next(s, a).shared, id);
    case JoinClose(id) => FieldKeepsInv(s.shared, Next(s, a).shared, id);
    case _ =>
  }

  lemma FieldKeepsInv(s: Shared, t: Shared, id: ConnId)
    requires s.Inv() && id in s.conns && id in t.conns && t == s.(conns := s.conns[id := t.conns[id]])
    requires t.ConnInv(id) && t.conns[id].authenticated == s.conns[id].authenticated
    ensures t.Inv()
  {
    assert t.Waiting() == s.Waiting();
    forall other | other in t.conns
      ensures t.ConnInv(other)
    {
      assert other != id ==> s.ConnInv(other);
    }
  }

  /** A run: every state follows from the one before by an enabled action. */
  ghost predicate IsRun(states: seq<State>, actions: seq<Action>) {
    && |states| == |actions| + 1
    && forall i :: 0 <= i < |actions| ==> Enabled(states[i], actions[i]) && states[i + 1] == Next(states[i], actions[i])
  }

  /** In every interleaving, every state meets the invariant: counts, caps, and one fate for each connection. */
  lemma {:induction false} RunsAreSafe(limits: Limits, clock: Time, states: seq<State>, actions: seq<Action>, i: nat)
    requires limits.Valid() && IsRun(states, actions) && states[0] == Initial(limits, clock) && i < |states|
    ensures states[i].shared.Inv() && states[i].shared.limits == limits
    decreases i
  {
    if i == 0 {
      assert states[0].shared.Waiting() == {};
    } else {
      RunsAreSafe(limits, clock, states, actions, i - 1);
      StepKeepsInv(states[i - 1], actions[i - 1]);
    }
  }

  /** No thread waits for another: each can take its own next step in every state. */
  lemma EveryThreadCanMove(s: State, id: ConnId, later: Time)
    ensures later >= s.clock ==> Enabled(s, Tick(later)) && Next(s, Tick(later)).clock == later
    ensures s.acceptor == Listening ==> Enabled(s, AcceptSocket) && Next(s, AcceptSocket).acceptor == Holding(s.clock)
    ensures s.acceptor.Holding? && id !in s.shared.conns ==> Enabled(s, AcceptLock(id))
    ensures s.acceptor == Rejecting ==> Enabled(s, CloseRejected) && Next(s, CloseRejected).acceptor == Listening
    ensures id in s.shared.conns ==>
      && Enabled(s, AuthenticateLock(id))
      && (s.shared.conns[id].stage == NotClosed ==> Enabled(s, CloseSocket(id, false)))
      && (s.shared.conns[id].stage == SocketClosed ==> Enabled(s, CloseLock(id)))
      && (s.shared.conns[id].timer == Armed && s.clock >= s.shared.conns[id].deadline ==> Enabled(s, StartTimer(id)))
      && (s.shared.conns[id].timer == Started ==> Enabled(s, ExpireLock(id)))
  {
  }

  /** In every run, a socket that asks for admission below both limits gets it, and above them is refused. */
  lemma AcceptanceIsExact(limits: Limits, clock: Time, states: seq<State>, actions: seq<Action>, i: nat, id: ConnId)
    requires limits.Valid() && IsRun(states, actions) && states[0] == Initial(limits, clock)
    requires i < |actions| && actions[i] == AcceptLock(id)
    ensures states[i].acceptor.Holding? && id !in states[i].shared.active
    ensures id in states[i + 1].shared.active <==>
      |states[i].shared.active| < limits.maxConnections && states[i].shared.pending < limits.maxUnauthenticated
    ensures id in states[i + 1].shared.active ==>
      && id in states[i + 1].shared.conns
      && IsNewcomer(states[i + 1].shared.conns[id], states[i].acceptor.acceptedAt + limits.timeout)
      && states[i + 1].acceptor == Listening
    ensures id !in states[i + 1].shared.active ==> states[i + 1] == states[i].(acceptor := Rejecting)
  {
    hide Shared.Inv, Shared.Admit;
    RunsAreSafe(limits, clock, states, actions, i);
    OnlyAdmittedAreActive(states[i].shared, id);
    AdmitsExactly(states[i].shared, id, states[i].acceptor.acceptedAt);
  }

  /** In every run, authenticating an active, unexpired, waiting connection before its deadline promotes it. */
  lemma AuthenticationIsExact(limits: Limits, clock: Time, states: seq<State>, actions: seq<Action>, i: nat, id: ConnId)
    requires limits.Valid() && IsRun(states, actions) && states[0] == Initial(limits, clock)
    requires i < |actions| && actions[i] == AuthenticateLock(id)
    requires id in states[i].shared.active && id in states[i].shared.conns && !states[i].shared.conns[id].authenticated
    ensures id in states[i + 1].shared.conns
    ensures states[i + 1].shared.conns[id].authenticated <==>
      !states[i].shared.conns[id].expired && states[i].clock < states[i].shared.conns[id].deadline
  {
    hide Shared.Authenticate;
    AuthenticatesExactly(states[i].shared, id, states[i].clock);
  }

  // ----- What a connection's history never does -----

  /** What no step undoes: admission, promotion, expiry, and leaving. */
  ghost predicate Progresses(s: Shared, t: Shared) {
    forall id :: id in s.conns ==>
      && id in t.conns
      && (s.conns[id].authenticated ==> t.conns[id].authenticated)
      && (s.conns[id].expired ==> t.conns[id].expired)
      && (s.conns[id].closedByExpiry ==> t.conns[id].closedByExpiry)
      && (s.conns[id].stage != NotClosed ==> t.conns[id].stage != NotClosed)
      && (s.conns[id].stage == Closed ==> t.conns[id].stage == Closed)
  }

  lemma StepProgresses(s: State, a: Action)
    requires s.shared.Inv() && Enabled(s, a)
    ensures Progresses(s.shared, Next(s, a).shared)
  {
    forall id | id in s.shared.conns
      ensures s.shared.ConnInv(id)
    {
    }
  }

  lemma {:induction false} RunProgresses(limits: Limits, clock: Time, states: seq<State>, actions: seq<Action>, i: nat, j: nat)
    requires limits.Valid() && IsRun(states, actions) && states[0] == Initial(limits, clock) && i <= j < |states|
    ensures Progresses(states[i].shared, states[j].shared)
    decreases j
  {
    hide Next, Enabled, Progresses, Shared.Inv, Initial;
    if i == j {
      NothingProgresses(states[i].shared);
    } else {
      RunProgresses(limits, clock, states, actions, i, j - 1);
      RunsAreSafe(limits, clock, states, actions, j - 1);
      StepProgresses(states[j - 1], actions[j - 1]);
      assert states[j] == Next(states[j - 1], actions[j - 1]);
      ProgressesOn(states[i].shared, states[j - 1].shared, states[j].shared);
    }
  }

  lemma NothingProgresses(s: Shared)
    ensures Progresses(s, s)
  {
  }

  lemma ProgressesOn(s: Shared, t: Shared, u: Shared)
    requires Progresses(s, t) && Progresses(t, u)
    ensures Progresses(s, u)
  {
  }

  /** A connection that left the active set never comes back, so it leaves at most once. */
  lemma LeavesAtMostOnce(
    limits: Limits, clock: Time, states: seq<State>, actions: seq<Action>, id: ConnId, i: nat, j: nat)
    requires limits.Valid() && IsRun(states, actions) && states[0] == Initial(limits, clock)
    requires i < j < |states| && id in states[i].shared.active && id !in states[i + 1].shared.active
    ensures id !in states[j].shared.active
  {
    RunsAreSafe(limits, clock, states, actions, i);
    RunsAreSafe(limits, clock, states, actions, i + 1);
    RunsAreSafe(limits, clock, states, actions, j);
    RunProgresses(limits, clock, states, actions, i, i + 1);
    RunProgresses(limits, clock, states, actions, i + 1, j);
    assert states[i + 1].shared.ConnInv(id) && states[j].shared.ConnInv(id);
  }

  /** A connection closed by expiry was not promoted before the close, and is not promoted after it. */
  lemma ExpirySparesPromoted(
    limits: Limits, clock: Time, states: seq<State>, actions: seq<Action>, id: ConnId, i: nat, j: nat)
    requires limits.Valid() && IsRun(states, actions) && states[0] == Initial(limits, clock)
    requires i < |actions| && j < |states| && actions[i] == CloseSocket(id, true) && id in states[j].shared.conns
    ensures !states[j].shared.conns[id].authenticated
  {
    RunsAreSafe(limits, clock, states, actions, i);
    RunsAreSafe(limits, clock, states, actions, j);
    assert states[i].shared.ConnInv(id) && states[j].shared.ConnInv(id);
    if j <= i {
      RunProgresses(limits, clock, states, actions, j, i);
    } else {
      RunProgresses(limits, clock, states, actions, i, j);
    }
  }

  /** Whoever is promoted was promoted strictly before the deadline set when its socket was accepted. */
  lemma PromotionBeatsDeadline(
    limits: Limits, clock: Time, states: seq<State>, actions: seq<Action>, i: nat, id: ConnId)
    requires limits.Valid() && IsRun(states, actions) && states[0] == Initial(limits, clock) && i < |actions|
    requires id in states[i].shared.conns && !states[i].shared.conns[id].authenticated
    requires states[i + 1].shared.conns[id].authenticated
    ensures actions[i] == AuthenticateLock(id) && states[i].shared.Authenticates(id, states[i].clock)
    ensures states[i].clock < states[i].shared.conns[id].acceptedAt + limits.timeout
  {
    RunsAreSafe(limits, clock, states, actions, i);
    assert states[i].shared.ConnInv(id);
  }

  // ----- Sockets held -----

  function OpenAdmitted(s: Shared): set<ConnId> {
    set id | id in s.conns && s.conns[id].stage == NotClosed
  }

  /** The sockets this listener holds open: admitted ones not yet closed, and the acceptor's own. */
  function OpenSockets(s: State): nat {
    |OpenAdmitted(s.shared)| + (if s.acceptor == Listening then 0 else 1)
  }

  /** No interleaving holds more than one socket above the connection limit. */
  lemma SocketsAreBounded(limits: Limits, clock: Time, states: seq<State>, actions: seq<Action>, i: nat)
    requires limits.Valid() && IsRun(states, actions) && states[0] == Initial(limits, clock) && i < |states|
    ensures OpenSockets(states[i]) <= limits.maxConnections + 1
  {
    RunsAreSafe(limits, clock, states, actions, i);
    var s := states[i].shared;
    forall id | id in s.conns && s.conns[id].stage == NotClosed
      ensures id in s.active
    {
      assert s.ConnInv(id);
    }
    SubsetSize(OpenAdmitted(s), s.active);
  }

  // ----- No unauthenticated connection is left behind -----

  /** How many steps a connection that is never promoted still is from leaving. */
  function Rank(c: Conn): nat {
    if c.authenticated || c.stage == Closed then 0
    else if c.stage == SocketClosed then 1
    else if c.expired then 2
    else if c.timer == Started then 3
    else 4
  }

  /** The step that takes an overdue connection closer to leaving. */
  function Pursue(s: State, id: ConnId): Action
    requires id in s.shared.conns
  {
    var c := s.shared.conns[id];
    if c.stage == SocketClosed then CloseLock(id)
    else if c.expired then CloseSocket(id, true)
    else if c.timer == Started then ExpireLock(id)
    else StartTimer(id)
  }

  /** Past its deadline, an active unauthenticated connection always has a step of its own enabled that lowers its rank. */
  lemma OverdueIsPursued(s: State, id: ConnId)
    requires s.shared.Inv() && id in s.shared.active && !s.shared.conns[id].authenticated
    requires s.clock >= s.shared.conns[id].deadline
    ensures Enabled(s, Pursue(s, id))
    ensures Rank(Next(s, Pursue(s, id)).shared.conns[id]) < Rank(s.shared.conns[id])
  {
    assert s.shared.ConnInv(id);
  }

  /** No step of any thread takes a connection further from leaving. */
  lemma RankNeverGrows(s: State, a: Action, id: ConnId)
    requires s.shared.Inv() && Enabled(s, a) && id in s.shared.conns
    ensures id in Next(s, a).shared.conns && Rank(Next(s, a).shared.conns[id]) <= Rank(s.shared.conns[id])
  {
    assert s.shared.ConnInv(id);
  }
}
