/** The project registry: idle leases, a quota, and handles that are closed exactly once. */
module ProjectRegistry {
  import opened Text
  import opened Basics

  type Handle = nat
  type Time = int

  /**
   * The registry's fields, with the fate of every handle: `issued` ever, `taken` out by a close request that has yet to
   * close it, and how often each was closed.
   */
  datatype State = State(
    roots: map<string, Handle>,
    lastUsed: map<string, Time>,
    closed: bool,
    maxProjects: nat,
    idleTimeout: Time,
    issued: set<Handle>,
    taken: set<Handle>,
    closes: multiset<Handle>)
  {
    /** The handles in slots. */
    function Held(): set<Handle> {
      set id | id in roots :: roots[id]
    }

    /** Slots and leases agree, the quota holds, no two slots share a handle, and a closed registry is empty. */
    ghost predicate Shape() {
      && roots.Keys == lastUsed.Keys
      && |roots| <= maxProjects
      && Injective()
      && (closed ==> roots == map[])
    }

    ghost predicate Injective() {
      forall i, j :: i in roots && j in roots && i != j ==> roots[i] != roots[j]
    }

    /** In how many ways a handle is accounted for: its slot, a pending close request, and closes made. */
    function Fates(h: Handle): nat {
      (if h in Held() then 1 else 0) + (if h in taken then 1 else 0) + closes[h]
    }

    /** Every opened handle is in one slot, or taken out, or closed once: exactly one of these. */
    ghost predicate Inv() {
      Shape() && forall h :: Fates(h) == if h in issued then 1 else 0
    }

    predicate IsExpired(id: string, now: Time)
      requires id in lastUsed
    {
      now - lastUsed[id] >= idleTimeout
    }

    function Expired(now: Time): set<string> {
      set id | id in lastUsed && IsExpired(id, now)
    }

    /** Drops some slots and closes their handles. */
    function Drop(ids: set<string>): State {
      this.(roots := roots - ids, lastUsed := lastUsed - ids, closes := closes + multiset(HandlesOf(ids)))
    }

    function HandlesOf(ids: set<string>): set<Handle> {
      set id | id in ids && id in roots :: roots[id]
    }

    function Sweep(now: Time): State {
      Drop(Expired(now))
    }

    /** Registers a project: `handle` is what authorization opened, if it succeeded. */
    function Open(id: string, handle: Option<Handle>, sweepAt: Time, usedAt: Time): State {
      var s := Sweep(sweepAt);
      if s.closed || (id !in s.roots && |s.roots| >= maxProjects) || handle.None? then s
      else
        s.(
          roots := s.roots[id := handle.value],
          lastUsed := s.lastUsed[id := usedAt],
          issued := s.issued + {handle.value},
          closes := if id in s.roots then s.closes + multiset{s.roots[id]} else s.closes)
    }

    predicate Registers(id: string, handle: Option<Handle>, sweepAt: Time) {
      var s := Sweep(sweepAt);
      !s.closed && (id in s.roots || |s.roots| < maxProjects) && handle.Some?
    }

    /** Looks a project up and renews its lease. */
    function Lookup(id: string, sweepAt: Time, usedAt: Time): State {
      if id == "" then this
      else
        var s := Sweep(sweepAt);
        if id in s.roots then s.(lastUsed := s.lastUsed[id := usedAt]) else s
    }

    function Found(id: string, sweepAt: Time): Option<Handle> {
      var s := Sweep(sweepAt);
      if id != "" && id in s.roots then Some(s.roots[id]) else None
    }

    /** Takes a project's handle out; whoever asked closes it later. */
    function Take(id: string, sweepAt: Time): State {
      if id == "" then this
      else
        var s := Sweep(sweepAt);
        if id in s.roots then
          s.(roots := s.roots - {id}, lastUsed := s.lastUsed - {id}, taken := s.taken + {s.roots[id]})
        else s
    }

    function CloseTaken(handle: Handle): State {
      if handle in taken then this.(taken := taken - {handle}, closes := closes + multiset{handle}) else this
    }

    function CloseAll(): State {
      Drop(roots.Keys).(closed := true)
    }
  }

  // ----- What the operations do, project by project -----

  /** A project that a sweep at this time leaves: registered, and idle for less than the timeout. */
  predicate Live(s: State, id: string, now: Time) {
    id in s.roots && id in s.lastUsed && now - s.lastUsed[id] < s.idleTimeout
  }

  /** The slot of one project is the same in both states. */
  predicate SameSlot(s: State, t: State, id: string) {
    && (id in s.roots <==> id in t.roots) && (id in s.lastUsed <==> id in t.lastUsed)
    && (id in s.roots && id in t.roots ==> s.roots[id] == t.roots[id])
    && (id in s.lastUsed && id in t.lastUsed ==> s.lastUsed[id] == t.lastUsed[id])
  }

  /** After a sweep a project is as before if it is live, and gone otherwise. */
  predicate Swept(s: State, t: State, id: string, now: Time) {
    if Live(s, id, now) then SameSlot(s, t, id) else id !in t.roots && id !in t.lastUsed
  }

  lemma SweepsEach(s: State, now: Time, id: string)
    requires s.roots.Keys == s.lastUsed.Keys
    ensures Swept(s, s.Sweep(now), id, now)
  {
  }

  /**
   * A lookup finds exactly a live project and gives it a new lease; every other project is only swept. The renewed lease
   * decides a later lookup.
   */
  lemma LookupExactly(s: State, id: string, sweepAt: Time, usedAt: Time, other: string, later: Time)
    requires s.Inv()
    ensures s.Found(id, sweepAt) == if id != "" && Live(s, id, sweepAt) then Some(s.roots[id]) else None
    ensures var t := s.Lookup(id, sweepAt, usedAt);
      if id == "" then t == s
      else if id == other && Live(s, id, sweepAt) then
        && id in t.roots && id in t.lastUsed && t.roots[id] == s.roots[id] && t.lastUsed[id] == usedAt
        && (t.Found(id, later).Some? <==> later - usedAt < s.idleTimeout)
      else Swept(s, t, other, sweepAt)
  {
    hide State.Fates, State.Sweep;
    KeysAgree(s);
    SweepsEach(s, sweepAt, id);
    SweepsEach(s, sweepAt, other);
    SweepKeepsFields(s, sweepAt);
    LookupKeepsInv(s, id, sweepAt, usedAt);
    KeysAgree(s.Lookup(id, sweepAt, usedAt));
    SweepsEach(s.Lookup(id, sweepAt, usedAt), later, id);
  }

  lemma FoundInFields(s: State, id: string, sweepAt: Time, usedAt: Time)
    requires s.Inv()
    ensures s.roots.Keys == s.lastUsed.Keys
    ensures s.Found(id, sweepAt).Some? <==> id != "" && id in s.roots && sweepAt - s.lastUsed[id] < s.idleTimeout
    ensures s.Found(id, sweepAt).Some? ==>
      && s.Found(id, sweepAt).value == s.roots[id] && id in s.Lookup(id, sweepAt, usedAt).lastUsed
      && s.Lookup(id, sweepAt, usedAt).lastUsed[id] == usedAt
  {
    hide State.Inv;
    KeysAgree(s);
    LookupExactly(s, id, sweepAt, usedAt, id, sweepAt);
  }

  lemma KeysAgree(s: State)
    requires s.Inv()
    ensures s.roots.Keys == s.lastUsed.Keys
  {
  }

  lemma SweepKeepsFields(s: State, now: Time)
    ensures s.Sweep(now) == s.(roots := s.Sweep(now).roots, lastUsed := s.Sweep(now).lastUsed, closes := s.Sweep(now).closes)
  {
  }

  function LiveProjects(s: State, now: Time): set<string> {
    set id | id in s.roots && Live(s, id, now)
  }

  /** Registration succeeds exactly when the server is open, a handle was opened, and the project is live or the quota is not used up. */
  lemma RegistersExactly(s: State, id: string, handle: Option<Handle>, sweepAt: Time)
    requires s.Inv()
    ensures s.Registers(id, handle, sweepAt) <==>
      !s.closed && handle.Some? && (Live(s, id, sweepAt) || |LiveProjects(s, sweepAt)| < s.maxProjects)
  {
    hide State.Fates;
    KeysAgree(s);
    var m := s.Sweep(sweepAt);
    forall other ensures other in m.roots <==> other in LiveProjects(s, sweepAt) {
      SweepsEach(s, sweepAt, other);
    }
    assert m.roots.Keys == LiveProjects(s, sweepAt);
    assert |m.roots| == |m.roots.Keys|;
  }

  /** A registration installs the handle under a new lease that decides later lookups; every other project is only swept. */
  lemma OpenExactly(s: State, id: string, handle: Option<Handle>, sweepAt: Time, usedAt: Time, other: string, later: Time)
    requires s.Inv() && (handle.Some? ==> handle.value !in s.issued)
    ensures var t := s.Open(id, handle, sweepAt, usedAt);
      if id == other && s.Registers(id, handle, sweepAt) then
        && id in t.roots && id in t.lastUsed && t.roots[id] == handle.value && t.lastUsed[id] == usedAt
        && (id != "" ==> (t.Found(id, later).Some? <==> later - usedAt < s.idleTimeout))
      else Swept(s, t, other, sweepAt)
  {
    hide State.Fates, State.Sweep;
    KeysAgree(s);
    SweepsEach(s, sweepAt, other);
    SweepKeepsFields(s, sweepAt);
    OpenKeepsInv(s, id, handle, sweepAt, usedAt);
    KeysAgree(s.Open(id, handle, sweepAt, usedAt));
    SweepsEach(s.Open(id, handle, sweepAt, usedAt), later, id);
  }

  /** The new handle is open, and the one it replaces is closed. */
  lemma OpenClosesReplaced(s: State, id: string, handle: Option<Handle>, sweepAt: Time, usedAt: Time)
    requires s.Inv() && s.Registers(id, handle, sweepAt) && handle.value !in s.issued
    ensures var t := s.Open(id, handle, sweepAt, usedAt);
      && handle.value in t.issued && t.closes[handle.value] == 0
      && (id in s.roots ==> t.closes[s.roots[id]] == 1 && s.closes[s.roots[id]] == 0)
  {
    hide State.Sweep, State.Shape;
    OpenKeepsInv(s, id, handle, sweepAt, usedAt);
    var t := s.Open(id, handle, sweepAt, usedAt);
    assert t.Fates(handle.value) == 1 && t.roots[id] in t.Held();
    if id in s.roots {
      var h := s.roots[id];
      HeldIsOpen(s, id);
      SweepKeepsFields(s, sweepAt);
      assert h in s.Held() && s.Fates(h) == 1 && h in s.issued && h in t.issued;
      assert t.Fates(h) == 1;
      NoOtherSlot(s, t, id, handle.value, sweepAt, h);
    }
  }

  /** A handle that left its slot is in no other. */
  lemma NoOtherSlot(s: State, t: State, id: string, handle: Handle, sweepAt: Time, h: Handle)
    requires s.Inv() && id in s.roots && s.roots[id] == h && h != handle
    requires t.roots == s.Sweep(sweepAt).roots[id := handle] && t.taken == s.taken
    ensures h !in t.Held() && h !in t.taken
  {
    assert s.Fates(h) == 1 && h in s.Held();
    assert forall other :: other in t.roots && other != id ==> other in s.roots && t.roots[other] == s.roots[other];
  }

  /** Taking hands out exactly a live project's handle, open, and forgets the project; every other one is only swept. */
  lemma TakeExactly(s: State, id: string, sweepAt: Time, other: string)
    requires s.Inv()
    ensures var t := s.Take(id, sweepAt);
      && (if id == "" then t == s
          else if id == other then id !in t.roots && id !in t.lastUsed
          else Swept(s, t, other, sweepAt))
      && t.taken == if id != "" && Live(s, id, sweepAt) then s.taken + {s.roots[id]} else s.taken
  {
    hide State.Fates, State.Sweep;
    KeysAgree(s);
    SweepsEach(s, sweepAt, id);
    SweepsEach(s, sweepAt, other);
    SweepKeepsFields(s, sweepAt);
  }

  /** Closing the server empties it, closes every held handle once, and shuts it. */
  lemma CloseExactly(s: State, h: Handle)
    requires s.Inv()
    ensures var t := s.CloseAll();
      && t.closed && t.roots == map[] && t.lastUsed == map[] && t.taken == s.taken && t.issued == s.issued
      && t.closes[h] == if exists id :: id in s.roots && s.roots[id] == h then 1 else s.closes[h]
  {
    var t := s.CloseAll();
    if id :| id in s.roots && s.roots[id] == h {
      assert h in s.Held() && s.Fates(h) <= 1 && h in s.HandlesOf(s.roots.Keys);
    } else {
      assert h !in s.HandlesOf(s.roots.Keys);
    }
  }

  // ----- Every operation keeps the invariant -----

  lemma HeldAfterDrop(s: State, ids: set<string>)
    requires s.Shape()
    ensures s.Drop(ids).Held() == s.Held() - s.HandlesOf(ids) && s.HandlesOf(ids) <= s.Held()
    ensures s.Drop(ids).Shape()
  {
    hide State.Injective, State.Held, State.HandlesOf;
    DropShape(s, ids);
    forall h
      ensures h in s.Drop(ids).Held() <==> h in s.Held() && h !in s.HandlesOf(ids)
      ensures h in s.HandlesOf(ids) ==> h in s.Held()
    {
      DropHandle(s, ids, h);
    }
  }

  lemma DropShape(s: State, ids: set<string>)
    requires s.Shape()
    ensures s.Drop(ids).Shape()
  {
    hide State.HandlesOf;
    var t := s.Drop(ids);
    MapShrinks(s.roots, ids);
    assert t.roots.Keys == s.roots.Keys - ids && t.lastUsed.Keys == s.lastUsed.Keys - ids;
    assert forall i :: i in t.roots ==> i in s.roots && t.roots[i] == s.roots[i];
  }

  lemma SlotOf(s: State, h: Handle) returns (id: string)
    requires h in s.Held()
    ensures id in s.roots && s.roots[id] == h
  {
    id :| id in s.roots && s.roots[id] == h;
  }

  lemma DropHandle(s: State, ids: set<string>, h: Handle)
    requires s.Injective()
    ensures h in s.Drop(ids).Held() <==> h in s.Held() && h !in s.HandlesOf(ids)
    ensures h in s.HandlesOf(ids) ==> h in s.Held()
  {
    if h in s.Held() {
      var id := SlotOf(s, h);
      assert id in ids <==> h in s.HandlesOf(ids);
      assert id !in ids ==> id in s.Drop(ids).roots && s.Drop(ids).roots[id] == h;
      assert id in ids ==> forall other :: other in s.Drop(ids).roots ==> other != id;
    }
  }

  lemma DropKeepsInv(s: State, ids: set<string>)
    requires s.Inv()
    ensures s.Drop(ids).Inv()
  {
    hide State.Shape, State.Held, State.HandlesOf;
    HeldAfterDrop(s, ids);
    var t := s.Drop(ids);
    forall h
      ensures t.Fates(h) == if h in t.issued then 1 else 0
    {
      assert s.Fates(h) == if h in s.issued then 1 else 0;
    }
  }

  /** Fills an empty slot with a handle never opened before. */
  lemma InsertKeepsInv(s: State, id: string, handle: Handle, usedAt: Time)
    requires s.Inv() && id !in s.roots && |s.roots| < s.maxProjects && !s.closed && handle !in s.issued
    ensures s.(roots := s.roots[id := handle], lastUsed := s.lastUsed[id := usedAt], issued := s.issued + {handle}).Inv()
  {
    var t := s.(roots := s.roots[id := handle], lastUsed := s.lastUsed[id := usedAt], issued := s.issued + {handle});
    assert s.Fates(handle) == 0;
    assert t.Held() == s.Held() + {handle} by {
      assert t.roots[id] == handle;
      forall h | h in s.Held()
        ensures h in t.Held()
      {
        var i :| i in s.roots && s.roots[i] == h;
        assert t.roots[i] == h;
      }
    }
    forall i | i in s.roots
      ensures s.roots[i] != handle
    {
      assert s.roots[i] in s.Held();
    }
    forall h
      ensures t.Fates(h) == if h in t.issued then 1 else 0
    {
      assert s.Fates(h) == if h in s.issued then 1 else 0;
    }
  }

  lemma MapShrinks<K, V>(m: map<K, V>, ids: set<K>)
    ensures |m - ids| <= |m|
  {
    SubsetSize((m - ids).Keys, m.Keys);
  }

  lemma OpenKeepsInv(s: State, id: string, handle: Option<Handle>, sweepAt: Time, usedAt: Time)
    requires s.Inv() && (handle.Some? ==> handle.value !in s.issued)
    ensures s.Open(id, handle, sweepAt, usedAt).Inv()
  {
    DropKeepsInv(s, s.Expired(sweepAt));
    if s.Registers(id, handle, sweepAt) {
      ReplaceKeepsInv(s.Sweep(sweepAt), id, handle.value, usedAt);
    }
  }

  lemma ReplaceKeepsInv(m: State, id: string, handle: Handle, usedAt: Time)
    requires m.Inv() && !m.closed && (id in m.roots || |m.roots| < m.maxProjects) && handle !in m.issued
    ensures m.(
      roots := m.roots[id := handle],
      lastUsed := m.lastUsed[id := usedAt],
      issued := m.issued + {handle},
      closes := if id in m.roots then m.closes + multiset{m.roots[id]} else m.closes).Inv()
  {
    if id in m.roots {
      hide State.Held, State.Fates, State.Shape, State.Inv;
      DropKeepsInv(m, {id});
      RefillSlot(m, id, handle, usedAt);
    } else {
      InsertKeepsInv(m, id, handle, usedAt);
    }
  }

  /** Replacing a slot's handle is emptying the slot and filling it. */
  lemma RefillSlot(m: State, id: string, handle: Handle, usedAt: Time)
    requires m.Drop({id}).Inv() && |m.roots| <= m.maxProjects && !m.closed && id in m.roots && handle !in m.issued
    ensures m.(
      roots := m.roots[id := handle],
      lastUsed := m.lastUsed[id := usedAt],
      issued := m.issued + {handle},
      closes := m.closes + multiset{m.roots[id]}).Inv()
  {
    hide State.Held, State.Fates, State.Shape, State.Inv, State.HandlesOf;
    var emptied := m.Drop({id});
    SingleHandle(m, id);
    RefillMap(m.roots, id, handle);
    RefillMap(m.lastUsed, id, usedAt);
    InsertKeepsInv(emptied, id, handle, usedAt);
    assert multiset({m.roots[id]}) == multiset{m.roots[id]};
  }

  lemma RefillMap<K, V>(m: map<K, V>, k: K, v: V)
    ensures (m - {k})[k := v] == m[k := v]
    ensures k in m ==> |m - {k}| < |m|
  {
    if k in m {
      assert m == (m - {k})[k := m[k]];
    }
  }

  lemma LookupKeepsInv(s: State, id: string, sweepAt: Time, usedAt: Time)
    requires s.Inv()
    ensures s.Lookup(id, sweepAt, usedAt).Inv()
  {
    DropKeepsInv(s, s.Expired(sweepAt));
    var m, t := s.Sweep(sweepAt), s.Lookup(id, sweepAt, usedAt);
    if id != "" && id in m.roots {
      assert t.roots.Keys == t.lastUsed.Keys && t.Held() == m.Held();
      forall h
        ensures t.Fates(h) == m.Fates(h)
      {
      }
    }
  }

  lemma TakeKeepsInv(s: State, id: string, sweepAt: Time)
    requires s.Inv()
    ensures s.Take(id, sweepAt).Inv()
  {
    hide State.Held, State.HandlesOf, State.Shape;
    DropKeepsInv(s, s.Expired(sweepAt));
    var m, t := s.Sweep(sweepAt), s.Take(id, sweepAt);
    if id != "" && id in m.roots {
      var dropped := m.Drop({id});
      HeldAfterDrop(m, {id});
      SingleHandle(m, id);
      SameSlots(dropped, t);
      forall h
        ensures t.Fates(h) == if h in t.issued then 1 else 0
      {
        assert m.Fates(h) == if h in m.issued then 1 else 0;
      }
    }
  }

  lemma SingleHandle(s: State, id: string)
    requires id in s.roots
    ensures s.HandlesOf({id}) == {s.roots[id]} && s.roots[id] in s.Held()
  {
  }

  /** Held handles and shape depend on the slots alone. */
  lemma SameSlots(s: State, t: State)
    requires s.roots == t.roots && s.lastUsed == t.lastUsed && s.closed == t.closed && s.maxProjects == t.maxProjects
    ensures s.Held() == t.Held() && s.Shape() == t.Shape()
  {
  }

  lemma CloseTakenKeepsInv(s: State, handle: Handle)
    requires s.Inv()
    ensures s.CloseTaken(handle).Inv()
  {
    hide State.Held, State.Shape;
    var t := s.CloseTaken(handle);
    SameSlots(s, t);
    forall h
      ensures t.Fates(h) == if h in t.issued then 1 else 0
    {
      assert s.Fates(h) == if h in s.issued then 1 else 0;
    }
  }

  lemma CloseAllKeepsInv(s: State)
    requires s.Inv()
    ensures s.CloseAll().Inv()
  {
    DropKeepsInv(s, s.roots.Keys);
    var m, t := s.Drop(s.roots.Keys), s.CloseAll();
    assert t.roots == map[] && t.Held() == m.Held();
    forall h
      ensures t.Fates(h) == m.Fates(h)
    {
    }
  }

  // ----- Runs -----

  datatype Op =
    | OpenOp(id: string, handle: Option<Handle>, sweepAt: Time, usedAt: Time)
    | LookupOp(id: string, sweepAt: Time, usedAt: Time)
    | TakeOp(id: string, sweepAt: Time)
    | CloseTakenOp(h: Handle)
    | CloseAllOp

  /** Authorization opens a handle that was never open before. */
  predicate Possible(s: State, op: Op) {
    op.OpenOp? && op.handle.Some? ==> op.handle.value !in s.issued
  }

  function Apply(s: State, op: Op): State {
    match op
    case OpenOp(id, handle, sweepAt, usedAt) => s.Open(id, handle, sweepAt, usedAt)
    case LookupOp(id, sweepAt, usedAt) => s.Lookup(id, sweepAt, usedAt)
    case TakeOp(id, sweepAt) => s.Take(id, sweepAt)
    case CloseTakenOp(h) => s.CloseTaken(h)
    case CloseAllOp => s.CloseAll()
  }

  ghost predicate IsRun(states: seq<State>, ops: seq<Op>) {
    && |states| == |ops| + 1
    && states[0].roots == map[] && states[0].lastUsed == map[] && !states[0].closed
    && states[0].issued == {} && states[0].taken == {} && states[0].closes == multiset{}
    && forall i :: 0 <= i < |ops| ==> Possible(states[i], ops[i]) && states[i + 1] == Apply(states[i], ops[i])
  }

  lemma RunStep(states: seq<State>, ops: seq<Op>, i: nat)
    requires IsRun(states, ops) && i + 1 < |states|
    ensures |states| == |ops| + 1 && Possible(states[i], ops[i]) && states[i + 1] == Apply(states[i], ops[i])
  {
  }

  lemma StepKeepsInv(s: State, op: Op)
    requires s.Inv() && Possible(s, op)
    ensures Apply(s, op).Inv()
  {
    hide State.Inv;
    match op
    case OpenOp(id, handle, sweepAt, usedAt) => OpenKeepsInv(s, id, handle, sweepAt, usedAt);
    case LookupOp(id, sweepAt, usedAt) => LookupKeepsInv(s, id, sweepAt, usedAt);
    case TakeOp(id, sweepAt) => TakeKeepsInv(s, id, sweepAt);
    case CloseTakenOp(h) => CloseTakenKeepsInv(s, h);
    case CloseAllOp => CloseAllKeepsInv(s);
  }

  /** In every run: slots and leases agree, the quota holds, and every handle has exactly one fate. */
  lemma {:induction false} RunsKeepInv(states: seq<State>, ops: seq<Op>, i: nat)
    requires IsRun(states, ops) && i < |states|
    ensures states[i].Inv()
    decreases i
  {
    hide IsRun, State.Inv, Apply, Possible;
    if i == 0 {
      RunStart(states, ops);
    } else {
      RunsKeepInv(states, ops, i - 1);
      RunStep(states, ops, i - 1);
      StepKeepsInv(states[i - 1], ops[i - 1]);
    }
  }

  lemma RunStart(states: seq<State>, ops: seq<Op>)
    requires IsRun(states, ops)
    ensures |states| > 0 && states[0].Inv()
  {
    assert states[0].Held() == {};
    assert forall h :: states[0].Fates(h) == 0;
  }

  /** A lookup never hands out a closed handle, nor one that was taken out. */
  lemma LookupGivesOpenHandle(states: seq<State>, ops: seq<Op>, i: nat, id: string, now: Time)
    requires IsRun(states, ops) && i < |states| && states[i].Found(id, now).Some?
    ensures var h := states[i].Found(id, now).value;
      h in states[i].issued && h !in states[i].taken && states[i].closes[h] == 0
  {
    RunsKeepInv(states, ops, i);
    var h := states[i].Found(id, now).value;
    assert h in states[i].Held() && states[i].Fates(h) <= 1;
  }

  /** A sweep drops exactly the expired leases: the others keep their handle and their time. */
  lemma SweepIsExact(s: State, now: Time, id: string)
    requires s.Inv() && id in s.roots
    ensures id !in s.Sweep(now).roots <==> now - s.lastUsed[id] >= s.idleTimeout
    ensures id in s.Sweep(now).roots ==>
      s.Sweep(now).roots[id] == s.roots[id] && s.Sweep(now).lastUsed[id] == s.lastUsed[id]
    ensures s.Sweep(now).closes[s.roots[id]] == if now - s.lastUsed[id] >= s.idleTimeout then 1 else 0
  {
    assert s.roots[id] in s.Held() && s.Fates(s.roots[id]) <= 1;
  }

  /** Once the server is closed, its registry is empty in every later state. */
  lemma {:induction false} ClosedStaysEmpty(states: seq<State>, ops: seq<Op>, i: nat, j: nat)
    requires IsRun(states, ops) && i < j < |states| && ops[i] == CloseAllOp
    ensures states[j].closed && states[j].roots == map[] && states[j].lastUsed == map[]
    decreases j
  {
    hide IsRun, State.Inv, Possible, Apply;
    RunsKeepInv(states, ops, j);
    RunStep(states, ops, j - 1);
    ClosedForGood(states[j - 1], ops[j - 1]);
    if j > i + 1 {
      ClosedStaysEmpty(states, ops, i, j - 1);
    }
    ClosedIsEmpty(states[j]);
  }

  lemma ClosedForGood(s: State, op: Op)
    ensures s.closed || op == CloseAllOp ==> Apply(s, op).closed
  {
    hide State.HandlesOf, State.Expired;
  }

  lemma ClosedIsEmpty(s: State)
    requires s.Inv() && s.closed
    ensures s.roots == map[] && s.lastUsed == map[]
  {
    assert s.lastUsed.Keys == {};
  }

  lemma ClosesGrow(s: State, op: Op, h: Handle)
    ensures s.closes[h] <= Apply(s, op).closes[h]
  {
    hide State.HandlesOf, State.Expired;
  }

  /** Once a handle is closed it stays closed, and is never closed again. */
  lemma {:induction false} ClosedOnceForAll(states: seq<State>, ops: seq<Op>, h: Handle, i: nat, j: nat)
    requires IsRun(states, ops) && i <= j < |states| && states[i].closes[h] == 1
    ensures states[j].closes[h] == 1
    decreases j
  {
    hide State.Shape, State.Held, Apply, IsRun, Possible;
    if i < j {
      ClosedOnceForAll(states, ops, h, i, j - 1);
      RunStep(states, ops, j - 1);
      ClosesGrow(states[j - 1], ops[j - 1], h);
      RunsKeepInv(states, ops, j);
      assert states[j].Fates(h) <= 1;
    }
  }

  // ----- The server's registry as an object -----

  /** Dropping slots one at a time is dropping them together. */
  lemma DropOneMore(s: State, done: set<string>, id: string)
    requires s.Shape() && id in s.roots && id !in done
    ensures id in s.Drop(done).roots && s.Drop(done).roots[id] == s.roots[id]
    ensures s.Drop(done).roots - {id} == s.Drop(done + {id}).roots
    ensures s.Drop(done).lastUsed - {id} == s.Drop(done + {id}).lastUsed
    ensures s.Drop(done).closes + multiset{s.roots[id]} == s.Drop(done + {id}).closes
  {
    var h := s.roots[id];
    assert s.HandlesOf(done + {id}) == s.HandlesOf(done) + {h};
    assert h !in s.HandlesOf(done);
    assert multiset(s.HandlesOf(done) + {h}) == multiset(s.HandlesOf(done)) + multiset{h};
  }

  lemma DropNothing(s: State)
    ensures s.Drop({}) == s
  {
    assert s.HandlesOf({}) == {};
  }

  class Server {
    var roots: map<string, Handle>
    var lastUsed: map<string, Time>
    var closed: bool
    const maxProjects: nat
    const projectIdleTimeout: Time
    ghost var issued: set<Handle>
    ghost var taken: set<Handle>
    ghost var closes: multiset<Handle>

    ghost function View(): State
      reads this
    {
      State(roots, lastUsed, closed, maxProjects, projectIdleTimeout, issued, taken, closes)
    }

    constructor (maxProjects: nat, projectIdleTimeout: Time)
      ensures View() == State(map[], map[], false, maxProjects, projectIdleTimeout, {}, {}, multiset{}) && View().Inv()
    {
      this.maxProjects, this.projectIdleTimeout := maxProjects, projectIdleTimeout;
      roots, lastUsed, closed := map[], map[], false;
      issued, taken, closes := {}, {}, multiset{};
      new;
      assert View().Held() == {};
    }

    /** Closing a handle: a handle that is closed already must never get here. */
    method CloseHandle(h: Handle)
      requires closes[h] == 0
      modifies this`closes
      ensures closes == old(closes) + multiset{h}
    {
      closes := closes + multiset{h};
    }

    /** Reclaims idle handles. The caller holds the lock. */
    method ExpireRootsLocked(now: Time)
      requires View().Inv()
      modifies this`roots, this`lastUsed, this`closes
      ensures View() == old(View()).Sweep(now) && View().Inv()
    {
      hide State.Inv, State.Shape, State.HandlesOf, State.Drop;
      ghost var s := View();
      ghost var done: set<string> := {};
      ShapeOf(s);
      DropNothing(s);
      DropKeepsInv(s, s.Expired(now));
      var todo := lastUsed.Keys;
      while todo != {}
        invariant todo <= s.lastUsed.Keys && done == s.Expired(now) - todo
        invariant View() == s.Drop(done)
        decreases |todo|
      {
        var id :| id in todo;
        todo := todo - {id};
        DropsOnly(s, done, id);
        if now - lastUsed[id] >= projectIdleTimeout {
          DropOneMore(s, done, id);
          DropLeavesOpen(s, done, id);
          CloseHandle(roots[id]);
          roots := roots - {id};
          lastUsed := lastUsed - {id};
          DropFields(s, done);
          DropFields(s, done + {id});
          done := done + {id};
        }
      }
      assert done == s.Expired(now);
    }

    /** Registers a project under the quota; a replaced handle is closed. */
    method OpenProject(id: string, authorized: Option<Handle>, sweepAt: Time, usedAt: Time) returns (ok: bool)
      requires View().Inv() && (authorized.Some? ==> authorized.value !in issued)
      modifies this
      ensures View() == old(View()).Open(id, authorized, sweepAt, usedAt) && View().Inv()
      ensures ok <==> old(View()).Registers(id, authorized, sweepAt)
    {
      hide State.Inv, State.Sweep;
      OpenKeepsInv(View(), id, authorized, sweepAt, usedAt);
      ExpireRootsLocked(sweepAt);
      if closed || (id !in roots && |roots| >= maxProjects) {
        return false;
      }
      if authorized.None? {
        return false;
      }
      var previous := if id in roots then Some(roots[id]) else None;
      if previous.Some? {
        HeldIsOpen(View(), id);
      }
      roots := roots[id := authorized.value];
      issued := issued + {authorized.value};
      lastUsed := lastUsed[id := usedAt];
      if previous.Some? {
        CloseHandle(previous.value);
      }
      return true;
    }

    /** Looks a project up for one operation. */
    method Root(id: string, sweepAt: Time, usedAt: Time) returns (h: Option<Handle>)
      requires View().Inv()
      modifies this`roots, this`lastUsed, this`closes
      ensures View() == old(View()).Lookup(id, sweepAt, usedAt) && View().Inv()
      ensures h == old(View()).Found(id, sweepAt)
      ensures h.Some? <==> id != "" && id in old(roots) && sweepAt - old(lastUsed)[id] < projectIdleTimeout
      ensures h.Some? ==> h.value == old(roots)[id] && id in lastUsed && lastUsed[id] == usedAt
    {
      hide State.Inv, State.Sweep;
      FoundInFields(View(), id, sweepAt, usedAt);
      LookupKeepsInv(View(), id, sweepAt, usedAt);
      if id == "" {
        return None;
      }
      ExpireRootsLocked(sweepAt);
      if id !in roots {
        return None;
      }
      lastUsed := lastUsed[id := usedAt];
      return Some(roots[id]);
    }

    /** Takes a project's handle out of the registry. */
    method TakeRoot(id: string, sweepAt: Time) returns (h: Option<Handle>)
      requires View().Inv()
      modifies this
      ensures View() == old(View()).Take(id, sweepAt) && View().Inv()
      ensures h == old(View()).Found(id, sweepAt) && (h.Some? ==> h.value in taken)
    {
      hide State.Inv, State.Sweep;
      TakeKeepsInv(View(), id, sweepAt);
      if id == "" {
        return None;
      }
      ExpireRootsLocked(sweepAt);
      if id !in roots {
        return None;
      }
      h := Some(roots[id]);
      taken := taken + {roots[id]};
      roots := roots - {id};
      lastUsed := lastUsed - {id};
    }

    /** The close request: the taken handle is closed after the lock is released. */
    method CloseTakenRoot(h: Handle)
      requires View().Inv() && h in taken
      modifies this`taken, this`closes
      ensures View() == old(View()).CloseTaken(h) && View().Inv()
    {
      CloseTakenKeepsInv(View(), h);
      assert View().Fates(h) <= 1;
      CloseHandle(h);
      taken := taken - {h};
    }

    /** Closes every project the server owns; none can be opened afterwards. */
    method Close()
      requires View().Inv()
      modifies this
      ensures View() == old(View()).CloseAll() && View().Inv()
    {
      hide State.Inv, State.Shape, State.HandlesOf, State.Drop;
      ghost var s := View();
      CloseAllKeepsInv(s);
      ShapeOf(s);
      DropNothing(s);
      closed := true;
      ghost var done: set<string> := {};
      var todo := roots.Keys;
      while todo != {}
        invariant todo <= s.roots.Keys && done == s.roots.Keys - todo
        invariant View() == s.Drop(done).(closed := true)
        decreases |todo|
      {
        var id :| id in todo;
        todo := todo - {id};
        DropOneMore(s, done, id);
        DropLeavesOpen(s, done, id);
        CloseHandle(roots[id]);
        roots := roots - {id};
        lastUsed := lastUsed - {id};
        DropFields(s, done);
        DropFields(s, done + {id});
        done := done + {id};
      }
      assert done == s.roots.Keys;
    }
  }

  lemma ShapeOf(s: State)
    requires s.Inv()
    ensures s.Shape() && s.roots.Keys == s.lastUsed.Keys
  {
  }

  lemma DropFields(s: State, ids: set<string>)
    ensures s.Drop(ids) == s.(roots := s.Drop(ids).roots, lastUsed := s.Drop(ids).lastUsed, closes := s.Drop(ids).closes)
  {
  }

  lemma DropsOnly(s: State, done: set<string>, id: string)
    requires id in s.lastUsed && id !in done
    ensures id in s.Drop(done).lastUsed && s.Drop(done).lastUsed[id] == s.lastUsed[id]
  {
  }

  lemma DropLeavesOpen(s: State, done: set<string>, id: string)
    requires s.Inv() && id in s.roots && id !in done
    ensures s.Drop(done).closes[s.roots[id]] == 0
  {
    assert s.Fates(s.roots[id]) <= 1 && s.roots[id] in s.Held();
    assert s.roots[id] !in s.HandlesOf(done);
  }

  lemma HeldIsOpen(s: State, id: string)
    requires s.Inv() && id in s.roots
    ensures s.closes[s.roots[id]] == 0
  {
    assert s.Fates(s.roots[id]) <= 1 && s.roots[id] in s.Held();
  }
}
