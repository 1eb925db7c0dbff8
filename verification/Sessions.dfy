/**
 Sessions and the engine lock (10_controller.c:38-178, 12_persist.c:1072-1166,
 16_wire.c:1411-1422): a reader-writer lock taken for each statement, and kept across
 statements by a session whose transaction is open.

 Each session goes through ProcessStatement one step at a time and the steps of different
 sessions interleave freely. `Submit` covers what happens before the lock: reading the
 statement is the session's own business.
 */
module Sessions {
  import opened Common

  datatype Statement = Select | Change | Begin | Commit | Rollback

  /** Where a session is in ProcessStatement, and whether it took the lock shared. */
  datatype Pc =
    | Idle
    | Waiting(stmt: Statement, shared: bool)
    | Running(stmt: Statement, shared: bool)
    | Executed(stmt: Statement, shared: bool)
    | Closed

  /** `holding` is the thread-local holdingForTransaction. */
  datatype Session = Session(pc: Pc, holding: bool)

  /** `open` is transactionOpen; `memory` says there is no file to roll back to. */
  datatype Engine = Engine(sessions: seq<Session>, writer: Option<nat>, readers: set<nat>, open: bool, memory: bool)

  datatype Event =
    | Submit(s: nat, stmt: Statement)
    | Lock(s: nat)
    | Execute(s: nat, ok: bool)  // ok is whether the semantic check and the work itself succeed
    | Finish(s: nat)
    | Disconnect(s: nat)

  function Start(sessions: nat, memory: bool): Engine {
    Engine(seq(sessions, _ => Session(Idle, false)), None, {}, false, memory)
  }

  predicate Enabled(e: Engine, v: Event) {
    v.s < |e.sessions| &&
    var me := e.sessions[v.s];
    match v
    case Submit(_, _) => me.pc.Idle?
    case Lock(_) => me.pc.Waiting? && e.writer.None? && (me.pc.shared || e.readers == {})
    case Execute(_, _) => me.pc.Running?
    case Finish(_) => me.pc.Executed?
    case Disconnect(_) => me.pc.Idle?
  }

  /** What a statement that gets through does to transactionOpen. */
  function Effect(open: bool, memory: bool, stmt: Statement): bool {
    match stmt
    case Begin => true            // refused when one is open already, and then it still is
    case Commit => false          // refused when none is open, and then none is
    case Rollback => open && memory  // refused for :memory:, which leaves the transaction open
    case _ => open
  }

  function With(e: Engine, s: nat, me: Session): Engine
    requires s < |e.sessions|
  {
    e.(sessions := e.sessions[s := me])
  }

  function Step(e: Engine, v: Event): Engine
    requires Enabled(e, v)
  {
    var s := v.s;
    var me := e.sessions[s];
    match v
    case Submit(_, stmt) =>
      With(e, s, me.(pc := if me.holding then Running(stmt, false) else Waiting(stmt, stmt.Select?)))
    case Lock(_) =>
      var locked := With(e, s, me.(pc := Running(me.pc.stmt, me.pc.shared)));
      if me.pc.shared then locked.(readers := e.readers + {s}) else locked.(writer := Some(s))
    case Execute(_, ok) =>
      var ran := With(e, s, me.(pc := Executed(me.pc.stmt, me.pc.shared)));
      if ok then ran.(open := Effect(e.open, e.memory, me.pc.stmt)) else ran
    case Finish(_) =>
      if me.holding then
        if e.open then With(e, s, Session(Idle, true)) else With(e, s, Session(Idle, false)).(writer := None)
      else if me.pc.shared then With(e, s, Session(Idle, false)).(readers := e.readers - {s})
      else if e.open then With(e, s, Session(Idle, true))
      else With(e, s, Session(Idle, false)).(writer := None)
    case Disconnect(_) =>
      if me.holding then With(e, s, Session(Closed, false)).(open := false, writer := None)
      else With(e, s, Session(Closed, false))
  }

  // ---------- the invariant ----------

  /** What one session has of the lock, by where it is. */
  predicate SessionOk(e: Engine, s: nat)
    requires s < |e.sessions|
  {
    var me := e.sessions[s];
    && (s in e.readers <==> (me.pc.Running? || me.pc.Executed?) && me.pc.shared)
    && (e.writer == Some(s) <==> me.holding || ((me.pc.Running? || me.pc.Executed?) && !me.pc.shared))
    && (me.holding ==> !me.pc.Closed? && !me.pc.Waiting? && (me.pc.Running? || me.pc.Executed? ==> !me.pc.shared))
    && (me.pc.Waiting? || me.pc.Running? || me.pc.Executed? ==> (me.pc.shared <==> me.pc.stmt.Select? && !me.holding))
    && (me.holding && !me.pc.Executed? ==> e.open)
  }

  predicate Inv(e: Engine) {
    && (forall s :: 0 <= s < |e.sessions| ==> SessionOk(e, s))
    && (e.writer.Some? ==> e.writer.value < |e.sessions| && e.readers == {})
    && (e.open ==> e.writer.Some? && Owner(e, e.writer.value))
  }

  /** The session an open transaction belongs to: it holds the lock, or has just run BEGIN under it. */
  predicate Owner(e: Engine, s: nat) {
    s < |e.sessions| && (e.sessions[s].holding || (e.sessions[s].pc.Executed? && !e.sessions[s].pc.shared))
  }

  lemma StartOk(sessions: nat, memory: bool)
    ensures Inv(Start(sessions, memory))
  {
  }

  /** A step of one session leaves the others as they are. */
  lemma OthersOk(e: Engine, r: Engine, s: nat)
    requires Inv(e) && s < |e.sessions| == |r.sessions| && r.sessions == e.sessions[s := r.sessions[s]]
    requires forall t :: t != s && 0 <= t < |e.sessions| ==> (t in r.readers <==> t in e.readers)
    requires forall t :: t != s && 0 <= t < |e.sessions| ==> (r.writer == Some(t) <==> e.writer == Some(t))
    requires e.open ==> r.open || e.writer == Some(s)
    ensures forall t :: t != s && 0 <= t < |r.sessions| ==> SessionOk(r, t)
  {
    forall t | t != s && 0 <= t < |r.sessions| ensures SessionOk(r, t) {
      assert SessionOk(e, t);
    }
  }

  lemma StepKeeps(e: Engine, v: Event)
    requires Inv(e) && Enabled(e, v)
    ensures Inv(Step(e, v))
  {
    var s, r := v.s, Step(e, v);
    assert SessionOk(e, s);
    assert r.sessions == e.sessions[s := r.sessions[s]];
    if e.writer.Some? && e.writer.value != s {
      assert SessionOk(e, e.writer.value);
    }
    OthersOk(e, r, s);
    assert SessionOk(r, s);
  }

  // ---------- over every run ----------

  ghost predicate Run(es: seq<Engine>, vs: seq<Event>) {
    && |es| == |vs| + 1
    && (exists n: nat, memory: bool :: es[0] == Start(n, memory))
    && forall i :: 0 <= i < |vs| ==> Enabled(es[i], vs[i]) && es[i + 1] == Step(es[i], vs[i])
  }

  lemma {:induction false} RunKeeps(es: seq<Engine>, vs: seq<Event>, k: nat)
    requires Run(es, vs) && k < |es|
    ensures Inv(es[k])
  {
    if k == 0 {
      var n: nat, memory: bool :| es[0] == Start(n, memory);
      StartOk(n, memory);
    } else {
      RunKeeps(es, vs, k - 1);
      StepKeeps(es[k - 1], vs[k - 1]);
    }
  }

  predicate Inside(e: Engine, s: nat) {
    s < |e.sessions| && (e.sessions[s].pc.Running? || e.sessions[s].pc.Executed?)
  }

  /** A statement that may change anything runs with no other statement inside the engine. */
  lemma WritersAreAlone(es: seq<Engine>, vs: seq<Event>, k: nat, s: nat, t: nat)
    requires Run(es, vs) && k < |es| && s != t && Inside(es[k], s) && Inside(es[k], t)
    ensures es[k].sessions[s].pc.shared && es[k].sessions[t].pc.shared
    ensures es[k].sessions[s].pc.stmt.Select? && es[k].sessions[t].pc.stmt.Select?
  {
    RunKeeps(es, vs, k);
    assert SessionOk(es[k], s) && SessionOk(es[k], t);
  }

  /** No statement is inside the engine. */
  ghost predicate Quiet(e: Engine) {
    forall s :: 0 <= s < |e.sessions| ==> !Inside(e, s)
  }

  ghost predicate Holds(e: Engine, s: nat) {
    s < |e.sessions| && e.sessions[s].holding
  }

  lemma QuietParts(e: Engine, s: nat)
    requires Inv(e) && Quiet(e) && s < |e.sessions|
    ensures s !in e.readers && (e.writer == Some(s) <==> Holds(e, s)) && (Holds(e, s) ==> e.open)
  {
    assert SessionOk(e, s) && !Inside(e, s);
  }

  /** Between statements a transaction is open exactly when one session holds, and it owns the lock. */
  lemma OpenMeansHeld(es: seq<Engine>, vs: seq<Event>, k: nat)
    requires Run(es, vs) && k < |es| && Quiet(es[k])
    ensures es[k].open <==> exists s: nat :: Holds(es[k], s)
    ensures forall s: nat :: Holds(es[k], s) ==> es[k].writer == Some(s)
    ensures !es[k].open ==> es[k].writer.None?
    ensures forall s: nat :: s < |es[k].sessions| ==> s !in es[k].readers
  {
    RunKeeps(es, vs, k);
    var e := es[k];
    forall s: nat | s < |e.sessions|
      ensures s !in e.readers && (e.writer == Some(s) <==> Holds(e, s)) && (Holds(e, s) ==> e.open)
    {
      QuietParts(e, s);
    }
    if e.writer.Some? {
      QuietParts(e, e.writer.value);
    }
  }

  /** The lock is only ever given back by the session that has it. */
  lemma ReleasesAreOwned(es: seq<Engine>, vs: seq<Event>, k: nat)
    requires Run(es, vs) && k < |vs|
    ensures es[k].writer.Some? && es[k + 1].writer != es[k].writer ==> es[k].writer == Some(vs[k].s) && es[k + 1].writer.None?
    ensures forall t :: t in es[k].readers && t !in es[k + 1].readers ==> t == vs[k].s
  {
    RunKeeps(es, vs, k);
    RunKeeps(es, vs, k + 1);
    assert SessionOk(es[k], vs[k].s);
  }

  /** A session with nothing left to do and no transaction has nothing of the lock. */
  lemma IdleHasNothing(es: seq<Engine>, vs: seq<Event>, k: nat, s: nat)
    requires Run(es, vs) && k < |es| && s < |es[k].sessions|
    requires !Inside(es[k], s) && !es[k].sessions[s].holding
    ensures s !in es[k].readers && es[k].writer != Some(s)
  {
    RunKeeps(es, vs, k);
    assert SessionOk(es[k], s);
  }

  // ---------- isolation ----------

  /** The statements that end session s's transaction, or its leaving. */
  predicate Ends(e: Engine, v: Event, s: nat) {
    v.s == s && s < |e.sessions| &&
    match v
    case Disconnect(_) => true
    case Execute(_, ok) => ok && e.sessions[s].pc.Running? && (e.sessions[s].pc.stmt.Commit? || (e.sessions[s].pc.stmt.Rollback? && !e.memory))
    case _ => false
  }

  /** Once its transaction is open, a session owns the engine until it ends it. */
  lemma OwnerStays(e: Engine, v: Event, s: nat)
    requires Inv(e) && Enabled(e, v) && e.open && Owner(e, s) && e.writer == Some(s) && !Ends(e, v, s)
    ensures Step(e, v).open && Owner(Step(e, v), s) && Step(e, v).writer == Some(s)
    ensures v.Execute? ==> v.s == s
  {
    assert SessionOk(e, s);
    assert SessionOk(e, v.s);
  }

  lemma {:induction false} TransactionOwns(es: seq<Engine>, vs: seq<Event>, i: nat, j: nat, s: nat)
    requires Run(es, vs) && i < j < |es|
    requires vs[i] == Execute(s, true) && es[i].sessions[s].pc.Running? && es[i].sessions[s].pc.stmt.Begin?
    requires forall k :: i < k < j ==> !Ends(es[k], vs[k], s)
    ensures es[j].open && Owner(es[j], s) && es[j].writer == Some(s)
    decreases j
  {
    RunKeeps(es, vs, j - 1);
    if j == i + 1 {
      assert SessionOk(es[i], s);
    } else {
      TransactionOwns(es, vs, i, j - 1, s);
      OwnerStays(es[j - 1], vs[j - 1], s);
    }
  }

  /**
   Isolation, over every interleaving: from a session's BEGIN until its COMMIT, its ROLLBACK or
   its disconnection, every statement that runs is its own.
   */
  lemma TransactionIsIsolated(es: seq<Engine>, vs: seq<Event>, i: nat, j: nat, s: nat)
    requires Run(es, vs) && i < j < |vs|
    requires vs[i] == Execute(s, true) && es[i].sessions[s].pc.Running? && es[i].sessions[s].pc.stmt.Begin?
    requires forall k :: i < k < j ==> !Ends(es[k], vs[k], s)
    ensures vs[j].Execute? ==> vs[j].s == s
  {
    TransactionOwns(es, vs, i, j, s);
    RunKeeps(es, vs, j);
    assert SessionOk(es[j], s);
    assert SessionOk(es[j], vs[j].s);
  }

  /** A ROLLBACK that :memory: refuses leaves the transaction open and its session still holding. */
  lemma RefusedRollbackKeeps(es: seq<Engine>, vs: seq<Event>, k: nat, s: nat)
    requires Run(es, vs) && k + 1 < |vs| && vs[k] == Execute(s, true) && vs[k + 1] == Finish(s)
    requires es[k].sessions[s].pc == Running(Rollback, false) && es[k].sessions[s].holding && es[k].memory
    ensures es[k + 2].open && es[k + 2].sessions[s] == Session(Idle, true) && es[k + 2].writer == Some(s)
  {
    RunKeeps(es, vs, k);
    assert SessionOk(es[k], s);
  }

  // ---------- a transaction begins and ends ----------

  /** A successful BEGIN of session s. */
  predicate Begins(e: Engine, v: Event, s: nat) {
    v == Execute(s, true) && s < |e.sessions| && e.sessions[s].pc.Running? && e.sessions[s].pc.stmt.Begin?
  }

  /** Some session has begun a transaction among the first k events, and has not ended it since. */
  ghost predicate Begun(es: seq<Engine>, vs: seq<Event>, k: nat)
    requires |es| == |vs| + 1 && k <= |vs|
  {
    exists i, s :: 0 <= i < k && Begins(es[i], vs[i], s) && !EndedSince(es, vs, i, k, s)
  }

  ghost predicate EndedSince(es: seq<Engine>, vs: seq<Event>, i: int, k: nat, s: nat)
    requires |es| == |vs| + 1 && 0 <= i < k <= |vs|
  {
    exists j :: i < j < k && Ends(es[j], vs[j], s)
  }

  /** What one step does to transactionOpen: nothing but a BEGIN opens it, and its owner's end closes it. */
  lemma StepOpens(e: Engine, v: Event)
    requires Inv(e) && Enabled(e, v)
    ensures !e.open && Step(e, v).open ==> Begins(e, v, v.s)
    ensures forall s: nat :: e.open && Owner(e, s) && e.writer == Some(s) && Ends(e, v, s) ==> !Step(e, v).open
  {
    assert SessionOk(e, v.s);
  }

  /** Over every run, a transaction is open exactly when somebody has begun one and not ended it. */
  lemma {:induction false} OpenIffBegun(es: seq<Engine>, vs: seq<Event>, k: nat)
    requires Run(es, vs) && k < |es|
    ensures es[k].open <==> Begun(es, vs, k)
    decreases k
  {
    hide Inv, Step, Enabled, Owner, Ends, Begins;
    if Begun(es, vs, k) {
      var i, s :| 0 <= i < k && Begins(es[i], vs[i], s) && !EndedSince(es, vs, i, k, s);
      BegunStaysOpen(es, vs, i, k, s);
    }
    if es[k].open {
      OpenWasBegun(es, vs, k);
    }
  }

  lemma BegunStaysOpen(es: seq<Engine>, vs: seq<Event>, i: nat, k: nat, s: nat)
    requires Run(es, vs) && i < k < |es| && Begins(es[i], vs[i], s) && !EndedSince(es, vs, i, k, s)
    ensures es[k].open && Owner(es[k], s) && es[k].writer == Some(s)
  {
    hide Inv, Step, Enabled, Owner, Ends;
    TransactionOwns(es, vs, i, k, s);
  }

  lemma StartedClosed(es: seq<Engine>, vs: seq<Event>)
    requires Run(es, vs)
    ensures !es[0].open
  {
  }

  lemma {:induction false} OpenWasBegun(es: seq<Engine>, vs: seq<Event>, k: nat)
    requires Run(es, vs) && k < |es| && es[k].open
    ensures Begun(es, vs, k)
    decreases k
  {
    hide Inv, Step, Enabled, Owner, Ends, Begins;
    StartedClosed(es, vs);
    RunKeeps(es, vs, k - 1);
    StepOpens(es[k - 1], vs[k - 1]);
    if es[k - 1].open {
      OpenWasBegun(es, vs, k - 1);
      var i, s :| 0 <= i < k - 1 && Begins(es[i], vs[i], s) && !EndedSince(es, vs, i, k - 1, s);
      BegunStaysOpen(es, vs, i, k - 1, s);
      assert !Ends(es[k - 1], vs[k - 1], s);
      assert !EndedSince(es, vs, i, k, s);
    } else {
      assert !EndedSince(es, vs, k - 1, k, vs[k - 1].s);
    }
  }

  /** Session s is about to finish a statement that has ended every transaction. */
  ghost predicate Closing(e: Engine, s: nat) {
    && s < |e.sessions| && e.sessions[s].pc.Executed? && !e.sessions[s].pc.shared
    && !e.open && e.writer == Some(s)
  }

  lemma OthersWait(e: Engine, v: Event, s: nat)
    requires Inv(e) && Enabled(e, v) && Closing(e, s) && v.s != s
    ensures Closing(Step(e, v), s)
  {
    assert SessionOk(e, s) && SessionOk(e, v.s);
  }

  lemma {:induction false} StaysClosing(es: seq<Engine>, vs: seq<Event>, i: nat, j: nat, s: nat)
    requires Run(es, vs) && i <= j < |es| && Closing(es[i], s) && forall k :: i <= k < j ==> vs[k].s != s
    ensures Closing(es[j], s)
    decreases j
  {
    hide Inv, Step, Enabled, Closing;
    if i < j {
      StaysClosing(es, vs, i, j - 1, s);
      RunKeeps(es, vs, j - 1);
      OthersWait(es[j - 1], vs[j - 1], s);
    }
  }

  /** Nobody has anything of the lock, so whoever waits next may have it. */
  ghost predicate LockFree(e: Engine) {
    && !e.open && e.writer.None? && e.readers == {}
    && forall t: nat :: t < |e.sessions| && e.sessions[t].pc.Waiting? ==> Enabled(e, Lock(t))
  }

  lemma ClosingFrees(e: Engine, s: nat)
    requires Inv(e) && Closing(e, s)
    ensures Enabled(e, Finish(s)) && Step(e, Finish(s)).sessions[s] == Session(Idle, false) && LockFree(Step(e, Finish(s)))
  {
    assert SessionOk(e, s);
  }

  /**
   COMMIT ends a transaction, and so does a ROLLBACK there is a file for: once the session that ran
   it has finished - whatever the others did meanwhile - none is open and the lock is free for the next.
   */
  lemma EndFreesLock(es: seq<Engine>, vs: seq<Event>, i: nat, j: nat, s: nat)
    requires Run(es, vs) && i < j < |vs| && vs[i] == Execute(s, true) && vs[j] == Finish(s)
    requires es[i].sessions[s].pc.stmt.Commit? || (es[i].sessions[s].pc.stmt.Rollback? && !es[i].memory)
    requires forall k :: i < k < j ==> vs[k].s != s
    ensures es[j + 1].sessions[s] == Session(Idle, false) && LockFree(es[j + 1])
  {
    RunKeeps(es, vs, i);
    RunKeeps(es, vs, j);
    assert SessionOk(es[i], s);
    StaysClosing(es, vs, i + 1, j, s);
    ClosingFrees(es[j], s);
  }

  /** So does the session's leaving, in the middle of its transaction. */
  lemma DisconnectFreesLock(es: seq<Engine>, vs: seq<Event>, k: nat, s: nat)
    requires Run(es, vs) && k < |vs| && vs[k] == Disconnect(s) && es[k].sessions[s].holding
    ensures es[k + 1].sessions[s] == Session(Closed, false) && LockFree(es[k + 1])
  {
    RunKeeps(es, vs, k);
    assert SessionOk(es[k], s);
  }

  // ---------- who may go on ----------

  /** Session t keeps writers out, or everybody. */
  predicate Blocks(e: Engine, t: nat, shared: bool) {
    t < |e.sessions| && (e.sessions[t].holding || (Inside(e, t) && !(shared && e.sessions[t].pc.stmt.Select?)))
  }

  /**
   Who waits may have the lock exactly when nobody blocks it: a change waits for every statement
   inside and for an open transaction, a SELECT only for changes and for an open transaction.
   */
  lemma LockIffUnblocked(es: seq<Engine>, vs: seq<Event>, k: nat, s: nat)
    requires Run(es, vs) && k < |es| && s < |es[k].sessions| && es[k].sessions[s].pc.Waiting?
    ensures Enabled(es[k], Lock(s)) <==> forall t :: !Blocks(es[k], t, es[k].sessions[s].pc.stmt.Select?)
  {
    RunKeeps(es, vs, k);
    var e := es[k];
    assert SessionOk(e, s);
    forall t: nat | t < |e.sessions|
      ensures Blocks(e, t, true) <==> e.writer == Some(t)
      ensures Blocks(e, t, false) <==> e.writer == Some(t) || t in e.readers
    {
      assert SessionOk(e, t);
    }
    ReadersExist(es, vs, k);
    if e.readers != {} {
      var t :| t in e.readers;
      assert Blocks(e, t, false);
    }
    if e.writer.Some? {
      assert Blocks(e, e.writer.value, true) && Blocks(e, e.writer.value, false);
    }
  }

  lemma {:induction false} ReadersExist(es: seq<Engine>, vs: seq<Event>, k: nat)
    requires Run(es, vs) && k < |es|
    ensures forall t :: t in es[k].readers ==> t < |es[k].sessions|
  {
    if k == 0 {
      var n: nat, memory: bool :| es[0] == Start(n, memory);
    } else {
      ReadersExist(es, vs, k - 1);
      assert es[k] == Step(es[k - 1], vs[k - 1]);
    }
  }
}
