/**
 The extended query protocol of one connection (src/extended.rs, with the simple query adapter of
 src/server.rs): pywire's own resources, pgwire's portal store beside them, and every message that
 changes either.

 Each `.await` of the original is a call of `Suspend`, the only place where another branch can run:
 there the connection task may be dropped by shutdown, which first takes the `closing` mutex, or
 aborted outright, which takes nothing.  `Suspend` requires `Steady`, so what `Steady` says is
 proved at every step boundary, whatever Python answers.
 */
module Extended {
  import opened Wrappers
  import opened Ledger
  import EmptyQuery

  datatype BoundPortal = BoundPortal(instance: PyRef, portal: PyRef)

  datatype PortalEntry = PortalEntry(statement: Name, bound: Option<BoundPortal>)

  /** An entry of pgwire's store.  `statement` is the parsed statement object. */
  datatype Entry = Empty | Value(statement: PyRef)

  datatype Error =
    | PythonRaised | NotConfigured | DuplicateStatement | DuplicatePortal | ProtocolViolation
    | StatementNotFound | PortalNotFound | BadPortal | InvalidTarget | NotReadyForQuery | SendFailed

  /** How an asynchronous function ended; `Dropped` when its future was dropped at an await. */
  datatype Outcome = Done | Failed(error: Error) | Dropped

  /** What came of awaiting a Python coroutine. */
  datatype Reply = Returned(value: PyRef) | Threw | Lost

  /** What happens at an await: who may drop the task there, and what Python answers if nobody does. */
  datatype Choice = Choice(shutdown: bool, abort: bool, ok: bool, value: PyRef)

  datatype Message =
    | Parse(name: Name, query: string)
    | Bind(portal: Name, statement: Name, parameterFormats: seq<int>, parameters: nat, resultFormats: seq<int>)
    | Describe(portal: Name)
    | Execute(portal: Name)
    | CloseTarget(target: char, name: Name)
    | Sync
    | Query

  type Portals = map<Name, PortalEntry>
  type Statements = map<Name, PyRef>
  type Store = map<Name, Entry>

  ghost predicate Held(r: Resource, ps: Portals, ss: Statements, session: Option<PyRef>) {
    match r
    case Portal(n) => n in ps && ps[n].bound.Some?
    case Statement(n) => n in ss
    case Session => session.Some?
  }

  ghost function HoldingOf(r: Resource, ps: Portals, ss: Statements, session: Option<PyRef>): Holding
    requires Held(r, ps, ss, session)
  {
    match r
    case Portal(n) =>
      Holding(ps[n].bound.value.instance, Some(Statement(ps[n].statement)), Some(ps[n].bound.value.portal))
    case Statement(n) => Holding(ss[n], None, None)
    case Session => Holding(session.value, None, None)
  }

  ghost predicate SameHolding(r: Resource, l: Ledger, ps: Portals, ss: Statements, session: Option<PyRef>) {
    && (r in l.live <==> Held(r, ps, ss, session))
    && (r in l.live ==> l.live[r] == HoldingOf(r, ps, ss, session))
  }

  /** The ledger and pywire's resources hold the same things. */
  ghost predicate Matches(l: Ledger, ps: Portals, ss: Statements, session: Option<PyRef>) {
    forall r: Resource :: SameHolding(r, l, ps, ss, session)
  }

  /** `t` continues `s` with protocol closes of portals in `names` only. */
  ghost predicate OnlyClosesPortals(s: Trace, t: Trace, names: set<Name>) {
    && s <= t
    && forall i | |s| <= i < |t| ::
      t[i].Close? && t[i].r.Portal? && t[i].r.name in names && !InCleanup(t[i].how)
  }

  ghost predicate OnlyCleansUp(s: Trace, t: Trace) {
    && s <= t
    && forall i | |s| <= i < |t| :: t[i].Close? && InCleanup(t[i].how)
  }

  /** A portal is bound exactly where pgwire holds a value, was made from the statement that is still
      stored under its statement's name, and created by the connection's handler. */
  ghost predicate PortalAgrees(n: Name, ps: Portals, storePs: Store, storeSs: Store, handler: Option<PyRef>) {
    && (n in ps <==> n in storePs)
    && (n in ps ==>
          && ps[n].statement in storeSs
          && storePs[n] == storeSs[ps[n].statement]
          && (ps[n].bound.Some? <==> storePs[n].Value?)
          && (ps[n].bound.Some? ==> handler == Some(ps[n].bound.value.instance)))
  }

  ghost predicate StatementAgrees(n: Name, ss: Statements, storeSs: Store, handler: Option<PyRef>) {
    && (n in ss <==> n in storeSs && storeSs[n].Value?)
    && (n in ss ==> handler == Some(ss[n]))
  }

  /** pywire's resources and pgwire's store describe the same portals and statements. */
  ghost predicate Agreement(ps: Portals, ss: Statements, storePs: Store, storeSs: Store, handler: Option<PyRef>) {
    && (forall n :: PortalAgrees(n, ps, storePs, storeSs, handler))
    && (forall n :: StatementAgrees(n, ss, storeSs, handler))
  }

  ghost function HowOf(reply: Reply): How {
    match reply
    case Returned(_) => Succeeded
    case Threw => Raised
    case Lost => Abandoned
  }

  ghost function ClosedStatement(ss: Statements, name: Name, how: How): Trace {
    if name in ss then [Event.Close(Statement(name), ss[name], how)] else []
  }

  ghost function ClosedPortal(ps: Portals, name: Name, how: How): Trace {
    if name in ps && ps[name].bound.Some?
    then [Event.Close(Portal(name), ps[name].bound.value.instance, how)]
    else []
  }

  // ---------- One change of the maps at a time --------------------------

  lemma NoDependents(l: Ledger, ps: Portals, ss: Statements, session: Option<PyRef>, r: Resource)
    requires Matches(l, ps, ss, session)
    requires r.Statement? ==> forall n :: n in ps && ps[n].bound.Some? ==> ps[n].statement != r.name
    ensures forall d :: d in l.live ==> l.live[d].on != Some(r)
  {
    forall d | d in l.live ensures l.live[d].on != Some(r) {
      assert SameHolding(d, l, ps, ss, session);
    }
  }

  /** A ledger and maps that differ from matching ones in one resource only match if that one does. */
  lemma MatchesBut(l: Ledger, ps: Portals, ss: Statements, session: Option<PyRef>,
                   l': Ledger, ps': Portals, ss': Statements, r: Resource)
    requires Matches(l, ps, ss, session) && SameHolding(r, l', ps', ss', session)
    requires l.live - {r} == l'.live - {r}
    requires ps == ps' || (r.Portal? && ps - {r.name} == ps' - {r.name})
    requires ss == ss' || (r.Statement? && ss - {r.name} == ss' - {r.name})
    ensures Matches(l', ps', ss', session)
  {
    forall d: Resource | d != r ensures SameHolding(d, l', ps', ss', session) {
      assert SameHolding(d, l, ps, ss, session);
      assert d in l.live - {r} <==> d in l'.live - {r};
      if d.Portal? && ps != ps' {
        assert d.name in ps - {r.name} <==> d.name in ps' - {r.name};
      } else if d.Statement? && ss != ss' {
        assert d.name in ss - {r.name} <==> d.name in ss' - {r.name};
      }
    }
  }

  /** Nothing abandoned, no cleanup begun: the protocol may go on. */
  ghost predicate Serving(l: Ledger) {
    !l.cleaning && !l.abandoned
  }

  /** Closing a portal is legal as long as the protocol goes on, and later for the cleanup; it leaves the
      maps in step with the ledger. */
  lemma PortalCloses(l: Ledger, ps: Portals, ss: Statements, session: Option<PyRef>, name: Name, how: How)
    requires Matches(l, ps, ss, session) && (Serving(l) || InCleanup(how)) && !how.Released?
    requires name in ps && ps[name].bound.Some?
    ensures var e := Close(Portal(name), ps[name].bound.value.instance, how);
      && Allowed(l, e)
      && Matches(Apply(l, e), if Ends(how) then ps - {name} else ps, ss, session)
  {
    var r := Portal(name);
    assert SameHolding(r, l, ps, ss, session);
    NoDependents(l, ps, ss, session, r);
    var l' := Apply(l, Close(r, ps[name].bound.value.instance, how));
    MatchesBut(l, ps, ss, session, l', if Ends(how) then ps - {name} else ps, ss, r);
  }

  function DependentsOf(ps: Portals, statement: Name): set<Name> {
    set n | n in ps && ps[n].statement == statement
  }

  /** Closing a statement on which no portal depends is legal as long as the protocol goes on. */
  lemma StatementCloses(l: Ledger, ps: Portals, ss: Statements, session: Option<PyRef>, name: Name, how: How)
    requires Matches(l, ps, ss, session) && Serving(l) && !InCleanup(how)
    requires name in ss && DependentsOf(ps, name) == {}
    ensures var e := Close(Statement(name), ss[name], how);
      && Allowed(l, e)
      && Matches(Apply(l, e), ps, if Ends(how) then ss - {name} else ss, session)
  {
    var r := Statement(name);
    assert SameHolding(r, l, ps, ss, session);
    forall n | n in ps && ps[n].bound.Some? ensures ps[n].statement != name {
      assert n !in DependentsOf(ps, name);
    }
    NoDependents(l, ps, ss, session, r);
    var l' := Apply(l, Close(r, ss[name], how));
    MatchesBut(l, ps, ss, session, l', ps, if Ends(how) then ss - {name} else ss, r);
  }

  lemma SameNames(ps: Portals, ss: Statements, storePs: Store, storeSs: Store, handler: Option<PyRef>)
    requires Agreement(ps, ss, storePs, storeSs, handler)
    ensures ps.Keys == storePs.Keys
  {
    forall n ensures n in ps <==> n in storePs {
      assert PortalAgrees(n, ps, storePs, storeSs, handler);
    }
  }

  lemma PortalGone(ps: Portals, ss: Statements, storePs: Store, storeSs: Store, handler: Option<PyRef>, name: Name)
    requires Agreement(ps, ss, storePs, storeSs, handler)
    ensures Agreement(ps - {name}, ss, storePs - {name}, storeSs, handler)
  {
    forall n ensures PortalAgrees(n, ps - {name}, storePs - {name}, storeSs, handler) {
      assert PortalAgrees(n, ps, storePs, storeSs, handler);
    }
  }

  lemma StatementGone(ps: Portals, ss: Statements, storePs: Store, storeSs: Store, handler: Option<PyRef>, name: Name)
    requires Agreement(ps, ss, storePs, storeSs, handler) && DependentsOf(ps, name) == {}
    ensures Agreement(ps, ss - {name}, storePs, storeSs - {name}, handler)
  {
    forall n ensures PortalAgrees(n, ps, storePs, storeSs - {name}, handler) {
      assert PortalAgrees(n, ps, storePs, storeSs, handler) && n !in DependentsOf(ps, name);
    }
    forall n ensures StatementAgrees(n, ss - {name}, storeSs - {name}, handler) {
      assert StatementAgrees(n, ss, storeSs, handler);
    }
  }

  lemma StatementStored(ps: Portals, ss: Statements, storePs: Store, storeSs: Store, handler: Option<PyRef>,
                        name: Name, entry: Entry, instance: PyRef)
    requires Agreement(ps, ss, storePs, storeSs, handler)
    requires name !in storeSs && (entry.Value? ==> handler == Some(instance))
    ensures Agreement(ps, if entry.Value? then ss[name := instance] else ss, storePs, storeSs[name := entry], handler)
    ensures name !in ss
  {
    var ss', storeSs' := if entry.Value? then ss[name := instance] else ss, storeSs[name := entry];
    assert StatementAgrees(name, ss, storeSs, handler);
    forall n ensures PortalAgrees(n, ps, storePs, storeSs', handler) {
      assert PortalAgrees(n, ps, storePs, storeSs, handler);
    }
    forall n ensures StatementAgrees(n, ss', storeSs', handler) {
      assert StatementAgrees(n, ss, storeSs, handler);
    }
  }

  lemma StatementOpens(l: Ledger, ps: Portals, ss: Statements, session: Option<PyRef>, name: Name, instance: PyRef)
    requires Matches(l, ps, ss, session) && Serving(l) && name !in ss
    ensures var e := Acquire(Statement(name), instance, None, None);
      Allowed(l, e) && Matches(Apply(l, e), ps, ss[name := instance], session)
  {
    var r := Statement(name);
    assert SameHolding(r, l, ps, ss, session);
    assert ss[name := instance] - {name} == ss - {name};
    MatchesBut(l, ps, ss, session, Apply(l, Acquire(r, instance, None, None)), ps, ss[name := instance], r);
  }

  lemma SessionOpens(l: Ledger, session: PyRef)
    requires Matches(l, map[], map[], None) && Serving(l)
    ensures var e := Acquire(Session, session, None, None);
      Allowed(l, e) && Matches(Apply(l, e), map[], map[], Some(session))
  {
    forall r ensures SameHolding(r, Apply(l, Acquire(Session, session, None, None)), map[], map[], Some(session)) {
      assert SameHolding(r, l, map[], map[], None);
    }
    assert SameHolding(Session, l, map[], map[], None);
  }

  lemma PortalStored(ps: Portals, ss: Statements, storePs: Store, storeSs: Store, handler: Option<PyRef>,
                     name: Name, statement: Name, bound: Option<BoundPortal>)
    requires Agreement(ps, ss, storePs, storeSs, handler)
    requires statement in storeSs && (bound.Some? <==> storeSs[statement].Value?)
    requires bound.Some? ==> handler == Some(bound.value.instance)
    ensures var entry := PortalEntry(statement, bound);
      Agreement(ps[name := entry], ss, storePs[name := storeSs[statement]], storeSs, handler)
    ensures bound.Some? ==> statement in ss && ss[statement] == bound.value.instance
  {
    assert StatementAgrees(statement, ss, storeSs, handler);
    var ps', storePs' := ps[name := PortalEntry(statement, bound)], storePs[name := storeSs[statement]];
    forall n ensures PortalAgrees(n, ps', storePs', storeSs, handler) {
      assert PortalAgrees(n, ps, storePs, storeSs, handler);
    }
  }

  ghost function AcquiredPortal(name: Name, statement: Name, bound: Option<BoundPortal>): Trace {
    if bound.None? then [] else
      [Acquire(Portal(name), bound.value.instance, Some(Statement(statement)), Some(bound.value.portal))]
  }

  lemma PortalOpens(l: Ledger, ps: Portals, ss: Statements, session: Option<PyRef>,
                    name: Name, statement: Name, bound: Option<BoundPortal>)
    requires Matches(l, ps, ss, session) && Serving(l) && name !in ps
    requires bound.Some? ==> statement in ss && ss[statement] == bound.value.instance
    ensures var ps' := ps[name := PortalEntry(statement, bound)];
      if bound.None? then Matches(l, ps', ss, session) else
        var e := AcquiredPortal(name, statement, bound)[0];
        Allowed(l, e) && Matches(Apply(l, e), ps', ss, session)
  {
    var r, ps' := Portal(name), ps[name := PortalEntry(statement, bound)];
    assert SameHolding(r, l, ps, ss, session);
    assert SameHolding(Statement(statement), l, ps, ss, session);
    assert ps' - {name} == ps - {name};
    var l' := if bound.None? then l else Apply(l, AcquiredPortal(name, statement, bound)[0]);
    MatchesBut(l, ps, ss, session, l', ps', ss, r);
  }

  lemma StatementCleansUp(l: Ledger, ss: Statements, session: Option<PyRef>, name: Name, ok: bool)
    requires Matches(l, map[], ss, session) && name in ss
    ensures var e := Close(Statement(name), ss[name], Final(ok));
      Allowed(l, e) && Matches(Apply(l, e), map[], ss - {name}, session)
  {
    var r := Statement(name);
    assert SameHolding(r, l, map[], ss, session);
    NoDependents(l, map[], ss, session, r);
    forall d | d in l.live ensures Rank(d) >= 1 {
      assert SameHolding(d, l, map[], ss, session);
    }
    MatchesBut(l, map[], ss, session, Apply(l, Close(r, ss[name], Final(ok))), map[], ss - {name}, r);
  }

  lemma SessionCleansUp(l: Ledger, session: PyRef, how: How)
    requires Matches(l, map[], map[], Some(session)) && InCleanup(how)
    ensures var e := Close(Session, session, how);
      Allowed(l, e) && Apply(l, e).live == map[]
  {
    NoDependents(l, map[], map[], Some(session), Session);
    forall d ensures d in l.live <==> d == Session {
      assert SameHolding(d, l, map[], map[], Some(session));
    }
    assert SameHolding(Session, l, map[], map[], Some(session));
    assert l.live.Keys == {Session};
  }

  lemma NothingHeld(l: Ledger)
    requires Matches(l, map[], map[], None)
    ensures l.live == map[]
  {
    forall r ensures r !in l.live {
      assert SameHolding(r, l, map[], map[], None);
    }
  }

  lemma RemoveInTurn<K, V>(m: map<K, V>, gone: set<K>, k: K)
    ensures (m - gone) - {k} == m - (gone + {k})
  {
  }

  lemma UnboundPortalGoes(l: Ledger, ps: Portals, ss: Statements, session: Option<PyRef>, name: Name)
    requires Matches(l, ps, ss, session) && !(name in ps && ps[name].bound.Some?)
    ensures Matches(l, ps - {name}, ss, session)
  {
    assert SameHolding(Portal(name), l, ps, ss, session);
    MatchesBut(l, ps, ss, session, l, ps - {name}, ss, Portal(name));
  }

  // ---------- What a message comes to ------------------------------------

  /** The maps on both sides and the callbacks so far. */
  datatype Stores = Stores(
    portals: Portals, statements: Statements, storePortals: Store, storeStatements: Store, trace: Trace)

  /** The portal was closed successfully, if it was bound, and has gone from both stores. */
  ghost function PortalClosed(s: Stores, name: Name): Stores {
    s.(portals := s.portals - {name}, storePortals := s.storePortals - {name},
       trace := s.trace + ClosedPortal(s.portals, name, Succeeded))
  }

  /** The portals in `names` were closed one after the other, in some order. */
  ghost predicate PortalsClosed(s: Stores, t: Stores, names: set<Name>)
    decreases |names|, 1
  {
    if names == {} then t == s else exists n :: n in names && ClosedLast(s, t, names, n)
  }

  ghost predicate ClosedLast(s: Stores, t: Stores, names: set<Name>, n: Name)
    requires n in names
    decreases |names|, 0
  {
    exists m :: PortalsClosed(s, m, names - {n}) && t == PortalClosed(m, n)
  }

  /** The close callback of a bound portal came to nothing. */
  ghost predicate Attempted(s: Stores, t: Stores, name: Name, how: How) {
    && name in s.portals && s.portals[name].bound.Some?
    && t == s.(trace := s.trace + ClosedPortal(s.portals, name, how))
  }

  /** Some of the portals in `names` were closed, and then nothing more happened. */
  ghost predicate Paused(s: Stores, t: Stores, names: set<Name>) {
    exists some :: some <= names && PortalsClosed(s, t, some)
  }

  /** Some of the portals in `names` were closed, and then the close of another one came to nothing. */
  ghost predicate Stopped(s: Stores, t: Stores, names: set<Name>, how: How) {
    exists m, n :: n in names && Paused(s, m, names) && Attempted(m, t, n, how)
  }

  ghost function WithoutStatement(s: Stores, name: Name): Stores {
    s.(statements := s.statements - {name}, storeStatements := s.storeStatements - {name},
       trace := s.trace + ClosedStatement(s.statements, name, Succeeded))
  }

  /** The portals of the statement were closed in some order, then the statement itself. */
  ghost predicate StatementClosed(s: Stores, t: Stores, name: Name) {
    exists m :: PortalsClosed(s, m, DependentsOf(s.portals, name)) && t == WithoutStatement(m, name)
  }

  /** All portals of the statement were closed, and then its own close came to nothing. */
  ghost predicate StatementAttempted(s: Stores, t: Stores, name: Name, how: How) {
    exists m ::
      && PortalsClosed(s, m, DependentsOf(s.portals, name)) && name in m.statements
      && t == m.(trace := m.trace + ClosedStatement(m.statements, name, how))
  }

  ghost predicate StatementStopped(s: Stores, t: Stores, name: Name, how: How) {
    Stopped(s, t, DependentsOf(s.portals, name), how) || StatementAttempted(s, t, name, how)
  }

  lemma OneMoreClosed(s: Stores, t: Stores, names: set<Name>, name: Name)
    requires PortalsClosed(s, t, names) && name !in names
    ensures PortalsClosed(s, PortalClosed(t, name), names + {name})
  {
    assert names + {name} - {name} == names;
    assert ClosedLast(s, PortalClosed(t, name), names + {name}, name);
  }

  /** Both stores lose exactly the portals that were closed, and nothing else was called. */
  lemma {:induction false} PortalsClosedMaps(s: Stores, t: Stores, names: set<Name>)
    requires PortalsClosed(s, t, names)
    ensures t.portals == s.portals - names && t.storePortals == s.storePortals - names
    ensures t.statements == s.statements && t.storeStatements == s.storeStatements
    ensures OnlyClosesPortals(s.trace, t.trace, names)
    decreases |names|
  {
    if names != {} {
      var n :| n in names && ClosedLast(s, t, names, n);
      var m :| PortalsClosed(s, m, names - {n}) && t == PortalClosed(m, n);
      PortalsClosedMaps(s, m, names - {n});
      OneMoreMaps(s, m, names - {n}, n);
      assert names - {n} + {n} == names;
    }
  }

  lemma OneMoreMaps(s: Stores, m: Stores, names: set<Name>, n: Name)
    requires m.portals == s.portals - names && m.storePortals == s.storePortals - names
    requires OnlyClosesPortals(s.trace, m.trace, names)
    ensures var t := PortalClosed(m, n);
      && t.portals == s.portals - (names + {n}) && t.storePortals == s.storePortals - (names + {n})
      && OnlyClosesPortals(s.trace, t.trace, names + {n})
  {
    RemoveInTurn(s.portals, names, n);
    RemoveInTurn(s.storePortals, names, n);
  }

  /** Whatever stopped the closing of portals, both stores have lost the same ones. */
  lemma StoppedMaps(s: Stores, t: Stores, names: set<Name>, how: How)
    requires Paused(s, t, names) || (Stopped(s, t, names, how) && !InCleanup(how))
    ensures exists some :: some <= names && t.portals == s.portals - some && t.storePortals == s.storePortals - some
    ensures t.statements == s.statements && t.storeStatements == s.storeStatements
    ensures OnlyClosesPortals(s.trace, t.trace, names)
  {
    if Paused(s, t, names) {
      var some :| some <= names && PortalsClosed(s, t, some);
      PortalsClosedMaps(s, t, some);
    } else {
      var m, n :| n in names && Paused(s, m, names) && Attempted(m, t, n, how);
      var some :| some <= names && PortalsClosed(s, m, some);
      PortalsClosedMaps(s, m, some);
    }
  }

  /** While a statement is being closed no portal of another one is touched, and the statement stays. */
  lemma StatementStoppedMaps(s: Stores, t: Stores, name: Name, how: How)
    requires Paused(s, t, DependentsOf(s.portals, name)) || (StatementStopped(s, t, name, how) && !InCleanup(how))
    ensures forall n :: n in s.portals && s.portals[n].statement != name ==>
      n in t.portals && t.portals[n] == s.portals[n]
    ensures t.statements == s.statements && t.storeStatements == s.storeStatements
    ensures s.trace <= t.trace
  {
    var names := DependentsOf(s.portals, name);
    if Paused(s, t, names) || Stopped(s, t, names, how) {
      StoppedMaps(s, t, names, how);
    } else {
      var m :|
        && PortalsClosed(s, m, names) && name in m.statements
        && t == m.(trace := m.trace + ClosedStatement(m.statements, name, how));
      PortalsClosedMaps(s, m, names);
    }
  }

  /** Closing a statement takes its portals and itself from all four maps, and leaves the rest. */
  lemma StatementClosedMaps(s: Stores, t: Stores, name: Name)
    requires StatementClosed(s, t, name)
    ensures forall n ::
      && (n in t.portals <==> n in s.portals && s.portals[n].statement != name)
      && (n in t.portals ==> t.portals[n] == s.portals[n])
      && (n in s.portals && s.portals[n].statement == name ==> n !in t.storePortals)
      && (!(n in s.portals && s.portals[n].statement == name) ==>
            (n in t.storePortals <==> n in s.storePortals)
            && (n in t.storePortals ==> t.storePortals[n] == s.storePortals[n]))
    ensures t.statements == s.statements - {name} && t.storeStatements == s.storeStatements - {name}
    ensures DependentsOf(t.portals, name) == {}
  {
    var m :| PortalsClosed(s, m, DependentsOf(s.portals, name)) && t == WithoutStatement(m, name);
    PortalsClosedMaps(s, m, DependentsOf(s.portals, name));
  }

  /** The name is free for a new statement: a predecessor of the unnamed one has been closed. */
  ghost predicate Vacated(s: Stores, t: Stores, name: Name) {
    if name == DEFAULT_NAME then StatementClosed(s, t, name) else t == s
  }

  /** An empty statement was stored in pgwire, or another one in both stores. */
  ghost predicate Parsed(s: Stores, t: Stores, name: Name, query: string, handler: Option<PyRef>) {
    if EmptyQuery.Empty(query) then t == s.(storeStatements := s.storeStatements[name := Empty])
    else ParsedInPython(s, t, name, handler)
  }

  ghost predicate ParsedInPython(s: Stores, t: Stores, name: Name, handler: Option<PyRef>) {
    && handler.Some? && name in t.storeStatements && t.storeStatements[name].Value?
    && t == s.(storeStatements := s.storeStatements[name := t.storeStatements[name]],
               statements := s.statements[name := handler.value],
               trace := s.trace + [Acquire(Statement(name), handler.value, None, None)])
  }

  /** The portal that had the name was closed, and one made from the statement stored in both stores. */
  ghost predicate Rebound(s: Stores, t: Stores, portal: Name, statement: Name) {
    var m := PortalClosed(s, portal);
    && portal in t.portals && statement in s.storeStatements
    && (var entry := t.portals[portal];
        && entry.statement == statement && (entry.bound.Some? <==> s.storeStatements[statement].Value?)
        && t == m.(portals := m.portals[portal := entry],
                   storePortals := m.storePortals[portal := s.storeStatements[statement]],
                   trace := m.trace + AcquiredPortal(portal, statement, entry.bound)))
  }

  /** The unnamed portal has been closed, and then the unnamed statement. */
  ghost predicate Forgotten(s: Stores, t: Stores) {
    StatementClosed(PortalClosed(s, DEFAULT_NAME), t, DEFAULT_NAME)
  }

  /** The simple handler has been called, and since then portals have been closed. */
  ghost predicate Asked(s: Stores, t: Stores) {
    && t.statements == s.statements && t.storeStatements == s.storeStatements
    && t.portals.Keys <= s.portals.Keys
    && OnlyClosesPortals(s.trace + [SimpleQuery], t.trace, s.portals.Keys)
  }

  /** The close of the unnamed portal came to nothing, or it was closed and then the closing of the
      unnamed statement came to nothing. */
  ghost predicate HalfForgotten(s: Stores, t: Stores, how: How) {
    || Attempted(s, t, DEFAULT_NAME, how)
    || StatementStopped(PortalClosed(s, DEFAULT_NAME), t, DEFAULT_NAME, how)
  }

  /** The unnamed portal and some portals of the unnamed statement were closed, as far as that went. */
  ghost predicate Forgetting(s: Stores, t: Stores) {
    var m := PortalClosed(s, DEFAULT_NAME);
    t == s || Paused(m, t, DependentsOf(m.portals, DEFAULT_NAME))
  }

  /** After the simple handler all portals were closed, up to the first failure if there was one. */
  ghost predicate Expired(s: Stores, t: Stores) {
    || (t.portals == map[] && t.storePortals == map[])
    || exists m :: Asked(s, m) && Stopped(m, t, m.portals.Keys, Raised)
  }

  lemma AskedThen(s: Stores, m: Stores, t: Stores)
    requires Asked(s, m) && t.statements == m.statements && t.storeStatements == m.storeStatements
    requires t.portals.Keys <= m.portals.Keys && OnlyClosesPortals(m.trace, t.trace, m.portals.Keys)
    ensures Asked(s, t)
  {
  }

  /** However the closing of all portals ended, only portals have gone and only their closes were called. */
  lemma EndedMaps(s: Stores, t: Stores)
    requires
      || PortalsClosed(s, t, s.portals.Keys) || Paused(s, t, s.portals.Keys)
      || Stopped(s, t, s.portals.Keys, Raised) || Stopped(s, t, s.portals.Keys, Abandoned)
    ensures t.statements == s.statements && t.storeStatements == s.storeStatements
    ensures t.portals.Keys <= s.portals.Keys && OnlyClosesPortals(s.trace, t.trace, s.portals.Keys)
  {
    if PortalsClosed(s, t, s.portals.Keys) {
      PortalsClosedMaps(s, t, s.portals.Keys);
    } else if Stopped(s, t, s.portals.Keys, Raised) {
      StoppedMaps(s, t, s.portals.Keys, Raised);
    } else {
      StoppedMaps(s, t, s.portals.Keys, Abandoned);
    }
  }

  lemma HandlerAsked(s: Stores, t: Stores)
    requires var q, names := s.(trace := s.trace + [SimpleQuery]), s.portals.Keys;
      t == q || PortalsClosed(q, t, names) || Paused(q, t, names)
      || Stopped(q, t, names, Raised) || Stopped(q, t, names, Abandoned)
    ensures Asked(s, t)
  {
    var q := s.(trace := s.trace + [SimpleQuery]);
    if t != q {
      EndedMaps(q, t);
    }
  }

  /** The stores of a connection whose startup is over. */
  ghost function Begun(session: Option<PyRef>): Stores {
    Stores(map[], map[], map[], map[], if session.Some? then [Acquire(Session, session.value, None, None)] else [])
  }

  ghost function Called(s: Stores): Stores {
    s.(trace := s.trace + [SimpleQuery])
  }

  /** The unnamed entries were forgotten, and then the simple handler was called. */
  ghost predicate Queried(s: Stores, t: Stores) {
    exists m :: Forgotten(s, m) && Asked(m, t)
  }

  ghost predicate Replaced(s: Stores, t: Stores, name: Name, query: string, handler: Option<PyRef>) {
    exists m :: Vacated(s, m, name) && Parsed(m, t, name, query, handler)
  }

  /** A handler has been called with the portal of that name, if it is bound. */
  ghost function Consulted(s: Stores, name: Name): Stores {
    if name in s.portals && s.portals[name].bound.Some?
    then s.(trace := s.trace + [Use(Portal(name), s.portals[name].bound.value.portal)])
    else s
  }

  /** What a message comes to that is handled without an error. */
  ghost predicate Completed(m: Message, s: Stores, t: Stores, idle: bool, server: Option<PyRef>) {
    match m
    case Parse(name, query) => Replaced(s, t, name, query, server)
    case Bind(portal, statement, _, _, _) => Rebound(s, t, portal, statement)
    case Describe(portal) => t == Consulted(s, portal)
    case Execute(portal) =>
      t == Consulted(s, portal) || PortalsClosed(Consulted(s, portal), t, s.portals.Keys)
    case CloseTarget(target, name) =>
      if target == 'S' then StatementClosed(s, t, name) else target == 'P' && t == PortalClosed(s, name)
    case Sync => if idle then PortalsClosed(s, t, s.portals.Keys) else t == s
    case Query => Queried(s, t)
  }

  /** What a message comes to whose callback has raised. */
  ghost predicate Interrupted(m: Message, s: Stores, t: Stores) {
    match m
    case Parse(name, _) => Vacated(s, t, name) || (name == DEFAULT_NAME && StatementStopped(s, t, name, Raised))
    case Bind(portal, _, _, _, _) => Attempted(s, t, portal, Raised) || t == PortalClosed(s, portal)
    case Describe(portal) => t == Consulted(s, portal)
    case Execute(portal) =>
      t == Consulted(s, portal) || Stopped(Consulted(s, portal), t, s.portals.Keys, Raised)
    case CloseTarget(target, name) =>
      if target == 'S' then StatementStopped(s, t, name, Raised) else Attempted(s, t, name, Raised)
    case Sync => Stopped(s, t, s.portals.Keys, Raised)
    case Query => HalfForgotten(s, t, Raised) || Queried(s, t)
  }

  /** A message was handled: without an error, or refused untouched, or cut off by a callback that raised,
      or all done but the answer not sent, or the task was dropped. */
  ghost predicate Handled(m: Message, s: Stores, t: Stores, idle: bool, server: Option<PyRef>, r: Outcome) {
    match r
    case Done => Completed(m, s, t, idle, server)
    case Failed(PythonRaised) => Interrupted(m, s, t)
    case Failed(SendFailed) => Completed(m, s, t, idle, server) || Interrupted(m, s, t)
    case Failed(NotConfigured) => m.Parse? && server.None? && Vacated(s, t, m.name)
    case Failed(_) => t == s
    case Dropped => true
  }

  datatype Handling = Handling(before: Stores, idle: bool, outcome: Outcome, after: Stores)

  /** One message after the other, each from where the one before left the stores. */
  ghost predicate Chain(messages: seq<Message>, log: seq<Handling>, first: Stores, last: Stores,
                        server: Option<PyRef>)
  {
    && |log| <= |messages|
    && (if log == [] then last == first else log[0].before == first && log[|log| - 1].after == last)
    && (forall i | 0 <= i < |log| - 1 :: log[i].after == log[i + 1].before && !log[i].outcome.Dropped?)
    && (forall i | 0 <= i < |log| ::
          Handled(messages[i], log[i].before, log[i].after, log[i].idle, server, log[i].outcome))
  }

  lemma ChainFurther(messages: seq<Message>, log: seq<Handling>, first: Stores, last: Stores, server: Option<PyRef>,
                     e: Handling)
    requires Chain(messages, log, first, last, server) && |log| < |messages| && e.before == last
    requires log != [] ==> !log[|log| - 1].outcome.Dropped?
    requires Handled(messages[|log|], e.before, e.after, e.idle, server, e.outcome)
    ensures Chain(messages, log + [e], first, e.after, server)
  {
  }

  class Connection {
    const extended: Option<PyRef>
    /** Whether the connection task can be aborted, as happens to the tasks of a server that fails. */
    const abortable: bool

    // PythonPortals
    var portals: Portals
    var statements: Statements
    var session: Option<PyRef>
    var closing: bool

    // pgwire's client: the session extension, the portal store, the transaction status
    var sessionHandler: Option<PyRef>
    var storePortals: Store
    var storeStatements: Store
    var idle: bool

    var aborted: bool
    /** Whether an abort ever struck while `closing` was held. */
    ghost var cut: bool
    ghost var trace: Trace

    constructor (extended: Option<PyRef>, abortable: bool)
      ensures Steady() && Open() && Unused() && idle
      ensures this.extended == extended && this.abortable == abortable
    {
      this.extended, this.abortable := extended, abortable;
      portals, statements, session, closing := map[], map[], None, false;
      sessionHandler, storePortals, storeStatements, idle := None, map[], map[], true;
      aborted, cut, trace := false, false, [];
    }

    function Handler(): Option<PyRef>
      reads this
    {
      if sessionHandler.Some? then sessionHandler else extended
    }

    ghost function Now(): Stores
      reads this
    {
      Stores(portals, statements, storePortals, storeStatements, trace)
    }

    ghost predicate Agrees()
      reads this
    {
      Agreement(portals, statements, storePortals, storeStatements, Handler())
    }

    /** The callbacks so far were legal, and only an abort has ever cut one short. */
    ghost predicate Legal()
      reads this
    {
      && Accepted(trace)
      && !Replay(trace).cleaning
      && (Replay(trace).abandoned ==> aborted)
      && (cut ==> aborted)
      && (aborted ==> abortable)
      && ServedBy(trace, extended)
      && session == sessionHandler && session == SessionOf(trace)
    }

    /** A close callback was cut short exactly if an abort struck while `closing` was held. */
    ghost predicate Counted()
      reads this
    {
      Replay(trace).abandoned <==> cut
    }

    /** What legal callbacks left behind is what pywire's maps hold. */
    ghost predicate Recorded()
      reads this
    {
      Legal() && Matches(Replay(trace), portals, statements, session)
    }

    ghost predicate Steady()
      reads this
    {
      Agrees() && Recorded()
    }

    /** The protocol is between two awaits and holds no lock. */
    ghost predicate Open()
      reads this
    {
      !closing && !aborted
    }

    /** How a method leaves the connection.  Unless its task was dropped the protocol can go on. */
    ghost predicate Settled(r: Outcome)
      reads this
    {
      Steady() && Counted() && !closing && (!r.Dropped? ==> Open())
    }

    ghost predicate Unused()
      reads this
    {
      && trace == [] && portals == map[] && statements == map[] && session.None?
      && sessionHandler.None? && storePortals == map[] && storeStatements == map[]
    }

    // ---------- Awaits ---------------------------------------------------

    /** An await.  The shutdown branch can win only by taking `closing`; an abort needs no lock. */
    method SuspendUnder(choice: Choice) returns (dropped: bool)
      requires Steady()
      modifies `closing, `aborted, `cut
      ensures Steady()
      ensures dropped <==> (choice.abort && abortable) || (choice.shutdown && !old(closing))
      ensures dropped ==> !closing && (aborted || !old(closing))
      ensures !dropped ==> closing == old(closing) && aborted == old(aborted)
      ensures old(aborted) ==> aborted
      ensures cut <==> old(cut) || (dropped && old(closing))
    {
      dropped := false;
      if choice.abort && abortable {
        cut := cut || closing;
        closing, aborted, dropped := false, true, true;
      } else if choice.shutdown && !closing {
        dropped := true;
      }
    }

    method Suspend() returns (dropped: bool)
      requires Steady()
      modifies `closing, `aborted, `cut
      ensures Steady()
      ensures dropped ==> !closing && (aborted || !old(closing))
      ensures !dropped ==> closing == old(closing) && aborted == old(aborted)
      ensures old(aborted) ==> aborted
      ensures cut <==> old(cut) || (dropped && old(closing))
    {
      var choice: Choice := *;
      dropped := SuspendUnder(choice);
    }

    method CallPythonUnder(choice: Choice) returns (reply: Reply)
      requires Steady()
      modifies `closing, `aborted, `cut
      ensures Steady()
      ensures reply.Lost? <==> (choice.abort && abortable) || (choice.shutdown && !old(closing))
      ensures reply.Lost? ==> !closing && (aborted || !old(closing))
      ensures !reply.Lost? ==> closing == old(closing) && aborted == old(aborted)
      ensures !reply.Lost? ==> reply == if choice.ok then Returned(choice.value) else Threw
      ensures cut <==> old(cut) || (reply.Lost? && old(closing))
    {
      var dropped := SuspendUnder(choice);
      reply := if dropped then Lost else if choice.ok then Returned(choice.value) else Threw;
    }

    method CallPython() returns (reply: Reply)
      requires Steady()
      modifies `closing, `aborted, `cut
      ensures Steady()
      ensures reply.Lost? ==> !closing && (aborted || !old(closing))
      ensures !reply.Lost? ==> closing == old(closing) && aborted == old(aborted)
      ensures cut <==> old(cut) || (reply.Lost? && old(closing))
    {
      var choice: Choice := *;
      reply := CallPythonUnder(choice);
    }

    method Send() returns (r: Outcome)
      requires Steady() && Open()
      modifies `closing, `aborted, `cut
      ensures Settled(r)
      ensures r == Done || r == Failed(SendFailed) || r == Dropped
    {
      var dropped := Suspend();
      var ok: bool := *;
      r := if dropped then Dropped else if ok then Done else Failed(SendFailed);
    }

    ghost method Record(e: Event)
      requires Accepted(trace) && Allowed(Replay(trace), e)
      modifies `trace
      ensures trace == old(trace) + [e]
      ensures Accepted(trace) && Replay(trace) == Apply(Replay(old(trace)), e)
    {
      Append(trace, e);
      trace := trace + [e];
    }

    /** A callback of the protocol; what it acquires is acquired from the object that serves. */
    ghost method RecordCall(e: Event)
      requires Accepted(trace) && Allowed(Replay(trace), e) && ServedBy(trace, extended)
      requires e.Acquire? ==>
        if e.r.Session? then trace == []
        else Some(e.instance) == if SessionOf(trace).Some? then SessionOf(trace) else extended
      modifies `trace
      ensures trace == old(trace) + [e]
      ensures Accepted(trace) && Replay(trace) == Apply(Replay(old(trace)), e)
      ensures ServedBy(trace, extended)
      ensures SessionOf(trace) == if e.Acquire? && e.r.Session? then Some(e.instance) else SessionOf(old(trace))
    {
      ServedFurther(trace, e, extended);
      Record(e);
    }

    // ---------- Closing --------------------------------------------------

    /** The `close_portal` callback, made and awaited while `closing` is held, for a portal that is
        bound; another needs none. */
    method CallClosePortal(name: Name, choice: Choice) returns (reply: Reply)
      requires Steady() && closing && !aborted
      modifies `closing, `aborted, `cut, `trace
      ensures reply.Lost? ==> !closing && aborted
      ensures !reply.Lost? ==> closing && !aborted
      ensures !reply.Returned? ==> name in portals && portals[name].bound.Some?
      ensures reply.Lost? <==> choice.abort && abortable && name in portals && portals[name].bound.Some?
      ensures Legal() && Counted()
      ensures Matches(Replay(trace), if reply.Returned? then portals - {name} else portals, statements, session)
      ensures trace == old(trace) + ClosedPortal(portals, name, HowOf(reply))
    {
      if name in portals && portals[name].bound.Some? {
        reply := CallPythonUnder(choice);
        PortalCloses(Replay(trace), portals, statements, session, name, HowOf(reply));
        RecordCall(Close(Portal(name), portals[name].bound.value.instance, HowOf(reply)));
      } else {
        reply := Returned(0);
        UnboundPortalGoes(Replay(trace), portals, statements, session, name);
      }
    }

    /** Close a portal in Python and forget it there. */
    method ClosePortal(name: Name) returns (r: Outcome)
      requires Steady() && Open()
      modifies `portals, `closing, `aborted, `cut, `trace
      ensures Recorded() && Counted() && !closing && (!r.Dropped? ==> Open())
      ensures r.Done? ==>
        portals == old(portals) - {name} && trace == old(trace) + ClosedPortal(old(portals), name, Succeeded)
      ensures !r.Done? ==> portals == old(portals)
      ensures r.Failed? ==> r.error == PythonRaised && Attempted(old(Now()), Now(), name, Raised)
      ensures r.Dropped? ==> Now() == old(Now()) || (aborted && Attempted(old(Now()), Now(), name, Abandoned))
    {
      var dropped := Suspend();
      if dropped {
        return Dropped;
      }
      closing := true;
      var choice: Choice := *;
      var reply := CallClosePortal(name, choice);
      if reply.Returned? {
        portals := portals - {name};
      }
      closing := false;
      r := if reply.Returned? then Done else if reply.Lost? then Dropped else Failed(PythonRaised);
    }

    /** Close a portal in Python and then forget it in pgwire's store; no await lies between. */
    method RemovePortal(name: Name) returns (r: Outcome)
      requires Steady() && Open()
      modifies `portals, `storePortals, `closing, `aborted, `cut, `trace
      ensures Settled(r)
      ensures r.Done? ==> Now() == PortalClosed(old(Now()), name)
      ensures r.Failed? ==> r.error == PythonRaised && Attempted(old(Now()), Now(), name, Raised)
      ensures r.Dropped? ==> Now() == old(Now()) || (aborted && Attempted(old(Now()), Now(), name, Abandoned))
    {
      PortalGone(portals, statements, storePortals, storeStatements, Handler(), name);
      r := ClosePortal(name);
      if r.Done? {
        storePortals := storePortals - {name};
      }
    }

    /** The portals are closed one after the other, up to the first failure. */
    method RemovePortals(names: set<Name>) returns (r: Outcome)
      requires Steady() && Open()
      modifies `portals, `storePortals, `closing, `aborted, `cut, `trace
      ensures Settled(r)
      ensures r.Done? ==> PortalsClosed(old(Now()), Now(), names)
      ensures r.Failed? ==> r.error == PythonRaised && Stopped(old(Now()), Now(), names, Raised)
      ensures r.Dropped? ==>
        Paused(old(Now()), Now(), names) || (aborted && Stopped(old(Now()), Now(), names, Abandoned))
    {
      var left := names;
      while left != {}
        invariant Steady() && Open()
        invariant left <= names && PortalsClosed(old(Now()), Now(), names - left)
      {
        var name :| name in left;
        ghost var before := Now();
        assert Paused(old(Now()), before, names);
        r := RemovePortal(name);
        if !r.Done? {
          return;
        }
        OneMoreClosed(old(Now()), before, names - left, name);
        assert names - left + {name} == names - (left - {name});
        left := left - {name};
      }
      assert names - left == names;
      r := Done;
    }

    method CloseAllPortals() returns (r: Outcome)
      requires Steady() && Open()
      modifies `portals, `storePortals, `closing, `aborted, `cut, `trace
      ensures Settled(r)
      ensures r.Done? ==>
        PortalsClosed(old(Now()), Now(), old(portals).Keys) && portals == map[] && storePortals == map[]
      ensures r.Failed? ==> r.error == PythonRaised && Stopped(old(Now()), Now(), old(portals).Keys, Raised)
      ensures r.Dropped? ==>
        || Paused(old(Now()), Now(), old(portals).Keys)
        || (aborted && Stopped(old(Now()), Now(), old(portals).Keys, Abandoned))
    {
      SameNames(portals, statements, storePortals, storeStatements, Handler());
      r := RemovePortals(portals.Keys);
      if r.Done? {
        PortalsClosedMaps(old(Now()), Now(), old(portals).Keys);
        assert DEFAULT_NAME !in storePortals;
        storePortals := storePortals - {DEFAULT_NAME};
      }
    }

    method CloseStatement(name: Name) returns (r: Outcome)
      requires Steady() && Open()
      modifies `portals, `statements, `storePortals, `storeStatements, `closing, `aborted, `cut, `trace
      ensures Settled(r)
      ensures r.Done? ==> StatementClosed(old(Now()), Now(), name)
      ensures !r.Done? ==> statements == old(statements) && storeStatements == old(storeStatements)
      ensures r.Failed? ==> r.error == PythonRaised && StatementStopped(old(Now()), Now(), name, Raised)
      ensures r.Dropped? ==>
        || Paused(old(Now()), Now(), DependentsOf(old(portals), name))
        || (aborted && StatementStopped(old(Now()), Now(), name, Abandoned))
    {
      ghost var names := DependentsOf(portals, name);
      r := RemovePortals(DependentsOf(portals, name));
      if !r.Done? {
        return;
      }
      ghost var m := Now();
      PortalsClosedMaps(old(Now()), m, names);
      r := CloseLoneStatement(name);
      assert r.Dropped? && Now() == m ==> Paused(old(Now()), m, names);
    }

    /** The second half of closing a statement, once its portals are gone. */
    method CloseLoneStatement(name: Name) returns (r: Outcome)
      requires Steady() && Open() && DependentsOf(portals, name) == {}
      modifies `statements, `storeStatements, `closing, `aborted, `cut, `trace
      ensures Settled(r)
      ensures r.Done? ==> Now() == WithoutStatement(old(Now()), name)
      ensures !r.Done? ==> statements == old(statements) && storeStatements == old(storeStatements)
      ensures r.Failed? ==>
        && r.error == PythonRaised && name in statements
        && trace == old(trace) + ClosedStatement(statements, name, Raised)
      ensures r.Dropped? ==>
        || trace == old(trace)
        || (aborted && name in statements && trace == old(trace) + ClosedStatement(statements, name, Abandoned))
    {
      var dropped := Suspend();
      if dropped {
        return Dropped;
      }
      closing := true;
      var reply := CallCloseStatement(name);
      if reply.Returned? {
        ForgetStatement(name);
      }
      closing := false;
      r := if reply.Returned? then Done else if reply.Lost? then Dropped else Failed(PythonRaised);
    }

    method ForgetStatement(name: Name)
      requires Agrees() && DependentsOf(portals, name) == {}
      modifies `statements, `storeStatements
      ensures Agrees()
      ensures statements == old(statements) - {name} && storeStatements == old(storeStatements) - {name}
    {
      StatementGone(portals, statements, storePortals, storeStatements, Handler(), name);
      statements := statements - {name};
      storeStatements := storeStatements - {name};
    }

    /** The `close_statement` callback, made and awaited while `closing` is held, for a statement
        that pgwire stores with a value; an empty statement needs none. */
    method CallCloseStatement(name: Name) returns (reply: Reply)
      requires Steady() && closing && !aborted && DependentsOf(portals, name) == {}
      modifies `closing, `aborted, `cut, `trace
      ensures reply.Lost? ==> !closing && aborted
      ensures !reply.Lost? ==> closing && !aborted
      ensures !reply.Returned? ==> name in statements
      ensures Legal() && Counted()
      ensures Matches(Replay(trace), portals, if reply.Returned? then statements - {name} else statements, session)
      ensures trace == old(trace) + ClosedStatement(statements, name, HowOf(reply))
    {
      assert StatementAgrees(name, statements, storeStatements, Handler());
      reply := Returned(0);
      if name in storeStatements && storeStatements[name].Value? {
        var handler := Handler();
        if handler.Some? {
          reply := CallPython();
          StatementCloses(Replay(trace), portals, statements, session, name, HowOf(reply));
          RecordCall(Close(Statement(name), handler.value, HowOf(reply)));
        }
      } else {
        assert statements - {name} == statements;
      }
    }

    // ---------- Storing --------------------------------------------------

    method PutStatement(name: Name, entry: Entry, instance: PyRef)
      requires Steady() && Open()
      requires name !in storeStatements && (entry.Value? ==> Handler() == Some(instance))
      modifies `statements, `storeStatements, `trace
      ensures Steady()
      ensures storeStatements == old(storeStatements)[name := entry]
      ensures statements == if entry.Value? then old(statements)[name := instance] else old(statements)
      ensures trace == old(trace) + if entry.Value? then [Acquire(Statement(name), instance, None, None)] else []
    {
      StatementStored(portals, statements, storePortals, storeStatements, Handler(), name, entry, instance);
      if entry.Value? {
        StatementOpens(Replay(trace), portals, statements, session, name, instance);
        RecordCall(Acquire(Statement(name), instance, None, None));
        statements := statements[name := instance];
      }
      storeStatements := storeStatements[name := entry];
    }

    method PutPortal(name: Name, statement: Name, bound: Option<BoundPortal>)
      requires Steady() && Open()
      requires name !in portals && statement in storeStatements
      requires bound.Some? <==> storeStatements[statement].Value?
      requires bound.Some? ==> Handler() == Some(bound.value.instance)
      modifies `portals, `storePortals, `trace
      ensures Steady()
      ensures portals == old(portals)[name := PortalEntry(statement, bound)]
      ensures storePortals == old(storePortals)[name := storeStatements[statement]]
      ensures trace == old(trace) + AcquiredPortal(name, statement, bound)
    {
      PortalStored(portals, statements, storePortals, storeStatements, Handler(), name, statement, bound);
      PortalOpens(Replay(trace), portals, statements, session, name, statement, bound);
      if bound.Some? {
        RecordCall(Acquire(Portal(name), bound.value.instance, Some(Statement(statement)), Some(bound.value.portal)));
      }
      portals := portals[name := PortalEntry(statement, bound)];
      storePortals := storePortals[name := storeStatements[statement]];
    }

    // ---------- Messages -------------------------------------------------

    /** A statement named by the client must be new; the unnamed one replaces its predecessor, and
        with it every portal made from that.  If the parse fails or is dropped the predecessor is
        gone all the same, unless its own close stopped before. */
    method OnParse(name: Name, query: string) returns (r: Outcome)
      requires Steady() && Open()
      modifies `portals, `statements, `storePortals, `storeStatements, `closing, `aborted, `cut, `trace
      ensures Settled(r)
      ensures r == Failed(DuplicateStatement) <==> name != DEFAULT_NAME && name in old(storeStatements)
      ensures r == Failed(DuplicateStatement) ==> Now() == old(Now())
      ensures r.Done? || r == Failed(SendFailed) ==>
        && Replaced(old(Now()), Now(), name, query, if session.Some? then session else extended)
        && name in storeStatements && (storeStatements[name].Empty? <==> EmptyQuery.Empty(query))
        && (name in statements <==> !EmptyQuery.Empty(query))
      ensures r == Failed(NotConfigured) ==> session.None? && extended.None? && Vacated(old(Now()), Now(), name)
      ensures r == Failed(PythonRaised) ==>
        || Vacated(old(Now()), Now(), name)
        || (name == DEFAULT_NAME && StatementStopped(old(Now()), Now(), name, Raised))
      ensures r.Failed? ==> r.error in {DuplicateStatement, SendFailed, NotConfigured, PythonRaised}
      ensures r.Dropped? ==>
        || Replaced(old(Now()), Now(), name, query, if session.Some? then session else extended)
        || Vacated(old(Now()), Now(), name)
        || Paused(old(Now()), Now(), DependentsOf(old(portals), name))
        || (aborted && name == DEFAULT_NAME && StatementStopped(old(Now()), Now(), name, Abandoned))
    {
      if name == DEFAULT_NAME {
        r := CloseStatement(name);
        if !r.Done? {
          return;
        }
        StatementClosedMaps(old(Now()), Now(), name);
      } else if name in storeStatements {
        return Failed(DuplicateStatement);
      }
      ghost var m := Now();
      assert Vacated(old(Now()), m, name);
      r := StoreParsed(name, query);
      if r.Done? {
        r := Send();
      }
    }

    method StoreParsed(name: Name, query: string) returns (r: Outcome)
      requires Steady() && Open() && name !in storeStatements
      modifies `statements, `storeStatements, `closing, `aborted, `cut, `trace
      ensures Settled(r)
      ensures r.Failed? ==> r.error == PythonRaised || (r.error == NotConfigured && Handler().None?)
      ensures r.Done? ==> Parsed(old(Now()), Now(), name, query, Handler())
      ensures r.Done? ==>
        && name in storeStatements && (storeStatements[name].Empty? <==> EmptyQuery.Empty(query))
        && (name in statements <==> !EmptyQuery.Empty(query))
      ensures !r.Done? ==> Now() == old(Now())
    {
      assert StatementAgrees(name, statements, storeStatements, Handler());
      if EmptyQuery.Empty(query) {
        PutStatement(name, Empty, 0);
        return Done;
      }
      var choice: Choice := *;
      r := ParseInPython(name, choice);
    }

    /** What Python answers is what is stored. */
    method ParseInPython(name: Name, choice: Choice) returns (r: Outcome)
      requires Steady() && Open() && name !in storeStatements
      modifies `statements, `storeStatements, `closing, `aborted, `cut, `trace
      ensures Settled(r)
      ensures r.Failed? ==> r.error == PythonRaised || (r.error == NotConfigured && Handler().None?)
      ensures r.Done? ==> ParsedInPython(old(Now()), Now(), name, Handler())
      ensures r.Done? ==> choice.ok && storeStatements[name] == Value(choice.value)
      ensures !r.Done? ==> Now() == old(Now())
    {
      var handler := Handler();
      if handler.None? {
        return Failed(NotConfigured);
      }
      var reply := CallPythonUnder(choice);
      if !reply.Returned? {
        return if reply.Lost? then Dropped else Failed(PythonRaised);
      }
      PutStatement(name, Value(reply.value), handler.value);
      return Done;
    }

    /** Every way a Bind is refused before anything is touched. */
    function BindRefusal(portal: Name, statement: Name, parameterFormats: seq<int>, parameters: nat,
                         resultFormats: seq<int>): Option<Error>
      reads this
    {
      if portal != DEFAULT_NAME && portal in storePortals then Some(DuplicatePortal)
      else if |parameterFormats| > 1 && |parameterFormats| != parameters then Some(ProtocolViolation)
      else if exists code :: code in parameterFormats && code != 0 && code != 1 then Some(ProtocolViolation)
      else if exists code :: code in resultFormats && code != 0 && code != 1 then Some(ProtocolViolation)
      else if statement !in storeStatements then Some(StatementNotFound)
      else if storeStatements[statement].Empty? && (|resultFormats| > 1 || parameters > 0) then
        Some(ProtocolViolation)
      else None
    }

    method OnBind(portal: Name, statement: Name, parameterFormats: seq<int>, parameters: nat,
                  resultFormats: seq<int>) returns (r: Outcome)
      requires Steady() && Open()
      modifies `portals, `storePortals, `closing, `aborted, `cut, `trace
      ensures Settled(r)
      ensures var taken := portal != DEFAULT_NAME && portal in old(storePortals);
        var formats := (|parameterFormats| <= 1 || |parameterFormats| == parameters)
                       && forall code :: code in parameterFormats || code in resultFormats ==> code == 0 || code == 1;
        var surplus := statement in storeStatements && storeStatements[statement].Empty?
                       && (|resultFormats| > 1 || parameters > 0);
        && (r == Failed(DuplicatePortal) <==> taken)
        && (r == Failed(ProtocolViolation) <==> !taken && (!formats || surplus))
        && (r == Failed(StatementNotFound) <==> !taken && formats && statement !in storeStatements)
      ensures r.Failed? ==>
        r.error in {DuplicatePortal, ProtocolViolation, StatementNotFound, BadPortal, PythonRaised, SendFailed}
      ensures r.Failed? && r.error != PythonRaised && r.error != SendFailed ==> Now() == old(Now())
      ensures r == Failed(PythonRaised) ==>
        Attempted(old(Now()), Now(), portal, Raised) || Now() == PortalClosed(old(Now()), portal)
      ensures r.Done? || r == Failed(SendFailed) ==>
        && Rebound(old(Now()), Now(), portal, statement)
        && (portals[portal].bound.Some? ==>
              Some(portals[portal].bound.value.instance) == if session.Some? then session else extended)
      ensures r.Dropped? ==>
        || Now() == old(Now()) || (aborted && Attempted(old(Now()), Now(), portal, Abandoned))
        || Now() == PortalClosed(old(Now()), portal) || Rebound(old(Now()), Now(), portal, statement)
    {
      var refusal := BindRefusal(portal, statement, parameterFormats, parameters, resultFormats);
      if refusal.Some? {
        return Failed(refusal.value);
      }
      r := BindTo(portal, statement);
      if r.Done? {
        r := Send();
      }
    }

    /** The portal that held the name before is closed first; until Python has answered, the name
        is free in both stores, and stays so if Python fails.  Only a failure to close it leaves the
        portal there. */
    method BindTo(portal: Name, statement: Name) returns (r: Outcome)
      requires Steady() && Open() && statement in storeStatements
      modifies `portals, `storePortals, `closing, `aborted, `cut, `trace
      ensures Settled(r)
      ensures r.Done? ==>
        && Rebound(old(Now()), Now(), portal, statement)
        && (portals[portal].bound.Some? ==>
              Some(portals[portal].bound.value.instance) == if session.Some? then session else extended)
      ensures r.Failed? ==> r.error in {PythonRaised, BadPortal}
      ensures r == Failed(BadPortal) ==> Now() == old(Now()) && storeStatements[statement].Value?
      ensures r == Failed(PythonRaised) ==>
        || Attempted(old(Now()), Now(), portal, Raised)
        || (Now() == PortalClosed(old(Now()), portal) && storeStatements[statement].Value?)
      ensures r.Dropped? ==>
        || Now() == old(Now()) || (aborted && Attempted(old(Now()), Now(), portal, Abandoned))
        || (Now() == PortalClosed(old(Now()), portal) && storeStatements[statement].Value?)
    {
      if storeStatements[statement].Value? {
        var wellFormed: bool := *;
        if !wellFormed {
          return Failed(BadPortal);
        }
        assert StatementAgrees(statement, statements, storeStatements, Handler());
      }
      r := RemovePortal(portal);
      if r.Done? {
        var choice: Choice := *;
        r := BindFresh(portal, statement, choice);
      }
      assert PortalAgrees(portal, portals, storePortals, storeStatements, Handler());
    }

    /** What Python answers is what is bound. */
    method BindFresh(portal: Name, statement: Name, choice: Choice) returns (r: Outcome)
      requires Steady() && Open() && portal !in portals && statement in storeStatements
      requires storeStatements[statement].Value? ==> Handler().Some?
      modifies `portals, `storePortals, `closing, `aborted, `cut, `trace
      ensures Settled(r)
      ensures r.Failed? ==> r.error == PythonRaised
      ensures r.Done? ==>
        && portal in portals
        && portals == old(portals)[portal := portals[portal]]
        && portals[portal].statement == statement
        && (portals[portal].bound.Some? <==> storeStatements[statement].Value?)
        && storePortals == old(storePortals)[portal := storeStatements[statement]]
        && trace == old(trace) + AcquiredPortal(portal, statement, portals[portal].bound)
      ensures r.Done? && portals[portal].bound.Some? ==> choice.ok && portals[portal].bound.value.portal == choice.value
      ensures !r.Done? ==> Now() == old(Now()) && storeStatements[statement].Value?
    {
      if storeStatements[statement].Empty? {
        PutPortal(portal, statement, None);
        return Done;
      }
      var handler := Handler();
      var reply := CallPythonUnder(choice);
      if !reply.Returned? {
        return if reply.Lost? then Dropped else Failed(PythonRaised);
      }
      PutPortal(portal, statement, Some(BoundPortal(handler.value, reply.value)));
      return Done;
    }

    method OnSync() returns (r: Outcome)
      requires Steady() && Open()
      modifies `portals, `storePortals, `closing, `aborted, `cut, `trace
      ensures Settled(r)
      ensures !idle ==> Now() == old(Now()) && r != Failed(PythonRaised)
      ensures idle && (r.Done? || r == Failed(SendFailed)) ==>
        PortalsClosed(old(Now()), Now(), old(portals).Keys) && portals == map[] && storePortals == map[]
      ensures r.Failed? ==> r.error in {PythonRaised, SendFailed}
      ensures r == Failed(PythonRaised) ==> Stopped(old(Now()), Now(), old(portals).Keys, Raised)
      ensures idle && r.Dropped? ==>
        || Paused(old(Now()), Now(), old(portals).Keys)
        || (aborted && Stopped(old(Now()), Now(), old(portals).Keys, Abandoned))
    {
      if idle {
        r := CloseAllPortals();
        if !r.Done? {
          return;
        }
      }
      r := Send();
    }

    method OnClose(target: char, name: Name) returns (r: Outcome)
      requires Steady() && Open()
      modifies `portals, `statements, `storePortals, `storeStatements, `closing, `aborted, `cut, `trace
      ensures Settled(r)
      ensures r == Failed(InvalidTarget) <==> target != 'S' && target != 'P'
      ensures r == Failed(InvalidTarget) ==> Now() == old(Now())
      ensures r.Failed? ==> r.error in {InvalidTarget, PythonRaised, SendFailed}
      ensures target == 'P' && (r.Done? || r == Failed(SendFailed)) ==> Now() == PortalClosed(old(Now()), name)
      ensures target == 'P' && r == Failed(PythonRaised) ==> Attempted(old(Now()), Now(), name, Raised)
      ensures target == 'P' && r.Dropped? ==>
        || Now() == old(Now()) || (aborted && Attempted(old(Now()), Now(), name, Abandoned))
        || Now() == PortalClosed(old(Now()), name)
      ensures target == 'S' && (r.Done? || r == Failed(SendFailed)) ==> StatementClosed(old(Now()), Now(), name)
      ensures target == 'S' && r == Failed(PythonRaised) ==> StatementStopped(old(Now()), Now(), name, Raised)
      ensures target == 'S' && r.Dropped? ==>
        || Paused(old(Now()), Now(), DependentsOf(old(portals), name))
        || (aborted && StatementStopped(old(Now()), Now(), name, Abandoned))
        || StatementClosed(old(Now()), Now(), name)
    {
      if target == 'S' {
        r := CloseStatement(name);
      } else if target == 'P' {
        r := RemovePortal(name);
      } else {
        return Failed(InvalidTarget);
      }
      if r.Done? {
        r := Send();
      }
    }

    function PortalFor(name: Name): (r: Option<PyRef>)
      reads this
    {
      if name in portals && portals[name].bound.Some? then Some(portals[name].bound.value.portal) else None
    }

    /** Call a handler with the Python portal of `name`.  pgwire has found a value under that name in
        its store, and then pywire never misses its own object. */
    method CallWithPortal(name: Name) returns (r: Outcome)
      requires Steady() && Open() && name in storePortals && storePortals[name].Value?
      modifies `closing, `aborted, `cut, `trace
      ensures Settled(r)
      ensures r.Failed? ==> r.error == PythonRaised
      ensures PortalFor(name).Some? && trace == old(trace) + [Use(Portal(name), PortalFor(name).value)]
    {
      assert PortalAgrees(name, portals, storePortals, storeStatements, Handler());
      assert SameHolding(Portal(name), Replay(trace), portals, statements, session);
      var portal := PortalFor(name);
      if portal.None? {
        return Failed(PortalNotFound);
      }
      RecordCall(Use(Portal(name), portal.value));
      var reply := CallPython();
      r := if reply.Lost? then Dropped else if reply.Threw? then Failed(PythonRaised) else Done;
    }

    method OnDescribe(name: Name) returns (r: Outcome)
      requires Steady() && Open()
      modifies `closing, `aborted, `cut, `trace
      ensures Settled(r)
      ensures r == Failed(PortalNotFound) <==> name !in storePortals
      ensures r.Failed? ==> r.error in {PortalNotFound, PythonRaised, SendFailed}
      ensures Now() == Consulted(old(Now()), name)
      ensures r == Failed(PortalNotFound) ==> Now() == old(Now())
    {
      assert PortalAgrees(name, portals, storePortals, storeStatements, Handler());
      if name !in storePortals {
        return Failed(PortalNotFound);
      }
      if storePortals[name].Value? {
        r := CallWithPortal(name);
        if !r.Done? {
          return;
        }
      }
      r := Send();
    }

    /** `ended` tells that the handler reported the end of a transaction. */
    method OnExecute(name: Name) returns (r: Outcome, ended: bool)
      requires Steady() && Open()
      modifies `portals, `storePortals, `closing, `aborted, `cut, `trace
      ensures Settled(r)
      ensures r == Failed(PortalNotFound) <==> name !in old(storePortals)
      ensures r.Failed? ==> r.error in {PortalNotFound, PythonRaised, SendFailed}
      ensures r == Failed(PortalNotFound) ==> !ended && Now() == old(Now())
      ensures !ended ==> Now() == Consulted(old(Now()), name)
      ensures ended && (r.Done? || r == Failed(SendFailed)) ==>
        && PortalsClosed(Consulted(old(Now()), name), Now(), old(portals).Keys)
        && portals == map[] && storePortals == map[]
      ensures ended && r == Failed(PythonRaised) ==>
        Stopped(Consulted(old(Now()), name), Now(), old(portals).Keys, Raised)
      ensures ended && r.Dropped? ==>
        || Paused(Consulted(old(Now()), name), Now(), old(portals).Keys)
        || (aborted && Stopped(Consulted(old(Now()), name), Now(), old(portals).Keys, Abandoned))
    {
      ended := false;
      assert PortalAgrees(name, portals, storePortals, storeStatements, Handler());
      if name !in storePortals {
        return Failed(PortalNotFound), false;
      }
      if storePortals[name].Value? {
        r := CallWithPortal(name);
        if !r.Done? {
          return;
        }
        ended := *;
        if ended {
          r := CloseAllPortals();
          if !r.Done? {
            return;
          }
        }
      }
      r := Send();
    }

    // ---------- The simple query protocol (src/server.rs) ------------------

    /** A simple query first forgets the unnamed portal and statement, then runs the handler, once;
        after that only portals are closed, all of them outside a transaction. */
    method OnQuery(ready: bool) returns (r: Outcome)
      requires Steady() && Open()
      modifies `portals, `statements, `storePortals, `storeStatements, `idle, `closing, `aborted, `cut, `trace
      ensures Settled(r)
      ensures r == Failed(NotReadyForQuery) <==> !ready
      ensures !ready ==> Now() == old(Now())
      ensures r.Failed? ==> r.error in {NotReadyForQuery, PythonRaised, SendFailed}
      ensures r.Done? ==> Queried(old(Now()), Now())
      ensures r.Done? ==> DEFAULT_NAME !in portals && DEFAULT_NAME !in storeStatements
      ensures r.Done? && idle ==> portals == map[] && storePortals == map[]
      ensures ready && r.Failed? ==>
        || HalfForgotten(old(Now()), Now(), Raised)
        || exists m :: Forgotten(old(Now()), m) && Asked(m, Now()) && (idle ==> Expired(m, Now()))
      ensures r.Dropped? ==>
        || Forgetting(old(Now()), Now()) || (aborted && HalfForgotten(old(Now()), Now(), Abandoned))
        || Queried(old(Now()), Now())
    {
      if !ready {
        return Failed(NotReadyForQuery);
      }
      r := ForgetUnnamed();
      if r.Done? {
        ghost var m := Now();
        assert Forgotten(old(Now()), m);
        r := RunAndExpire();
      }
    }

    method ForgetUnnamed() returns (r: Outcome)
      requires Steady() && Open()
      modifies `portals, `statements, `storePortals, `storeStatements, `closing, `aborted, `cut, `trace
      ensures Settled(r)
      ensures r.Done? ==> Forgotten(old(Now()), Now()) && DEFAULT_NAME !in portals && DEFAULT_NAME !in storeStatements
      ensures r.Failed? ==> r.error == PythonRaised && HalfForgotten(old(Now()), Now(), Raised)
      ensures r.Dropped? ==>
        Forgetting(old(Now()), Now()) || (aborted && HalfForgotten(old(Now()), Now(), Abandoned))
    {
      r := RemovePortal(DEFAULT_NAME);
      if !r.Done? {
        return;
      }
      ghost var s := Now();
      r := CloseStatement(DEFAULT_NAME);
      if r.Done? {
        StatementClosedMaps(s, Now(), DEFAULT_NAME);
      }
    }

    method RunAndExpire() returns (r: Outcome)
      requires Steady() && Open()
      requires DEFAULT_NAME !in portals && DEFAULT_NAME !in storeStatements
      modifies `portals, `storePortals, `idle, `closing, `aborted, `cut, `trace
      ensures Settled(r)
      ensures DEFAULT_NAME !in portals && Asked(old(Now()), Now())
      ensures r.Done? && idle ==> portals == map[] && storePortals == map[]
      ensures r.Failed? ==> r.error in {PythonRaised, SendFailed}
      ensures r.Failed? && idle ==> Expired(old(Now()), Now())
    {
      r := RunSimpleQuery();
      if r.Dropped? {
        return;
      }
      if idle {
        ghost var t := Now();
        var expired := CloseAllPortals();
        EndedMaps(t, Now());
        AskedThen(old(Now()), t, Now());
        assert Asked(old(Now()), t);
        if !expired.Done? {
          return expired;
        }
      }
    }

    /** pgwire's part of a simple query: the handler, its responses, the new transaction status. */
    method RunSimpleQuery() returns (r: Outcome)
      requires Steady() && Open()
      requires DEFAULT_NAME !in portals && DEFAULT_NAME !in storeStatements
      modifies `portals, `storePortals, `idle, `closing, `aborted, `cut, `trace
      ensures Settled(r)
      ensures r.Failed? ==> r.error in {PythonRaised, SendFailed}
      ensures Asked(old(Now()), Now())
    {
      r := AskHandler();
      idle := *;
      if r.Done? {
        r := Send();
      }
    }

    method AskHandler() returns (r: Outcome)
      requires Steady() && Open()
      requires DEFAULT_NAME !in portals && DEFAULT_NAME !in storeStatements
      modifies `portals, `storePortals, `closing, `aborted, `cut, `trace
      ensures Settled(r)
      ensures r.Failed? ==> r.error == PythonRaised
      ensures Asked(old(Now()), Now())
    {
      var ended;
      r, ended := RunHandler();
      HandlerAsked(old(Now()), Now());
    }

    /** `ended` tells that among the responses of the handler was the end of a transaction. */
    method RunHandler() returns (r: Outcome, ended: bool)
      requires Steady() && Open()
      requires DEFAULT_NAME !in portals && DEFAULT_NAME !in storeStatements
      modifies `portals, `storePortals, `closing, `aborted, `cut, `trace
      ensures Settled(r)
      ensures !ended ==> Now() == Called(old(Now()))
      ensures r.Failed? ==> r.error == PythonRaised
      ensures ended && r.Done? ==>
        PortalsClosed(Called(old(Now())), Now(), old(portals).Keys) && portals == map[] && storePortals == map[]
      ensures ended && r.Failed? ==>
        r.error == PythonRaised && Stopped(Called(old(Now())), Now(), old(portals).Keys, Raised)
      ensures ended && r.Dropped? ==>
        || Paused(Called(old(Now())), Now(), old(portals).Keys)
        || (aborted && Stopped(Called(old(Now())), Now(), old(portals).Keys, Abandoned))
    {
      ended := false;
      r := CallSimpleHandler();
      if r.Done? {
        ended := *;
        if ended {
          r := CloseAllPortals();
        }
      }
    }

    method CallSimpleHandler() returns (r: Outcome)
      requires Steady() && Open()
      requires DEFAULT_NAME !in portals && DEFAULT_NAME !in storeStatements
      modifies `closing, `aborted, `cut, `trace
      ensures Settled(r)
      ensures r.Failed? ==> r.error == PythonRaised
      ensures trace == old(trace) + [SimpleQuery]
    {
      assert SameHolding(Portal(DEFAULT_NAME), Replay(trace), portals, statements, session);
      assert SameHolding(Statement(DEFAULT_NAME), Replay(trace), portals, statements, session);
      assert StatementAgrees(DEFAULT_NAME, statements, storeStatements, Handler());
      RecordCall(SimpleQuery);
      var reply := CallPython();
      r := if reply.Lost? then Dropped else if reply.Threw? then Failed(PythonRaised) else Done;
    }

    // ---------- Startup ---------------------------------------------------

    /** What the factory answers is the session. */
    method OpenSession(choice: Choice) returns (r: Outcome)
      requires Steady() && Open() && Unused()
      modifies `session, `sessionHandler, `closing, `aborted, `cut, `trace
      ensures Settled(r)
      ensures r.Done? ==> choice.ok && session == Some(choice.value) && sessionHandler == session
      ensures r.Done? ==> trace == old(trace) + [Acquire(Session, session.value, None, None)]
      ensures !r.Done? ==> Unused()
      ensures r.Failed? ==> r.error == PythonRaised
    {
      var reply := CallPythonUnder(choice);
      if !reply.Returned? {
        return if reply.Lost? then Dropped else Failed(PythonRaised);
      }
      SessionOpens(Replay(trace), reply.value);
      RecordCall(Acquire(Session, reply.value, None, None));
      session, sessionHandler := Some(reply.value), Some(reply.value);
      return Done;
    }

    // ---------- Cleanup ---------------------------------------------------

    /** Runs as a task of its own: nothing can drop it at its awaits, and a callback that fails is
        not tried again. */
    method CleanupEntries(ps: Portals, ss: Statements, session: Option<PyRef>)
      requires Accepted(trace) && Matches(Replay(trace), ps, ss, session)
      modifies `trace
      ensures Clean(trace) && Replay(trace).abandoned == old(Replay(trace)).abandoned
      ensures OnlyCleansUp(old(trace), trace)
    {
      CleanupPortals(ps, ss, session);
      CleanupStatements(ss, session);
      CleanupSession(session);
    }

    method CleanupPortals(ps: Portals, ss: Statements, session: Option<PyRef>)
      requires Accepted(trace) && Matches(Replay(trace), ps, ss, session)
      modifies `trace
      ensures Accepted(trace) && Matches(Replay(trace), map[], ss, session)
      ensures Replay(trace).abandoned == old(Replay(trace)).abandoned
      ensures OnlyCleansUp(old(trace), trace)
    {
      var left := ps;
      while left != map[]
        invariant Accepted(trace) && Matches(Replay(trace), left, ss, session)
        invariant Replay(trace).abandoned == old(Replay(trace)).abandoned
        invariant OnlyCleansUp(old(trace), trace)
        decreases |left|
      {
        var name :| name in left;
        if left[name].bound.Some? {
          var ok: bool := *;
          PortalCloses(Replay(trace), left, ss, session, name, Final(ok));
          Record(Close(Portal(name), left[name].bound.value.instance, Final(ok)));
        } else {
          UnboundPortalGoes(Replay(trace), left, ss, session, name);
        }
        assert |left - {name}| == |left| - 1;
        left := left - {name};
      }
    }

    method CleanupSession(session: Option<PyRef>)
      requires Accepted(trace) && Matches(Replay(trace), map[], map[], session)
      modifies `trace
      ensures Clean(trace) && Replay(trace).abandoned == old(Replay(trace)).abandoned
      ensures OnlyCleansUp(old(trace), trace)
    {
      if session.Some? {
        var hasClose: bool := *;
        var ok: bool := *;
        var how := if hasClose then Final(ok) else Released;
        SessionCleansUp(Replay(trace), session.value, how);
        Record(Close(Session, session.value, how));
      } else {
        NothingHeld(Replay(trace));
      }
    }

    method CleanupStatements(ss: Statements, session: Option<PyRef>)
      requires Accepted(trace) && Matches(Replay(trace), map[], ss, session)
      modifies `trace
      ensures Accepted(trace) && Matches(Replay(trace), map[], map[], session)
      ensures Replay(trace).abandoned == old(Replay(trace)).abandoned
      ensures OnlyCleansUp(old(trace), trace)
    {
      var left := ss;
      while left != map[]
        invariant Accepted(trace) && Matches(Replay(trace), map[], left, session)
        invariant Replay(trace).abandoned == old(Replay(trace)).abandoned
        invariant OnlyCleansUp(old(trace), trace)
        decreases |left|
      {
        var name :| name in left;
        var ok: bool := *;
        StatementCleansUp(Replay(trace), left, session, name, ok);
        Record(Close(Statement(name), left[name], Final(ok)));
        assert |left - {name}| == |left| - 1;
        left := left - {name};
      }
    }

    method Cleanup()
      requires Recorded()
      modifies `portals, `statements, `session, `trace
      ensures portals == map[] && statements == map[] && session == None
      ensures Clean(trace) && Replay(trace).abandoned == old(Replay(trace)).abandoned
      ensures OnlyCleansUp(old(trace), trace)
    {
      var ps, ss, s := portals, statements, session;
      portals, statements, session := map[], map[], None;
      CleanupEntries(ps, ss, s);
    }

    /** What `Drop` does when the last reference to the resources goes: after `cleanup` nothing,
        otherwise the cleanup itself, provided a runtime is there to run it. */
    method DropResources(runtime: bool)
      requires Accepted(trace) && Matches(Replay(trace), portals, statements, session)
      modifies `portals, `statements, `session, `trace
      ensures portals == map[] && statements == map[] && session == None
      ensures Accepted(trace) && Replay(trace).abandoned == old(Replay(trace)).abandoned
      ensures Clean(trace) <==> runtime || old(Replay(trace)).live == map[]
      ensures old(portals) == map[] && old(statements) == map[] && old(session).None? ==> trace == old(trace)
      ensures OnlyCleansUp(old(trace), trace)
    {
      var ps, ss, s := portals, statements, session;
      portals, statements, session := map[], map[], None;
      if ps == map[] && ss == map[] && s.None? {
        NothingHeld(Replay(trace));
        return;
      }
      if runtime {
        CleanupEntries(ps, ss, s);
      }
    }

    // ---------- A whole connection ----------------------------------------

    method OnMessage(message: Message) returns (r: Outcome)
      requires Steady() && Open()
      modifies `portals, `statements, `storePortals, `storeStatements, `idle, `closing, `aborted, `cut, `trace
      ensures Settled(r)
      ensures Handled(message, old(Now()), Now(), old(idle), Server(), r)
    {
      match message {
        case Parse(_, _) => r := OnChange(message);
        case Bind(_, _, _, _, _) => r := OnChange(message);
        case CloseTarget(_, _) => r := OnChange(message);
        case Describe(_) => r := OnUse(message);
        case Execute(_) => r := OnUse(message);
        case Sync => r := OnUse(message);
        case Query =>
          var ready: bool := *;
          r := OnQuery(ready);
      }
    }

    /** The messages that use portals or end their use. */
    method OnUse(message: Message) returns (r: Outcome)
      requires Steady() && Open() && (message.Describe? || message.Execute? || message.Sync?)
      modifies `portals, `storePortals, `idle, `closing, `aborted, `cut, `trace
      ensures Settled(r)
      ensures Handled(message, old(Now()), Now(), old(idle), Server(), r)
    {
      match message {
        case Describe(portal) => r := OnDescribe(portal);
        case Execute(portal) => r := OnExecuteMessage(portal);
        case Sync => r := OnSync();
      }
    }

    /** pgwire sets the transaction status after an Execute. */
    method OnExecuteMessage(portal: Name) returns (r: Outcome)
      requires Steady() && Open()
      modifies `portals, `storePortals, `idle, `closing, `aborted, `cut, `trace
      ensures Settled(r)
      ensures Handled(Execute(portal), old(Now()), Now(), old(idle), Server(), r)
    {
      var ended;
      r, ended := OnExecute(portal);
      idle := *;
    }

    /** The messages that change a single statement or portal. */
    method OnChange(message: Message) returns (r: Outcome)
      requires Steady() && Open() && (message.Parse? || message.Bind? || message.CloseTarget?)
      modifies `portals, `statements, `storePortals, `storeStatements, `closing, `aborted, `cut, `trace
      ensures Settled(r)
      ensures Handled(message, old(Now()), Now(), idle, Server(), r)
    {
      match message {
        case Parse(name, query) => r := OnParse(name, query);
        case Bind(portal, statement, parameterFormats, parameters, resultFormats) =>
          r := OnBind(portal, statement, parameterFormats, parameters, resultFormats);
        case CloseTarget(target, name) => r := OnClose(target, name);
      }
    }

    /** The object that serves the connection: its session if it has one. */
    ghost function Server(): Option<PyRef>
      reads this
    {
      if session.Some? then session else extended
    }

    /** Messages in turn, up to the end of the input or to the await at which the task is dropped. */
    method ServeMessages(messages: seq<Message>) returns (ghost log: seq<Handling>)
      requires Steady() && Open()
      modifies `portals, `statements, `storePortals, `storeStatements, `idle, `closing, `aborted, `cut, `trace
      ensures Steady() && Counted() && !closing
      ensures Chain(messages, log, old(Now()), Now(), Server())
    {
      log := [];
      for i := 0 to |messages|
        invariant Steady() && Open()
        invariant |log| == i && Chain(messages, log, old(Now()), Now(), Server())
        invariant log != [] ==> !log[|log| - 1].outcome.Dropped?
      {
        var dropped := Suspend();
        if dropped {
          return;
        }
        ghost var before, idling := Now(), idle;
        var r := OnMessage(messages[i]);
        ghost var e := Handling(before, idling, r, Now());
        ChainFurther(messages, log, old(Now()), before, Server(), e);
        log := log + [e];
        if r.Dropped? {
          return;
        }
      }
    }

    /** The protocol task.  How pgwire treats a client whose session failed to open is outside this
        model; it may go on. */
    method ProcessSocket(factory: bool, messages: seq<Message>) returns (ghost log: seq<Handling>)
      requires Steady() && Open() && Unused()
      modifies this
      ensures Steady() && Counted() && !closing
      ensures Chain(messages, log, Begun(session), Now(), Server())
    {
      log := [];
      if factory {
        var choice: Choice := *;
        var r := OpenSession(choice);
        if r.Dropped? {
          return;
        }
      }
      log := ServeMessages(messages);
    }
  }

  /** A connection from its start to the end of its resources, whatever the client sends, whatever
      Python answers, and wherever shutdown or an abort strikes.  Nothing is left behind unless the
      task was aborted with no runtime to clean up after it, and a close callback is cut short exactly
      when an abort strikes while `closing` is held. */
  method ServeConnection(extended: Option<PyRef>, factory: bool, messages: seq<Message>, runtime: bool, abortable: bool)
    returns (c: Connection, ghost log: seq<Handling>)
    ensures fresh(c) && Accepted(c.trace) && ServedBy(c.trace, extended)
    ensures exists session: Option<PyRef>, last: Stores ::
      && Chain(messages, log, Begun(session), last, if session.Some? then session else extended)
      && OnlyCleansUp(last.trace, c.trace)
    ensures c.portals == map[] && c.statements == map[] && c.session.None?
    ensures c.aborted ==> abortable
    ensures !c.aborted || runtime ==> Clean(c.trace)
    ensures Replay(c.trace).abandoned <==> c.cut
    ensures c.cut ==> c.aborted
  {
    c := new Connection(extended, abortable);
    log := c.ProcessSocket(factory, messages);
    ghost var session, last := c.session, c.Now();
    ghost var before := c.trace;
    if !c.aborted {
      c.Cleanup();
    }
    c.DropResources(runtime);
    ServedInCleanup(before, c.trace, extended);
  }

  lemma ServedInCleanup(s: Trace, t: Trace, extended: Option<PyRef>)
    requires ServedBy(s, extended) && OnlyCleansUp(s, t)
    ensures ServedBy(t, extended)
  {
    forall k | 0 <= k < |t| && t[k].Acquire? ensures AcquiredBy(t, k, extended) {
      assert k < |s| && t[k] == s[k] && AcquiredBy(s, k, extended);
    }
  }

  /** Such a run: an abort strikes in the close of a portal, and the cleanup closes it once more. */
  method CutShort(handler: PyRef, statement: PyRef, portal: PyRef) returns (c: Connection)
    ensures fresh(c) && c.cut && Clean(c.trace)
    ensures |c.trace| > 3 && c.trace[2] == Event.Close(Portal("p"), handler, Abandoned)
    ensures exists k :: ClosesAt(c.trace, k, Portal("p")) && k > 2 && InCleanup(c.trace[k].how)
  {
    c := new Connection(Some(handler), true);
    c.PutStatement("s", Value(statement), handler);
    c.PutPortal("p", "s", Some(BoundPortal(handler, portal)));
    c.closing := true;
    var reply := c.CallClosePortal("p", Choice(false, true, false, 0));
    assert c.trace[2] == Event.Close(Portal("p"), handler, Abandoned);
    ghost var before := c.trace;
    c.DropResources(true);
    assert c.trace[2] == before[2];
    ghost var k := AbandonedIsCleanedUp(c.trace, 2);
  }
}
