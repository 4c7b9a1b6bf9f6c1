/**
 The order in which one connection may call back into Python, as a reference automaton over
 callback traces.  A ledger records which resources Python currently holds; `Allowed` says which
 callback may come next, and `Accepted` which whole traces are legal.  The lemmas turn acceptance
 into statements about positions of a trace that mention no automaton at all.
 */
module Ledger {
  import opened Wrappers

  type Name = string

  /** The identity of a Python object. */
  type PyRef = nat

  /** The name pgwire gives to the unnamed statement and the unnamed portal. */
  const DEFAULT_NAME: Name := "POSTGRESQL_DEFAULT_NAME"

  /** What Python may hold for a connection: bound portals, parsed statements, one session. */
  datatype Resource = Portal(name: Name) | Statement(name: Name) | Session

  /** How a close of a resource ended.  The first three happen while the protocol is served; the
      last two happen in the final cleanup, where a failing callback is ignored and a session
      without a `close` method is let go without a call. */
  datatype How = Succeeded | Raised | Abandoned | Final(ok: bool) | Released

  datatype Event =
    | Acquire(r: Resource, instance: PyRef, on: Option<Resource>, obj: Option<PyRef>)
    | Close(r: Resource, instance: PyRef, how: How)
    | Use(r: Resource, used: PyRef)
    | SimpleQuery

  datatype Holding = Holding(instance: PyRef, on: Option<Resource>, obj: Option<PyRef>)

  /** What Python holds, whether the final cleanup has begun, and whether the future of a close
      callback was ever dropped before it answered. */
  datatype Ledger = Ledger(live: map<Resource, Holding>, cleaning: bool, abandoned: bool)

  const FRESH := Ledger(map[], false, false)

  type Trace = seq<Event>

  /** A close after which the resource is gone. */
  predicate Ends(how: How) {
    how.Succeeded? || how.Final? || how.Released?
  }

  /** A close that belongs to the final cleanup. */
  predicate InCleanup(how: How) {
    how.Final? || how.Released?
  }

  /** Cleanup closes portals, then statements, then the session. */
  function Rank(r: Resource): nat {
    match r
    case Portal(_) => 0
    case Statement(_) => 1
    case Session => 2
  }

  /** Nothing but the final cleanup follows an abandoned callback: its task is gone. */
  ghost predicate Allowed(l: Ledger, e: Event) {
    match e
    case Acquire(r, instance, on, obj) =>
      && !l.cleaning && !l.abandoned
      && r !in l.live
      && (r.Portal? ==>
            && obj.Some? && on.Some? && on.value.Statement?
            && on.value in l.live && l.live[on.value].instance == instance)
      && (!r.Portal? ==> on.None?)
    case Close(r, instance, how) =>
      && r in l.live
      && l.live[r].instance == instance
      && (forall d :: d in l.live ==> l.live[d].on != Some(r))
      && (l.cleaning || l.abandoned ==> InCleanup(how))
      && (InCleanup(how) ==> forall d :: d in l.live ==> Rank(r) <= Rank(d))
      && (r.Session? ==> InCleanup(how))
      && (how.Released? ==> r.Session?)
    case Use(r, used) =>
      && !l.cleaning && !l.abandoned && r in l.live && l.live[r].obj == Some(used)
    case SimpleQuery =>
      && !l.cleaning && !l.abandoned && Portal(DEFAULT_NAME) !in l.live && Statement(DEFAULT_NAME) !in l.live
  }

  ghost function Apply(l: Ledger, e: Event): Ledger {
    match e
    case Acquire(r, instance, on, obj) => l.(live := l.live[r := Holding(instance, on, obj)])
    case Close(r, _, how) =>
      Ledger(if Ends(how) then l.live - {r} else l.live, l.cleaning || InCleanup(how),
             l.abandoned || how.Abandoned?)
    case Use(_, _) => l
    case SimpleQuery => l
  }

  /** The ledger after a trace. */
  ghost function Replay(t: Trace): Ledger
    decreases |t|, 1
  {
    if t == [] then FRESH else ReplayLast(t)
  }

  ghost function ReplayLast(t: Trace): Ledger
    requires t != []
    decreases |t|, 0
  {
    Apply(Replay(t[..|t| - 1]), t[|t| - 1])
  }

  /** Every event of the trace was allowed when it happened.  (The step to the last event is a function
      of its own, so that it is looked at only where `Last` says so.) */
  ghost predicate Accepted(t: Trace)
    decreases |t|, 1
  {
    t == [] || AcceptedLast(t)
  }

  ghost predicate AcceptedLast(t: Trace)
    requires t != []
    decreases |t|, 0
  {
    Accepted(t[..|t| - 1]) && Allowed(Replay(t[..|t| - 1]), t[|t| - 1])
  }

  lemma Last(t: Trace)
    requires t != []
    ensures Replay(t) == Apply(Replay(t[..|t| - 1]), t[|t| - 1])
    ensures Accepted(t) <==> Accepted(t[..|t| - 1]) && Allowed(Replay(t[..|t| - 1]), t[|t| - 1])
  {
  }

  lemma Append(t: Trace, e: Event)
    ensures Replay(t + [e]) == Apply(Replay(t), e)
    ensures Accepted(t + [e]) <==> Accepted(t) && Allowed(Replay(t), e)
  {
    Last(t + [e]);
    assert (t + [e])[..|t|] == t;
  }

  lemma {:induction false} Prefix(t: Trace, i: nat)
    requires i <= |t| && Accepted(t)
    ensures Accepted(t[..i])
    ensures i < |t| ==> Allowed(Replay(t[..i]), t[i]) && Replay(t[..i + 1]) == Apply(Replay(t[..i]), t[i])
  {
    if i < |t| {
      Last(t);
      if i == |t| - 1 {
        assert t[..i + 1] == t;
      } else {
        Prefix(t[..|t| - 1], i);
        assert t[..|t| - 1][..i] == t[..i] && t[..|t| - 1][..i + 1] == t[..i + 1];
      }
    } else {
      assert t[..i] == t;
    }
  }

  // ---------- What acceptance means for positions of a trace ------------

  predicate AcquiresAt(t: Trace, j: int, r: Resource) {
    0 <= j < |t| && t[j].Acquire? && t[j].r == r
  }

  predicate ClosesAt(t: Trace, k: int, r: Resource) {
    0 <= k < |t| && t[k].Close? && t[k].r == r
  }

  predicate EndsAt(t: Trace, k: int, r: Resource) {
    ClosesAt(t, k, r) && Ends(t[k].how)
  }

  /** At position `j` the resource was acquired, and nothing has ended it before `upTo`. */
  ghost predicate OpenFrom(t: Trace, j: int, upTo: int, r: Resource) {
    AcquiresAt(t, j, r) && j < upTo <= |t| && forall k | j < k < upTo :: !EndsAt(t, k, r)
  }

  function HoldingAt(t: Trace, j: int): Holding
    requires 0 <= j < |t| && t[j].Acquire?
  {
    Holding(t[j].instance, t[j].on, t[j].obj)
  }

  /** The ledger holds exactly the resources whose acquisition has not been ended. */
  lemma {:induction false} LiveIsOpen(t: Trace, r: Resource) returns (j: int)
    requires Accepted(t)
    ensures r in Replay(t).live ==> OpenFrom(t, j, |t|, r) && Replay(t).live[r] == HoldingAt(t, j)
    ensures r !in Replay(t).live ==> forall i :: !OpenFrom(t, i, |t|, r)
    ensures forall i :: OpenFrom(t, i, |t|, r) ==> i == j
  {
    j := -1;
    if t != [] {
      var n := |t| - 1;
      var p := t[..n];
      Last(t);
      j := LiveIsOpen(p, r);
      assert forall k | 0 <= k < n :: EndsAt(p, k, r) == EndsAt(t, k, r);
      assert forall i | 0 <= i < n :: OpenFrom(t, i, |t|, r) ==> OpenFrom(p, i, n, r) by {
        forall i | 0 <= i < n && OpenFrom(t, i, |t|, r) ensures OpenFrom(p, i, n, r) {
        }
      }
      if AcquiresAt(t, n, r) {
        j := n;
      } else if EndsAt(t, n, r) {
        assert forall i | 0 <= i < n :: !OpenFrom(t, i, |t|, r);
      }
    }
  }

  lemma OpenFromPrefix(t: Trace, j: int, i: nat, r: Resource)
    requires i <= |t|
    ensures OpenFrom(t[..i], j, i, r) <==> OpenFrom(t, j, i, r)
  {
    assert forall k | 0 <= k < i :: EndsAt(t[..i], k, r) == EndsAt(t, k, r);
  }

  /** A close is only ever issued for a resource acquired earlier and not ended since, and it goes
      to the very Python object that created it.  In particular a resource whose close succeeded
      is not closed again unless it is acquired again first. */
  lemma ClosesOnlyWhatIsOpen(t: Trace, k: int, r: Resource) returns (j: int)
    requires Accepted(t) && ClosesAt(t, k, r)
    ensures OpenFrom(t, j, k, r) && t[j].instance == t[k].instance
  {
    Prefix(t, k);
    j := LiveIsOpen(t[..k], r);
    OpenFromPrefix(t, j, k, r);
  }

  /** A resource is never acquired a second time while it is still open. */
  lemma EndedBeforeReacquired(t: Trace, j: int, k: int, r: Resource) returns (i: int)
    requires Accepted(t) && AcquiresAt(t, j, r) && AcquiresAt(t, k, r) && j < k
    ensures j < i < k && EndsAt(t, i, r)
  {
    if forall i | j < i < k :: !EndsAt(t, i, r) {
      Prefix(t, k);
      OpenFromPrefix(t, j, k, r);
      var l := LiveIsOpen(t[..k], r);
    }
    i :| j < i < k && EndsAt(t, i, r);
  }

  /** Two ends of the same resource are separated by a fresh acquisition. */
  lemma EndsAtMostOnce(t: Trace, i: int, k: int, r: Resource) returns (j: int)
    requires Accepted(t) && EndsAt(t, i, r) && ClosesAt(t, k, r) && i < k
    ensures i < j < k && AcquiresAt(t, j, r)
  {
    j := ClosesOnlyWhatIsOpen(t, k, r);
  }

  /** A portal of a statement is always ended before that statement is closed, successfully or not. */
  lemma PortalsEndBeforeTheirStatement(t: Trace, j: int, i: int, p: Resource, s: Resource) returns (k: int)
    requires Accepted(t) && AcquiresAt(t, j, p) && t[j].on == Some(s) && ClosesAt(t, i, s) && j < i
    ensures j < k < i && EndsAt(t, k, p)
  {
    if forall k | j < k < i :: !EndsAt(t, k, p) {
      Prefix(t, i);
      OpenFromPrefix(t, j, i, p);
      var l := LiveIsOpen(t[..i], p);
    }
    k :| j < k < i && EndsAt(t, k, p);
  }

  /** Describe and Execute get the object of the latest acquisition of that name. */
  lemma UsesTheLatestObject(t: Trace, i: int) returns (j: int)
    requires Accepted(t) && 0 <= i < |t| && t[i].Use?
    ensures OpenFrom(t, j, i, t[i].r) && t[j].obj == Some(t[i].used)
    ensures forall k | j < k < i :: !AcquiresAt(t, k, t[i].r)
  {
    var r := t[i].r;
    Prefix(t, i);
    j := LiveIsOpen(t[..i], r);
    OpenFromPrefix(t, j, i, r);
    forall k | j < k < i ensures !AcquiresAt(t, k, r) {
      if AcquiresAt(t, k, r) {
        var e := EndedBeforeReacquired(t, j, k, r);
        assert false;
      }
    }
  }

  /** No unnamed portal or statement is open when the simple handler runs. */
  lemma SimpleQueryRunsWithoutUnnamed(t: Trace, i: int, j: int, r: Resource)
    requires Accepted(t) && 0 <= i < |t| && t[i].SimpleQuery?
    requires r == Portal(DEFAULT_NAME) || r == Statement(DEFAULT_NAME)
    ensures !OpenFrom(t, j, i, r)
  {
    Prefix(t, i);
    var l := LiveIsOpen(t[..i], r);
    OpenFromPrefix(t, j, i, r);
  }

  /** Once a cleanup close was issued, or a close abandoned, only cleanup closes follow. */
  lemma {:induction false} CleaningIsForever(t: Trace, i: nat, k: nat)
    requires Accepted(t) && i <= k <= |t| && (Replay(t[..i]).cleaning || Replay(t[..i]).abandoned)
    ensures forall m | i <= m < k :: t[m].Close? && InCleanup(t[m].how)
    ensures Replay(t[..k]).abandoned == Replay(t[..i]).abandoned
    ensures i < k || Replay(t[..i]).cleaning ==> Replay(t[..k]).cleaning
    ensures forall r :: r in Replay(t[..k]).live ==> r in Replay(t[..i]).live
    decreases k - i
  {
    if i < k {
      Prefix(t, i);
      CleaningIsForever(t, i + 1, k);
    }
  }

  lemma CleanupStep(l: Ledger, e: Event)
    requires Allowed(l, e) && (l.cleaning || l.abandoned || (e.Close? && InCleanup(e.how)))
    ensures e.Close? && InCleanup(e.how) && e.r in l.live
    ensures Apply(l, e) == Ledger(l.live - {e.r}, true, l.abandoned)
    ensures forall r :: r in l.live ==> Rank(e.r) <= Rank(r)
    ensures forall r :: r in l.live - {e.r} ==> !e.r.Session?
  {
  }

  /** Once the first cleanup close is issued only cleanup closes follow, of portals before
      statements before the session, and nothing at all follows the close of the session. */
  lemma CleanupOrder(t: Trace, i: int, k: int)
    requires Accepted(t) && 0 <= i < k < |t| && t[i].Close? && InCleanup(t[i].how)
    ensures t[k].Close? && InCleanup(t[k].how)
    ensures t[k].r.Portal? ==> t[i].r.Portal?
    ensures t[k].r.Statement? ==> t[i].r.Portal? || t[i].r.Statement?
    ensures !t[i].r.Session?
  {
    Prefix(t, i);
    CleanupStep(Replay(t[..i]), t[i]);
    CleaningIsForever(t, i + 1, k);
    Prefix(t, k);
    CleanupStep(Replay(t[..k]), t[k]);
  }

  /** The flag of the ledger says whether some close callback of the trace was abandoned. */
  lemma {:induction false} AbandonedIffSomeClose(t: Trace)
    ensures Replay(t).abandoned <==> exists i :: 0 <= i < |t| && t[i].Close? && t[i].how.Abandoned?
  {
    if t != [] {
      var p, e := t[..|t| - 1], t[|t| - 1];
      Last(t);
      AbandonedIffSomeClose(p);
      assert t == p + [e];
      assert e.Close? && e.how.Abandoned? ==> t[|t| - 1].Close?;
    }
  }

  /** An abandoned close is the last thing a protocol does: only the cleanup follows. */
  lemma OnlyCleanupAfterAbandoned(t: Trace, i: int, k: int)
    requires Accepted(t) && 0 <= i < k < |t| && t[i].Close? && t[i].how.Abandoned?
    ensures t[k].Close? && InCleanup(t[k].how)
  {
    Prefix(t, i);
    CleaningIsForever(t, i + 1, k + 1);
  }

  // ---------- The serving object ----------------------------------------

  /** The session that a trace begins with. */
  function SessionOf(t: Trace): Option<PyRef> {
    if t != [] && t[0].Acquire? && t[0].r.Session? then Some(t[0].instance) else None
  }

  ghost predicate AcquiredBy(t: Trace, k: int, extended: Option<PyRef>)
    requires 0 <= k < |t| && t[k].Acquire?
  {
    if t[k].r.Session? then k == 0
    else Some(t[k].instance) == if SessionOf(t).Some? then SessionOf(t) else extended
  }

  /** Statements and portals are made by the session, if the trace begins with one, and by the handler
      `extended` of the server otherwise; a session is only opened first of all. */
  ghost predicate ServedBy(t: Trace, extended: Option<PyRef>) {
    forall k | 0 <= k < |t| && t[k].Acquire? :: AcquiredBy(t, k, extended)
  }

  lemma ServedFurther(t: Trace, e: Event, extended: Option<PyRef>)
    requires ServedBy(t, extended)
    requires e.Acquire? ==>
      if e.r.Session? then t == []
      else Some(e.instance) == if SessionOf(t).Some? then SessionOf(t) else extended
    ensures ServedBy(t + [e], extended)
    ensures SessionOf(t + [e]) == if t == [] && e.Acquire? && e.r.Session? then Some(e.instance) else SessionOf(t)
  {
    forall k | 0 <= k < |t + [e]| && (t + [e])[k].Acquire? ensures AcquiredBy(t + [e], k, extended) {
      if k < |t| {
        assert AcquiredBy(t, k, extended);
      }
    }
  }

  /** Every portal is bound through the very object that parsed its statement. */
  lemma BoundByTheParser(t: Trace, k: int) returns (j: int)
    requires Accepted(t) && 0 <= k < |t| && t[k].Acquire? && t[k].r.Portal?
    ensures t[k].on.Some? && t[k].on.value.Statement? && OpenFrom(t, j, k, t[k].on.value)
    ensures t[j].instance == t[k].instance && t[k].obj.Some?
  {
    Prefix(t, k);
    j := LiveIsOpen(t[..k], t[k].on.value);
    OpenFromPrefix(t, j, k, t[k].on.value);
  }

  /** Statements and sessions depend on nothing. */
  lemma OnlyPortalsDepend(t: Trace, k: int)
    requires Accepted(t) && 0 <= k < |t| && t[k].Acquire? && !t[k].r.Portal?
    ensures t[k].on.None?
  {
    Prefix(t, k);
  }

  /** The session is closed by the cleanup alone, and only the session is let go without a call. */
  lemma SessionEndsInCleanup(t: Trace, k: int)
    requires Accepted(t) && 0 <= k < |t| && t[k].Close?
    ensures t[k].r.Session? ==> InCleanup(t[k].how)
    ensures t[k].how.Released? ==> t[k].r.Session?
  {
    Prefix(t, k);
  }

  // ---------- Conservation ---------------------------------------------

  function Acquired(t: Trace, rank: nat): nat {
    if t == [] then 0 else
      Acquired(t[..|t| - 1], rank) + (if t[|t| - 1].Acquire? && Rank(t[|t| - 1].r) == rank then 1 else 0)
  }

  /** The ends of resources of one kind, counting those made by the cleanup or those before it. */
  function Closed(t: Trace, rank: nat, cleanup: bool): nat {
    if t == [] then 0 else
      var e := t[|t| - 1];
      Closed(t[..|t| - 1], rank, cleanup)
      + (if e.Close? && Rank(e.r) == rank && Ends(e.how) && InCleanup(e.how) == cleanup then 1 else 0)
  }

  ghost function LiveOf(l: Ledger, rank: nat): set<Resource> {
    set r | r in l.live && Rank(r) == rank
  }

  lemma LiveOfMore(l: Ledger, r: Resource, h: Holding, rank: nat)
    requires r !in l.live
    ensures |LiveOf(l.(live := l.live[r := h]), rank)| == |LiveOf(l, rank)| + if Rank(r) == rank then 1 else 0
  {
    var before, after := LiveOf(l, rank), LiveOf(l.(live := l.live[r := h]), rank);
    if Rank(r) == rank {
      assert after == before + {r} && r !in before;
    } else {
      assert after == before;
    }
  }

  lemma LiveOfLess(l: Ledger, r: Resource, rank: nat)
    requires r in l.live
    ensures |LiveOf(l.(live := l.live - {r}), rank)| == |LiveOf(l, rank)| - if Rank(r) == rank then 1 else 0
  {
    var before, after := LiveOf(l, rank), LiveOf(l.(live := l.live - {r}), rank);
    if Rank(r) == rank {
      assert after == before - {r} && r in before;
    } else {
      assert after == before;
    }
  }

  lemma LiveOfStep(l: Ledger, e: Event, rank: nat)
    requires Allowed(l, e)
    ensures var n, m := |LiveOf(l, rank)|, |LiveOf(Apply(l, e), rank)|;
      m == if e.Acquire? && Rank(e.r) == rank then n + 1
           else if e.Close? && Ends(e.how) && Rank(e.r) == rank then n - 1
           else n
  {
    if e.Acquire? {
      LiveOfMore(l, e.r, Holding(e.instance, e.on, e.obj), rank);
    } else if e.Close? && Ends(e.how) {
      LiveOfLess(l, e.r, rank);
      assert LiveOf(Apply(l, e), rank) == LiveOf(l.(live := l.live - {e.r}), rank);
    } else {
      assert LiveOf(Apply(l, e), rank) == LiveOf(l, rank);
    }
  }

  /** Everything acquired is either still held, closed successfully by the protocol, or had its one
      attempt in the final cleanup. */
  lemma {:induction false} Conservation(t: Trace, rank: nat)
    requires Accepted(t)
    ensures Acquired(t, rank) == Closed(t, rank, false) + Closed(t, rank, true) + |LiveOf(Replay(t), rank)|
  {
    if t == [] {
      assert LiveOf(Replay(t), rank) == {};
    } else {
      Last(t);
      Conservation(t[..|t| - 1], rank);
      LiveOfStep(Replay(t[..|t| - 1]), t[|t| - 1], rank);
    }
  }

  // ---------- A connection that has been cleaned up --------------------

  ghost predicate Clean(t: Trace) {
    Accepted(t) && Replay(t).live == map[]
  }

  /** In a cleaned-up trace every acquisition is ended exactly once: the closes that name it before
      `i` all failed or were abandoned, the one at `i` ends it, and no close names the resource
      again before it is acquired anew. */
  lemma EndedExactlyOnce(t: Trace, j: int, r: Resource) returns (i: int)
    requires Clean(t) && AcquiresAt(t, j, r)
    ensures j < i && EndsAt(t, i, r)
    ensures forall k | j < k < i :: !EndsAt(t, k, r) && !AcquiresAt(t, k, r)
    ensures forall k | i < k && ClosesAt(t, k, r) :: exists a :: i < a < k && AcquiresAt(t, a, r)
  {
    if exists k :: j < k < |t| && EndsAt(t, k, r) {
      i :| j < i < |t| && EndsAt(t, i, r);
      i := FirstEnd(t, j, i, r);
      forall k | j < k < i ensures !AcquiresAt(t, k, r) {
        if AcquiresAt(t, k, r) {
          var e := EndedBeforeReacquired(t, j, k, r);
          assert false;
        }
      }
      forall k | i < k && ClosesAt(t, k, r) ensures exists a :: i < a < k && AcquiresAt(t, a, r) {
        var a := EndsAtMostOnce(t, i, k, r);
      }
    } else {
      i := 0;
      var l := LiveIsOpen(t, r);
      assert OpenFrom(t, j, |t|, r);
      assert false;
    }
  }

  /** In a cleaned-up trace at most one close was abandoned, and what it was to close is closed by the
      cleanup, in one attempt. */
  lemma AbandonedIsCleanedUp(t: Trace, i: int) returns (k: int)
    requires Clean(t) && 0 <= i < |t| && t[i].Close? && t[i].how.Abandoned?
    ensures i < k && ClosesAt(t, k, t[i].r) && InCleanup(t[k].how) && t[k].instance == t[i].instance
    ensures forall m | i < m && ClosesAt(t, m, t[i].r) :: m == k
    ensures forall m | 0 <= m < |t| && t[m].Close? && t[m].how.Abandoned? :: m == i
  {
    var r := t[i].r;
    var j := ClosesOnlyWhatIsOpen(t, i, r);
    k := EndedExactlyOnce(t, j, r);
    OnlyCleanupAfterAbandoned(t, i, k);
    var l := ClosesOnlyWhatIsOpen(t, k, r);
    if j < l {
      var e := EndedBeforeReacquired(t, j, l, r);
      assert false;
    } else if l < j {
      var e := EndedBeforeReacquired(t, l, j, r);
      assert false;
    }
    forall m | i < m && ClosesAt(t, m, r) ensures m == k {
      OnlyCleanupAfterAbandoned(t, i, m);
      if m < k {
        assert EndsAt(t, m, r);
      } else if k < m {
        var a := EndsAtMostOnce(t, k, m, r);
        OnlyCleanupAfterAbandoned(t, i, a);
      }
    }
    forall m | 0 <= m < |t| && t[m].Close? && t[m].how.Abandoned? ensures m == i {
      if m < i {
        OnlyCleanupAfterAbandoned(t, m, i);
      } else if i < m {
        OnlyCleanupAfterAbandoned(t, i, m);
      }
    }
  }

  /** Over a whole cleaned-up run nothing is lost and nothing is closed twice: successful closes and
      attempts in the cleanup together are as many as acquisitions. */
  lemma WholeRunConservation(t: Trace, rank: nat)
    requires Clean(t)
    ensures Acquired(t, rank) == Closed(t, rank, false) + Closed(t, rank, true)
  {
    Conservation(t, rank);
    assert LiveOf(Replay(t), rank) == {};
  }

  lemma {:induction false} FirstEnd(t: Trace, j: int, k: int, r: Resource) returns (i: int)
    requires 0 <= j < k && EndsAt(t, k, r)
    ensures j < i <= k && EndsAt(t, i, r) && forall m | j < m < i :: !EndsAt(t, m, r)
    decreases k
  {
    if m :| j < m < k && EndsAt(t, m, r) {
      i := FirstEnd(t, j, m, r);
    } else {
      i := k;
    }
  }

  /** A trace in which a close is cut short and its resource closed once more by the cleanup. */
  lemma AbandonedExample(instance: PyRef, obj: PyRef)
    ensures var s, p := Statement("s"), Portal("p");
      Clean([Acquire(s, instance, None, None), Acquire(p, instance, Some(s), Some(obj))]
            + [Close(p, instance, Abandoned), Close(p, instance, Final(true)), Close(s, instance, Final(true))])
  {
    var s, p := Statement("s"), Portal("p");
    var acquired := [Acquire(s, instance, None, None), Acquire(p, instance, Some(s), Some(obj))];
    assert [] + [acquired[0]] + [acquired[1]] == acquired;
    Append([], acquired[0]);
    Append([acquired[0]], acquired[1]);
    var held := map[s := Holding(instance, None, None), p := Holding(instance, Some(s), Some(obj))];
    assert Replay(acquired) == Ledger(held, false, false);
    var closed := [Close(p, instance, Abandoned), Close(p, instance, Final(true)), Close(s, instance, Final(true))];
    ClosesInTurn(acquired, closed, held);
  }

  lemma ClosesInTurn(t: Trace, c: Trace, held: map<Resource, Holding>)
    requires Accepted(t) && Replay(t) == Ledger(held, false, false) && |c| == 3
    requires Allowed(Replay(t), c[0]) && c[0].Close? && c[0].how.Abandoned?
    requires Allowed(Ledger(held, false, true), c[1])
    requires Allowed(Apply(Ledger(held, false, true), c[1]), c[2])
    requires Apply(Apply(Ledger(held, false, true), c[1]), c[2]).live == map[]
    ensures Clean(t + c)
  {
    Append(t, c[0]);
    Append(t + [c[0]], c[1]);
    Append(t + [c[0]] + [c[1]], c[2]);
    assert t + c == t + [c[0]] + [c[1]] + [c[2]];
  }
}
