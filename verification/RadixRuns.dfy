/** What every run of tree operations keeps, whatever their order. */
module RadixRuns {
  import opened Prefixes
  import opened RadixSpec
  import opened RadixSteps
  import opened RadixEviction
  import opened RadixEvictionRuns

  /** A lookup among all tenants: M becomes M', and t is credited at the node named path. */
  ghost predicate Matched(M: Nodes, text: string, now: Time, found: string, t: Tenant, path: string, M': Nodes)
  {
    && LongestSpelled(M.Keys, text, found) && Covers(M.Keys, path, found)
    && (if M[path] == map[] then t == "empty" else t in M[path])
    && M' == if t == "empty" then M else StampPath(M, path, t, now)
  }

  /** A lookup among the strings of t. */
  ghost predicate MatchedFor(M: Nodes, text: string, t: Tenant, now: Time, found: string, path: string, M': Nodes)
  {
    && Branching(M.Keys) && LongestHeld(M, t, text, found) && Covers(M.Keys, path, found)
    && (t !in M[path] ==> found == "")
    && M' == if t in M[path] then StampPath(M, path, t, now) else M
  }

  datatype Op =
    | Insert(text: string, tenant: Tenant, now: Time)
    | Match(text: string, now: Time)
    | MatchFor(text: string, tenant: Tenant, now: Time)
    | Evict(max: nat)
    | Remove(tenant: Tenant)

  /** One operation takes M to M'. */
  ghost predicate Step(M: Nodes, op: Op, M': Nodes)
  {
    match op
    case Insert(text, t, now) => Owned(M) && Owned(M') && Stamped(M, M', t, now, text)
    case Match(text, now) => exists found, t, path :: Matched(M, text, now, found, t, path, M')
    case MatchFor(text, t, now) => exists found, path :: MatchedFor(M, text, t, now, found, path, M')
    case Evict(max) => (exists trace :: EvictedBy(M, max, trace, M')) && forall t :: !OverLimit(M', max, t)
    case Remove(t) => M' == Removed(M, t)
  }

  lemma MatchIsStep(M: Nodes, text: string, now: Time, found: string, t: Tenant, path: string, M': Nodes)
    requires Matched(M, text, now, found, t, path, M')
    ensures Step(M, Match(text, now), M')
  {
  }

  lemma MatchForIsStep(M: Nodes, text: string, t: Tenant, now: Time, found: string, path: string, M': Nodes)
    requires MatchedFor(M, text, t, now, found, path, M')
    ensures Step(M, MatchFor(text, t, now), M')
  {
  }

  /** ops can take the empty tree to M. */
  ghost predicate Reaches(ops: seq<Op>, M: Nodes)
  {
    if ops == [] then M == map["" := map[]]
    else
      var n := |ops| - 1;
      exists M0 :: Reaches(ops[..n], M0) && Step(M0, ops[n], M)
  }

  /** The time of the last operation that reads the clock. */
  function Now(ops: seq<Op>): Time
  {
    if ops == [] then 0
    else
      var n := |ops| - 1;
      if ops[n].Evict? || ops[n].Remove? then Now(ops[..n]) else ops[n].now
  }

  /** The clock never goes back. */
  ghost predicate Clocked(ops: seq<Op>)
  {
    ops != [] ==> Clocked(ops[..|ops| - 1]) && Now(ops[..|ops| - 1]) <= Now(ops)
  }

  ghost predicate Timed(M: Nodes, now: Time)
  {
    TimeOrdered(M) && NoLaterThan(M, now)
  }

  // ----- single steps -----

  /** A lookup changes nobody's strings. */
  lemma MatchKeeps(M: Nodes, path: string, t: Tenant, now: Time, M': Nodes)
    requires Owned(M) && path in M && t in M[path] && M' == StampPath(M, path, t, now)
    ensures Owned(M') && forall u, s :: u in View(M', s) <==> u in View(M, s)
    ensures Timed(M, now) ==> Timed(M', now)
  {
    StampPathStamped(M, path, t, now);
    ViewAtNode(M, path);
    forall u, s ensures u in View(M', s) <==> u in View(M, s) {
      if s <= path { ViewOrdered(M, s, path, t); }
    }
    if Timed(M, now) { StampedKeepsTimes(M, M', t, now, path); }
  }

  lemma EvictKeepsTimes(M: Nodes, max: nat, trace: Trace, M': Nodes, now: Time)
    requires Owned(M) && EvictedBy(M, max, trace, M') && Timed(M, now)
    ensures Timed(M', now)
  {
    RunKeeps(M, max, trace);
    forall p, u | p in M' && u in M'[p] ensures M'[p][u] <= now {
      ViewAtNode(M', p);
      RunOnlyTakes(M, max, trace, u, p);
      ViewBounded(M, p, u, now);
    }
  }

  lemma NothingIsLater(M: Nodes, now: Time, later: Time)
    requires Timed(M, now) && now <= later
    ensures Timed(M, later)
  {
  }

  lemma StepKeeps(M: Nodes, op: Op, M': Nodes)
    requires Owned(M) && Step(M, op, M')
    ensures Owned(M')
  {
    match op
    case Insert(_, _, _) =>
    case Match(text, now) =>
      var found, t, path :| Matched(M, text, now, found, t, path, M');
      if t != "empty" { MatchKeeps(M, path, t, now, M'); }
    case MatchFor(text, t, now) =>
      var found, path :| MatchedFor(M, text, t, now, found, path, M');
      if t in M[path] { MatchKeeps(M, path, t, now, M'); }
    case Evict(max) =>
      var trace :| EvictedBy(M, max, trace, M');
      RunKeeps(M, max, trace);
    case Remove(t) =>
      RemovedOwned(M, t);
  }

  /** Operations that read the clock at time now, or not at all, keep the timestamps in order. */
  lemma StepKeepsTimes(M: Nodes, op: Op, M': Nodes, now: Time)
    requires Owned(M) && Step(M, op, M') && Timed(M, now)
    requires op.Evict? || op.Remove? || op.now == now
    ensures Timed(M', now)
  {
    match op
    case Insert(text, t, _) => StampedKeepsTimes(M, M', t, now, text);
    case Match(text, _) =>
      var found, t, path :| Matched(M, text, now, found, t, path, M');
      if t != "empty" { MatchKeeps(M, path, t, now, M'); }
    case MatchFor(text, t, _) =>
      var found, path :| MatchedFor(M, text, t, now, found, path, M');
      if t in M[path] { MatchKeeps(M, path, t, now, M'); }
    case Evict(max) =>
      var trace :| EvictedBy(M, max, trace, M');
      EvictKeepsTimes(M, max, trace, M', now);
    case Remove(t) =>
  }

  /** Who holds s afterwards: an insertion adds, a removal takes away, an eviction can only take away, lookups do
      nothing. */
  lemma StepHolders(M: Nodes, op: Op, M': Nodes, t: Tenant, s: string)
    requires Owned(M) && Owned(M') && Step(M, op, M')
    ensures match op
            case Insert(text, u, _) => t in View(M', s) <==> t in View(M, s) || (u == t && s <= text)
            case Match(_, _) => t in View(M', s) <==> t in View(M, s)
            case MatchFor(_, _, _) => t in View(M', s) <==> t in View(M, s)
            case Evict(_) => t in View(M', s) ==> t in View(M, s)
            case Remove(u) => t in View(M', s) <==> t in View(M, s) && u != t
  {
    match op
    case Insert(_, _, _) =>
    case Match(text, now) =>
      var found, u, path :| Matched(M, text, now, found, u, path, M');
      if u != "empty" { MatchKeeps(M, path, u, now, M'); }
    case MatchFor(text, u, now) =>
      var found, path :| MatchedFor(M, text, u, now, found, path, M');
      if u in M[path] { MatchKeeps(M, path, u, now, M'); }
    case Evict(max) =>
      var trace :| EvictedBy(M, max, trace, M');
      if t in View(M', s) { RunOnlyTakes(M, max, trace, t, s); }
    case Remove(u) =>
      RemovedOwned(M, u);
  }

  /** Which tenants the root knows afterwards. */
  lemma StepRootOwners(M: Nodes, op: Op, M': Nodes)
    requires Owned(M) && Step(M, op, M')
    ensures "" in M' && M'[""].Keys == match op
              case Insert(_, t, _) => M[""].Keys + {t}
              case Remove(t) => M[""].Keys - {t}
              case _ => M[""].Keys
  {
    StepKeeps(M, op, M');
    if op.Evict? {
      var trace :| EvictedBy(M, op.max, trace, M');
      RunKeeps(M, op.max, trace);
    } else {
      ViewAtNode(M, "");
      ViewAtNode(M', "");
      forall t ensures t in M'[""] <==> match op
          case Insert(_, u, _) => t in M[""] || t == u
          case Remove(u) => t in M[""] && t != u
          case _ => t in M[""]
      {
        StepHolders(M, op, M', t, "");
      }
    }
  }

  // ----- runs -----

  lemma {:induction false} ReachedIsOwned(ops: seq<Op>, M: Nodes)
    requires Reaches(ops, M)
    ensures Owned(M)
  {
    if ops == [] {
      MeetUnique("", "", "");
    } else {
      var n := |ops| - 1;
      var M0 :| Reaches(ops[..n], M0) && Step(M0, ops[n], M);
      ReachedIsOwned(ops[..n], M0);
      StepKeeps(M0, ops[n], M);
    }
  }

  /** While the clock never goes back, no node is newer than an ancestor, for any tenant. */
  lemma {:induction false} ReachedIsTimed(ops: seq<Op>, M: Nodes)
    requires Reaches(ops, M) && Clocked(ops)
    ensures Timed(M, Now(ops))
  {
    if ops != [] {
      var n := |ops| - 1;
      var M0 :| Reaches(ops[..n], M0) && Step(M0, ops[n], M);
      ReachedIsOwned(ops[..n], M0);
      ReachedIsTimed(ops[..n], M0);
      NothingIsLater(M0, Now(ops[..n]), Now(ops));
      StepKeepsTimes(M0, ops[n], M, Now(ops));
    }
  }

  /** s was inserted for t as part of some text, and t has not been removed since. */
  ghost predicate InsertedFor(ops: seq<Op>, t: Tenant, s: string)
  {
    ops != [] &&
    var n := |ops| - 1;
    match ops[n]
    case Insert(text, u, _) => (u == t && s <= text) || InsertedFor(ops[..n], t, s)
    case Remove(u) => u != t && InsertedFor(ops[..n], t, s)
    case _ => InsertedFor(ops[..n], t, s)
  }

  /** The same, and there has been no eviction since either. */
  ghost predicate SafelyInsertedFor(ops: seq<Op>, t: Tenant, s: string)
  {
    ops != [] &&
    var n := |ops| - 1;
    match ops[n]
    case Insert(text, u, _) => (u == t && s <= text) || SafelyInsertedFor(ops[..n], t, s)
    case Remove(u) => u != t && SafelyInsertedFor(ops[..n], t, s)
    case Evict(_) => false
    case _ => SafelyInsertedFor(ops[..n], t, s)
  }

  /** Over whole runs a tenant holds only prefixes of what was inserted for it, and all of them until an eviction. */
  lemma {:induction false} HeldWasInserted(ops: seq<Op>, M: Nodes, t: Tenant, s: string)
    requires Reaches(ops, M) && Owned(M)
    ensures t in View(M, s) ==> InsertedFor(ops, t, s)
    ensures SafelyInsertedFor(ops, t, s) ==> t in View(M, s)
  {
    if ops == [] {
      UnknownTenant(M, t, s);
    } else {
      var n := |ops| - 1;
      var M0 :| Reaches(ops[..n], M0) && Step(M0, ops[n], M);
      ReachedIsOwned(ops[..n], M0);
      HeldWasInserted(ops[..n], M0, t, s);
      StepHolders(M0, ops[n], M, t, s);
    }
  }

  /** What was inserted for a tenant is found again in full, until an eviction or its removal. */
  lemma InsertedIsFound(ops: seq<Op>, M: Nodes, t: Tenant, text: string, found: string)
    requires Reaches(ops, M) && Owned(M)
    requires SafelyInsertedFor(ops, t, text) && LongestHeld(M, t, text, found)
    ensures found == text
  {
    HeldWasInserted(ops, M, t, text);
    assert text <= found;
  }

  /** In every run with a sane clock, each string an eviction takes is the oldest of all that any tenant over the
      limit has. */
  lemma RunsEvictOldest(ops: seq<Op>, M: Nodes, max: nat, trace: Trace, i: nat, q: string, u: Tenant)
    requires Reaches(ops, M) && Clocked(ops) && EvictionRun(M, max, trace) && i < |trace|
    requires var M1 := Evicted(M, trace[..i]);
      q in M1 && u in M1[q] && OverLimit(M1, max, u)
    ensures var M1, p, t := Evicted(M, trace[..i]), trace[i].0, trace[i].1;
      p in M1 && t in M1[p] && M1[p][t] <= M1[q][u]
  {
    ReachedIsOwned(ops, M);
    ReachedIsTimed(ops, M);
    RunPrefix(M, max, trace, i);
    RunKeeps(M, max, trace[..i]);
    LeafLruIsGlobalLru(Evicted(M, trace[..i]), max, trace[i].0, trace[i].1, q, u);
  }

  /** Nothing a tenant loses in an eviction is newer than anything it keeps. */
  lemma RunsLoseOldest(ops: seq<Op>, M: Nodes, max: nat, trace: Trace, M': Nodes, u: Tenant, lost: string, kept: string)
    requires Reaches(ops, M) && Clocked(ops) && EvictedBy(M, max, trace, M') && Owned(M) && Owned(M')
    requires u in View(M, lost) && u !in View(M', lost) && u in View(M', kept)
    ensures u in View(M, kept) && View(M, lost)[u] <= View(M, kept)[u]
  {
    ReachedIsTimed(ops, M);
    RunTakesOldest(M, max, trace, u, lost, kept);
  }

  lemma {:induction false} RunPrefix(M: Nodes, max: nat, trace: Trace, i: nat)
    requires EvictionRun(M, max, trace) && i < |trace|
    ensures EvictionRun(M, max, trace[..i]) && Evictable(Evicted(M, trace[..i]), max, trace[i].0, trace[i].1)
  {
    var init := trace[..|trace| - 1];
    if i < |init| {
      RunPrefix(M, max, init, i);
      assert init[..i] == trace[..i] && init[i] == trace[i];
    } else {
      assert trace[..i] == init;
    }
  }
}
