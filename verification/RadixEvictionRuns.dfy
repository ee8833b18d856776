/** What a whole eviction pass does: the least recently used strings go first, and only as many as needed. */
module RadixEvictionRuns {
  import opened Collections
  import opened RadixSpec
  import opened RadixSteps
  import opened RadixEviction

  /** t holds more than max non-empty strings. */
  ghost predicate OverLimit(M: Nodes, max: nat, t: Tenant)
  {
    max + 1 < |Held(M, t)|
  }

  /** Leaf p of t is the oldest of all leaves of tenants over the limit. */
  ghost predicate Evictable(M: Nodes, max: nat, p: string, t: Tenant)
  {
    && Leaf(M, p, t) && OverLimit(M, max, t)
    && forall q, u {:trigger M[q][u]} :: Leaf(M, q, u) && OverLimit(M, max, u) ==> M[p][t] <= M[q][u]
  }

  type Trace = seq<(string, Tenant)>

  ghost function Evicted(M: Nodes, trace: Trace): Nodes
  {
    if trace == [] then M
    else
      var n := |trace| - 1;
      RemoveOwner(Evicted(M, trace[..n]), trace[n].0, trace[n].1)
  }

  /** Every entry of the trace was evictable when its turn came. */
  ghost predicate EvictionRun(M: Nodes, max: nat, trace: Trace)
  {
    trace != [] ==>
      var n := |trace| - 1;
      EvictionRun(M, max, trace[..n]) && Evictable(Evicted(M, trace[..n]), max, trace[n].0, trace[n].1)
  }

  lemma RunExtends(M: Nodes, max: nat, trace: Trace, p: string, t: Tenant)
    requires EvictionRun(M, max, trace) && Evictable(Evicted(M, trace), max, p, t)
    ensures EvictionRun(M, max, trace + [(p, t)])
    ensures Evicted(M, trace + [(p, t)]) == RemoveOwner(Evicted(M, trace), p, t)
  {
    assert (trace + [(p, t)])[..|trace|] == trace;
  }

  /** M is what the eviction pass recorded in trace makes of M0. */
  ghost predicate EvictedBy(M0: Nodes, max: nat, trace: Trace, M: Nodes)
  {
    EvictionRun(M0, max, trace) && M == Evicted(M0, trace)
  }

  lemma EvictedByOneMore(M0: Nodes, max: nat, trace: Trace, M: Nodes, p: string, t: Tenant, M': Nodes)
    requires EvictedBy(M0, max, trace, M) && Evictable(M, max, p, t) && M' == RemoveOwner(M, p, t)
    ensures EvictedBy(M0, max, trace + [(p, t)], M') && Ownership(M') < Ownership(M)
  {
    RunExtends(M0, max, trace, p, t);
    OwnershipShrinks(M, p, t);
  }

  lemma RootLeafHoldsNothing(M: Nodes, t: Tenant)
    requires Leaf(M, "", t)
    ensures Held(M, t) == {""}
  {
    forall s ensures s in Held(M, t) <==> s == "" {
      if s in Held(M, t) {
        var q, k :| q in M && t in M[q] && 0 <= k <= |q| && s == q[..k];
        assert q == "" || "" < q;
      }
      assert "" == ""[..0];
    }
  }

  /** The root is nobody's leaf while they are over the limit. */
  lemma RootNotEvictable(M: Nodes, max: nat, p: string, t: Tenant)
    requires Leaf(M, p, t) && OverLimit(M, max, t) && "" in M
    ensures p != ""
  {
    if p == "" { RootLeafHoldsNothing(M, t); }
  }

  /** Under the clock discipline the oldest leaf is the oldest node of all tenants over the limit. */
  lemma LeafLruIsGlobalLru(M: Nodes, max: nat, p: string, t: Tenant, q: string, u: Tenant)
    requires Owned(M) && TimeOrdered(M) && Evictable(M, max, p, t)
    requires q in M && u in M[q] && OverLimit(M, max, u)
    ensures M[p][t] <= M[q][u]
  {
    var l := LeafBelow(M, q, u);
    assert M[p][t] <= M[l][u];
  }

  lemma {:induction false} RunKeeps(M: Nodes, max: nat, trace: Trace)
    requires Owned(M) && EvictionRun(M, max, trace)
    ensures Owned(Evicted(M, trace)) && Evicted(M, trace)[""].Keys == M[""].Keys
    ensures TimeOrdered(M) ==> TimeOrdered(Evicted(M, trace))
  {
    if trace != [] {
      var n := |trace| - 1;
      RunKeeps(M, max, trace[..n]);
      var M1, p, t := Evicted(M, trace[..n]), trace[n].0, trace[n].1;
      RemoveOwnerOwned(M1, p, t);
      RootNotEvictable(M1, max, p, t);
      RemoveOwnerAt(M1, p, t);
      if TimeOrdered(M) { RemoveOwnerTimes(M1, p, t); }
    }
  }

  /** Nobody gains a string, and what is kept is as old as before. */
  lemma {:induction false} RunOnlyTakes(M: Nodes, max: nat, trace: Trace, u: Tenant, s: string)
    requires Owned(M) && EvictionRun(M, max, trace)
    requires Owned(Evicted(M, trace)) && u in View(Evicted(M, trace), s)
    ensures u in View(M, s) && View(Evicted(M, trace), s)[u] == View(M, s)[u]
  {
    if trace != [] {
      var n := |trace| - 1;
      RunKeeps(M, max, trace[..n]);
      RemoveOwnerView(Evicted(M, trace[..n]), trace[n].0, trace[n].1, s);
      RunOnlyTakes(M, max, trace[..n], u, s);
    }
  }

  /** A tenant within the limit loses nothing. */
  lemma {:induction false} RunSparesSmall(M: Nodes, max: nat, trace: Trace, u: Tenant)
    requires Owned(M) && EvictionRun(M, max, trace) && !OverLimit(M, max, u)
    ensures Held(Evicted(M, trace), u) == Held(M, u)
  {
    if trace != [] {
      var n := |trace| - 1;
      RunSparesSmall(M, max, trace[..n], u);
      RunKeeps(M, max, trace[..n]);
      RemoveOwnerOthers(Evicted(M, trace[..n]), trace[n].0, trace[n].1, u);
    }
  }

  lemma TakenIsOldest(M: Nodes, max: nat, p: string, t: Tenant, lost: string, kept: string)
    requires Owned(M) && TimeOrdered(M) && Evictable(M, max, p, t)
    requires Covers(M.Keys, p, lost) && t in View(M, kept)
    ensures t in View(M, lost) && View(M, lost)[t] <= View(M, kept)[t]
  {
    ViewIs(M, p, lost);
    var q := CoverOrNone(M, kept);
    LeafLruIsGlobalLru(M, max, p, t, q, t);
  }

  /** Everything a tenant lost is at most as recent as anything it kept. */
  lemma {:induction false} RunTakesOldest(M: Nodes, max: nat, trace: Trace, u: Tenant, lost: string, kept: string)
    requires Owned(M) && TimeOrdered(M) && EvictionRun(M, max, trace)
    requires Owned(Evicted(M, trace))
    requires u in View(M, lost) && u !in View(Evicted(M, trace), lost) && u in View(Evicted(M, trace), kept)
    ensures u in View(M, kept) && View(M, lost)[u] <= View(M, kept)[u]
  {
    var n := |trace| - 1;
    RunKeeps(M, max, trace[..n]);
    var M1, p, t := Evicted(M, trace[..n]), trace[n].0, trace[n].1;
    StepTakesOldest(M1, max, p, t, u, lost, kept);
    if u in View(M1, lost) {
      RunOnlyTakes(M, max, trace[..n], u, lost);
      RunOnlyTakes(M, max, trace[..n], u, kept);
    } else {
      RunTakesOldest(M, max, trace[..n], u, lost, kept);
    }
  }

  /** What is lost in one step is the oldest; what is kept was there before. */
  lemma StepTakesOldest(M: Nodes, max: nat, p: string, t: Tenant, u: Tenant, lost: string, kept: string)
    requires Owned(M) && TimeOrdered(M) && Evictable(M, max, p, t)
    requires Owned(RemoveOwner(M, p, t)) && u in View(RemoveOwner(M, p, t), kept)
    requires u !in View(RemoveOwner(M, p, t), lost)
    ensures u in View(M, kept) && (u in View(M, lost) ==> View(M, lost)[u] <= View(M, kept)[u])
  {
    HeldBefore(M, p, t, u, kept);
    if u in View(M, lost) {
      LostIsTaken(M, p, t, u, lost);
      TakenIsOldest(M, max, p, t, lost, kept);
    }
  }

  lemma HeldBefore(M: Nodes, p: string, t: Tenant, u: Tenant, s: string)
    requires Owned(M) && Leaf(M, p, t) && Owned(RemoveOwner(M, p, t)) && u in View(RemoveOwner(M, p, t), s)
    ensures u in View(M, s)
  {
    RemoveOwnerView(M, p, t, s);
  }

  lemma LostIsTaken(M: Nodes, p: string, t: Tenant, u: Tenant, s: string)
    requires Owned(M) && Leaf(M, p, t) && Owned(RemoveOwner(M, p, t)) && u in View(M, s)
    requires u !in View(RemoveOwner(M, p, t), s)
    ensures u == t && Covers(M.Keys, p, s)
  {
    RemoveOwnerView(M, p, t, s);
  }

  /** Some piece of what was held before would not fit any more beside what is held after. */
  ghost predicate WouldNotFit(before: set<string>, after: set<string>, max: nat, a: nat, p: string)
  {
    a < |p| && Segment(a, p) <= before && Segment(a, p) !! after && max + 1 < |after| + |Segment(a, p)|
  }

  /** The last piece a tenant lost was taken while it was still above the limit. */
  lemma {:induction false} RunTakesNoMoreThanNeeded(M: Nodes, max: nat, trace: Trace, u: Tenant)
    returns (a: nat, p: string)
    requires Owned(M) && EvictionRun(M, max, trace)
    requires Held(Evicted(M, trace), u) != Held(M, u)
    ensures WouldNotFit(Held(M, u), Held(Evicted(M, trace), u), max, a, p)
  {
    var n := |trace| - 1;
    RunKeeps(M, max, trace[..n]);
    var M1, q, t := Evicted(M, trace[..n]), trace[n].0, trace[n].1;
    if t == u {
      var r := LastPiece(M1, max, q, u);
      a, p := |r|, q;
      assert Held(M1, u) <= Held(M, u) by { RunShrinks(M, max, trace[..n], u); }
    } else {
      RemoveOwnerOthers(M1, q, t, u);
      a, p := RunTakesNoMoreThanNeeded(M, max, trace[..n], u);
    }
  }

  lemma LastPiece(M: Nodes, max: nat, p: string, t: Tenant) returns (r: string)
    requires Owned(M) && Evictable(M, max, p, t)
    ensures WouldNotFit(Held(M, t), Held(RemoveOwner(M, p, t), t), max, |r|, p)
  {
    RootNotEvictable(M, max, p, t);
    r := ParentOf(M.Keys, p);
    RemoveOwnerHeld(M, r, p, t);
    SegmentSize(|r|, p);
  }

  lemma RunShrinks(M: Nodes, max: nat, trace: Trace, u: Tenant)
    requires Owned(M) && EvictionRun(M, max, trace)
    ensures Held(Evicted(M, trace), u) <= Held(M, u)
  {
    RunKeeps(M, max, trace);
    forall s | s in Held(Evicted(M, trace), u) ensures s in Held(M, u) {
      HeldIsViewed(Evicted(M, trace), u, s);
      RunOnlyTakes(M, max, trace, u, s);
      HeldIsViewed(M, u, s);
    }
  }

  /** Every node but the root has a parent. */
  lemma ParentOf(K: set<string>, p: string) returns (r: string)
    requires "" in K && p != ""
    ensures IsParent(K, r, p)
  {
    var n := |p| - 1;
    while p[..n] !in K
      invariant 0 <= n < |p|
      invariant forall q :: q in K && q < p ==> |q| <= n
      decreases n
    {
      var cut := p[..n];
      forall q | q in K && q < p ensures |q| <= n - 1 {
        assert |q| == n ==> q == cut;
      }
      n := n - 1;
    }
    r := p[..n];
  }

  // ----- the queue of candidates -----

  type Names = set<(string, Tenant)>

  /** The queue holds only leaves, and every leaf of every tenant over the limit. */
  ghost predicate Queued(M: Nodes, max: nat, Q: Names)
  {
    && (forall x {:trigger x in Q} :: x in Q ==> Leaf(M, x.0, x.1))
    && (forall p, t {:trigger Leaf(M, p, t)} :: Leaf(M, p, t) && OverLimit(M, max, t) ==> (p, t) in Q)
  }

  ghost predicate AllLeaves(M: Nodes, Q: Names)
  {
    forall x {:trigger x in Q} :: x in Q ==> Leaf(M, x.0, x.1)
  }

  lemma QueuedAreLeaves(M: Nodes, max: nat, Q: Names, p: string, t: Tenant)
    requires Queued(M, max, Q + {(p, t)})
    ensures AllLeaves(M, Q)
  {
    forall x | x in Q ensures Leaf(M, x.0, x.1) {
      assert x in Q + {(p, t)};
    }
  }

  ghost function Ownership(M: Nodes): Names
  {
    set p, t | p in M && t in M[p] :: (p, t)
  }

  lemma QueueSkips(M: Nodes, max: nat, Q: Names, p: string, t: Tenant)
    requires Queued(M, max, Q) && !OverLimit(M, max, t)
    ensures Queued(M, max, Q - {(p, t)})
  {
    forall q, u | Leaf(M, q, u) && OverLimit(M, max, u) ensures (q, u) in Q - {(p, t)} {
      assert (q, u) in Q;
    }
  }

  /** When p goes, its parent r may take its place in the queue. */
  lemma QueueAdvances(M: Nodes, M': Nodes, max: nat, Q: Names, r: string, p: string, t: Tenant)
    requires Owned(M) && Queued(M, max, Q + {(p, t)}) && (p, t) !in Q
    requires Leaf(M, p, t) && IsParent(M.Keys, r, p) && M' == RemoveOwner(M, p, t)
    ensures Queued(M', max, Q + if Leaf(M', r, t) then {(r, t)} else {})
    ensures (r, t) !in Q
  {
    var Q' := Q + if Leaf(M', r, t) then {(r, t)} else {};
    assert !Leaf(M, r, t);
    forall x | x in Q' ensures Leaf(M', x.0, x.1) {
      if x in Q {
        assert x in Q + {(p, t)};
        OldLeaves(M, r, p, t, x.0, x.1);
      }
    }
    assert (r, t) in Q ==> (r, t) in Q + {(p, t)};
    forall q, u | Leaf(M', q, u) && OverLimit(M', max, u) ensures (q, u) in Q' {
      NewLeaves(M, r, p, t, q, u);
      LimitOnlyFalls(M, max, p, t, u);
    }
  }

  /** Candidates other than the one that goes keep their nodes and timestamps. */
  lemma QueueKeepsOthers(M: Nodes, p: string, t: Tenant, q: string, u: Tenant)
    requires Owned(M) && Leaf(M, p, t) && p != "" && Leaf(M, q, u) && (q, u) != (p, t)
    ensures var M' := RemoveOwner(M, p, t);
      q in M' && u in M'[q] && M'[q][u] == M[q][u]
  {
    OldLeaves(M, ParentName(M.Keys, p), p, t, q, u);
    RemoveOwnerAt(M, p, t);
  }

  lemma LimitOnlyFalls(M: Nodes, max: nat, p: string, t: Tenant, u: Tenant)
    requires Owned(M) && Leaf(M, p, t) && OverLimit(RemoveOwner(M, p, t), max, u)
    ensures OverLimit(M, max, u)
  {
    if u != t {
      RemoveOwnerOthers(M, p, t, u);
    } else if p == "" {
      RootLeafHoldsNothing(M, t);
      RemoveOwnerOwned(M, p, t);
      forall s ensures s !in Held(RemoveOwner(M, p, t), t) {
        HeldIsViewed(M, t, s);
        HeldIsViewed(RemoveOwner(M, p, t), t, s);
        RemoveOwnerView(M, p, t, s);
        ViewAtNode(M, "");
      }
    } else {
      RemoveOwnerHeld(M, ParentName(M.Keys, p), p, t);
    }
  }

  ghost function ParentName(K: set<string>, p: string): (r: string)
    requires "" in K && p != ""
    ensures IsParent(K, r, p)
  {
    ParentExists(K, p);
    var r :| IsParent(K, r, p);
    r
  }

  lemma ParentExists(K: set<string>, p: string)
    requires "" in K && p != ""
    ensures exists r :: IsParent(K, r, p)
  {
    var r := ParentOf(K, p);
  }

  /** An empty queue means that everybody is within the limit. */
  lemma QueueEmpty(M: Nodes, max: nat, t: Tenant)
    requires Queued(M, max, {})
    ensures !OverLimit(M, max, t)
  {
    if OverLimit(M, max, t) {
      assert Held(M, t) != {};
      var s :| s in Held(M, t);
      var q, k :| q in M && t in M[q] && 0 <= k <= |q| && s == q[..k];
      var p := LeafBelow(M, q, t);
    }
  }

  /** t's count drops by what the leaf spells. */
  ghost predicate Refunds(C: map<Tenant, nat>, C': map<Tenant, nat>, t: Tenant, n: nat)
  {
    C'.Keys == C.Keys && forall u {:trigger C'[u]} :: u in C ==> C[u] == C'[u] + if u == t then n else 0
  }

  /** The count of a tenant covers each of its leaves. */
  lemma CountCoversLeaf(M: Nodes, C: map<Tenant, nat>, r: string, p: string, t: Tenant)
    requires Sound(M, C) && Leaf(M, p, t) && IsParent(M.Keys, r, p)
    ensures t in C && |p| - |r| <= C[t]
  {
    var H, S := Held(M, t), Segment(|r|, p);
    assert "" in M && t in M[""];
    RemoveOwnerHeld(M, r, p, t);
    SegmentSize(|r|, p);
    HeldIsViewed(M, t, "");
    ViewAtNode(M, "");
    assert "" in H && "" !in S;
    SubsetSize(S + {""}, H);
  }

  lemma RefundSound(M: Nodes, M': Nodes, C: map<Tenant, nat>, C': map<Tenant, nat>, r: string, p: string, t: Tenant)
    requires Sound(M, C) && Leaf(M, p, t) && IsParent(M.Keys, r, p) && Refunds(C, C', t, |p| - |r|)
    requires M' == RemoveOwner(M, p, t)
    ensures Sound(M', C') && r in M'
  {
    RemoveOwnerOwned(M, p, t);
    RemoveOwnerAt(M, p, t);
    forall u | u in C ensures C'[u] + |Held(M, u)| == C[u] + |Held(M', u)| {
      if u == t { RemoveOwnerHeld(M, r, p, t); } else { RemoveOwnerOthers(M, p, t, u); }
    }
    CountsFollow(M, M', C, C');
  }

  lemma OwnershipShrinks(M: Nodes, p: string, t: Tenant)
    requires p in M && t in M[p]
    ensures Ownership(RemoveOwner(M, p, t)) < Ownership(M)
  {
    RemoveOwnerAt(M, p, t);
    assert (p, t) in Ownership(M);
    assert (p, t) !in Ownership(RemoveOwner(M, p, t));
  }

  // ----- removing a tenant altogether -----

  /** The tree without t: a node goes away when t was its only owner, and only then. */
  ghost function Removed(M: Nodes, t: Tenant): Nodes
  {
    map p | p in M && (p == "" || M[p].Keys != {t}) :: M[p] - {t}
  }

  /** M is M0 on the way to being rid of t. */
  ghost predicate Removing(M0: Nodes, M: Nodes, t: Tenant)
  {
    && Owned(M0) && Owned(M)
    && RemovingNodes(M0, M, t)
    && forall s :: View(M, s) - {t} == View(M0, s) - {t}
  }

  ghost predicate RemovingNodes(M0: Nodes, M: Nodes, t: Tenant)
  {
    && (forall p {:trigger M[p]} :: p in M ==> p in M0 && M[p] - {t} == M0[p] - {t})
    && (forall p {:trigger M0[p]} :: p in M0 && p !in M ==> M0[p].Keys == {t} && p != "")
  }

  lemma RemovingStep(M0: Nodes, M: Nodes, t: Tenant, p: string)
    requires Removing(M0, M, t) && Leaf(M, p, t)
    ensures Removing(M0, RemoveOwner(M, p, t), t)
  {
    var M' := RemoveOwner(M, p, t);
    RemoveOwnerOwned(M, p, t);
    RemovingNodesStep(M0, M, t, p);
    forall s ensures View(M', s) - {t} == View(M0, s) - {t} {
      RemovingView(M0, M, t, p, s);
    }
  }

  lemma RemovingView(M0: Nodes, M: Nodes, t: Tenant, p: string, s: string)
    requires Owned(M0) && Owned(M) && Leaf(M, p, t) && Owned(RemoveOwner(M, p, t))
    requires View(M, s) - {t} == View(M0, s) - {t}
    ensures View(RemoveOwner(M, p, t), s) - {t} == View(M0, s) - {t}
  {
    RemoveOwnerView(M, p, t, s);
    assert View(M, s) - {t} - {t} == View(M, s) - {t};
  }

  lemma RemovedOneMore(M0: Nodes, M: Nodes, M': Nodes, t: Tenant, p: string)
    requires Removing(M0, M, t) && Leaf(M, p, t) && M' == RemoveOwner(M, p, t)
    ensures Removing(M0, M', t) && Ownership(M') < Ownership(M)
  {
    RemovingStep(M0, M, t, p);
    OwnershipShrinks(M, p, t);
  }

  lemma RemovingNodesStep(M0: Nodes, M: Nodes, t: Tenant, p: string)
    requires Owned(M0) && RemovingNodes(M0, M, t) && p in M && t in M[p]
    ensures RemovingNodes(M0, RemoveOwner(M, p, t), t)
  {
    var M' := RemoveOwner(M, p, t);
    RemoveOwnerAt(M, p, t);
    assert M[p] - {t} == M0[p] - {t};
    if p !in M' { OnlyOwner(M0[p], M[p], t); }
    forall x | x in M' ensures x in M0 && M'[x] - {t} == M0[x] - {t} {
      assert M[x] - {t} == M0[x] - {t};
      assert M[x] - {t} - {t} == M[x] - {t};
    }
  }

  lemma OnlyOwner(o0: Owners, o: Owners, t: Tenant)
    requires o - {t} == o0 - {t} && o.Keys == {t} && o0 != map[]
    ensures o0.Keys == {t}
  {
    var v :| v in o0;
    forall u ensures u in o0 ==> u == t {
      assert u in o0 - {t} <==> u in o - {t};
    }
  }

  lemma RemovingDone(M0: Nodes, M: Nodes, t: Tenant)
    requires Removing(M0, M, t) && forall p :: !Leaf(M, p, t)
    ensures M == Removed(M0, t)
    ensures forall s :: View(M, s) == View(M0, s) - {t}
  {
    forall p | p in M ensures t !in M[p] {
      if t in M[p] { var l := LeafBelow(M, p, t); }
    }
    RemovedIs(M0, M, t);
    forall s ensures View(M, s) == View(M0, s) - {t} {
      var c := CoverOrNone(M, s);
      assert View(M, s) - {t} == View(M0, s) - {t};
    }
  }

  lemma RemovedIs(M0: Nodes, M: Nodes, t: Tenant)
    requires Owned(M) && RemovingNodes(M0, M, t) && forall p {:trigger M[p]} :: p in M ==> t !in M[p]
    ensures M == Removed(M0, t)
  {
    forall p | p in M ensures M[p] == M0[p] - {t} && (p != "" ==> M0[p].Keys != {t}) {
      assert M[p] - {t} == M[p];
      if p != "" {
        var u :| u in M[p];
        assert u in M0[p] - {t};
      }
    }
  }

  /** The queue holds exactly the leaves of t. */
  ghost predicate Ready(M: Nodes, t: Tenant, Q: set<string>)
  {
    forall p {:trigger p in Q} {:trigger Leaf(M, p, t)} :: p in Q <==> Leaf(M, p, t)
  }

  /** When p goes, its parent r may take its place in the queue. */
  lemma ReadyAdvances(M: Nodes, M': Nodes, t: Tenant, Q: set<string>, r: string, p: string)
    requires Owned(M) && Ready(M, t, Q + {p}) && p !in Q && IsParent(M.Keys, r, p) && M' == RemoveOwner(M, p, t)
    ensures Ready(M', t, Q + if Leaf(M', r, t) then {r} else {}) && r !in Q
  {
    assert p in Q + {p};
    assert !Leaf(M, r, t);
    assert r in Q ==> r in Q + {p};
    var Q' := Q + if Leaf(M', r, t) then {r} else {};
    forall q ensures q in Q' <==> Leaf(M', q, t) {
      if q in Q {
        assert q in Q + {p};
        OldLeaves(M, r, p, t, q, t);
      }
      if Leaf(M', q, t) {
        NewLeaves(M, r, p, t, q, t);
        assert q == r || q in Q + {p};
      }
    }
  }

  lemma ReadyAtRoot(M: Nodes, M': Nodes, t: Tenant, Q: set<string>)
    requires Ready(M, t, Q + {""}) && "" !in Q && M' == RemoveOwner(M, "", t)
    ensures Ready(M', t, Q)
  {
    assert "" in Q + {""};
    RemoveOwnerAt(M, "", t);
    assert forall p :: p in M && p != "" ==> "" < p;
    forall q ensures q !in Q && !Leaf(M', q, t) {
      assert q in Q ==> q in Q + {""};
    }
  }

  lemma NothingReady(M0: Nodes, M: Nodes, t: Tenant)
    requires Removing(M0, M, t) && Ready(M, t, {})
    ensures M == Removed(M0, t) && forall s :: View(M, s) == View(M0, s) - {t}
  {
    var Q: set<string> := {};
    forall p ensures !Leaf(M, p, t) {
      assert p !in Q;
    }
    RemovingDone(M0, M, t);
  }

  /** Without t's count, the counts of the others stay right. */
  lemma RemovedSound(M: Nodes, C: map<Tenant, nat>, t: Tenant)
    requires Sound(M, C)
    ensures Sound(Removed(M, t), C - {t})
    ensures forall s :: View(Removed(M, t), s) == View(M, s) - {t}
    ensures forall u :: u != t ==> Held(Removed(M, t), u) == Held(M, u)
  {
    RemovedOwned(M, t);
    RemovedCounted(M, Removed(M, t), C, t);
  }

  /** Peeling off leaves of t one by one ends in the tree without t. */
  lemma RemovedOwned(M: Nodes, t: Tenant)
    requires Owned(M)
    ensures Owned(Removed(M, t)) && forall s :: View(Removed(M, t), s) == View(M, s) - {t}
  {
    var M1 := M;
    while exists p :: Leaf(M1, p, t)
      invariant Removing(M, M1, t)
      decreases Ownership(M1)
    {
      var p :| Leaf(M1, p, t);
      RemovedOneMore(M, M1, RemoveOwner(M1, p, t), t, p);
      M1 := RemoveOwner(M1, p, t);
    }
    RemovingDone(M, M1, t);
  }

  lemma RemovedCounted(M0: Nodes, M: Nodes, C: map<Tenant, nat>, t: Tenant)
    requires Sound(M0, C) && Owned(M) && forall s :: View(M, s) == View(M0, s) - {t}
    ensures Sound(M, C - {t})
    ensures forall u :: u != t ==> Held(M, u) == Held(M0, u)
  {
    forall u | u != t ensures Held(M, u) == Held(M0, u) {
      SameHeld(M0, M, u);
    }
    ViewAtNode(M, "");
    ViewAtNode(M0, "");
    assert M[""].Keys == M0[""].Keys - {t};
  }
}
