/** The radix tree as a value: which strings end a node, and who owns each node since when. */
module RadixSpec {
  import opened Prefixes

  type Tenant = string
  type Time = nat
  type Owners = map<Tenant, Time>
  /** A node is named by the string spelled from the root to its end. */
  type Nodes = map<string, Owners>

  function Stamp(o: Owners, t: Tenant, now: Time): Owners
  {
    o[t := now]
  }

  /** The node names of a radix tree: the root, and every branching point of two names. */
  ghost predicate Branching(K: set<string>)
  {
    "" in K && forall p, q {:trigger Meet(p, q)} :: p in K && q in K ==> Meet(p, q) in K
  }

  /** r names the parent of node p: the longest proper prefix of p that is a node. */
  ghost predicate IsParent(K: set<string>, r: string, p: string)
  {
    r in K && r < p && forall q :: q in K && q < p ==> q <= r
  }

  /** The node p spells the last character of s: the shortest node that extends s. */
  ghost predicate Covers(K: set<string>, p: string, s: string)
  {
    p in K && s <= p && forall q :: q in K && s <= q ==> p <= q
  }

  /** Representation invariant on ownership. */
  ghost predicate Owned(M: Nodes)
  {
    && Branching(M.Keys)
    && (forall p, q {:trigger M[p], M[q]} :: p in M && q in M && p <= q ==> M[q].Keys <= M[p].Keys)
    && (forall p {:trigger M[p]} :: p in M && p != "" ==> M[p] != map[])
  }

  /** No node was used by a tenant after its ancestors were. */
  ghost predicate TimeOrdered(M: Nodes)
  {
    forall p, q, t {:trigger M[p][t], M[q][t]} ::
      p in M && q in M && p <= q && t in M[q] && t in M[p] ==> M[q][t] <= M[p][t]
  }

  ghost predicate NoLaterThan(M: Nodes, now: Time)
  {
    forall p, t {:trigger M[p][t]} :: p in M && t in M[p] ==> M[p][t] <= now
  }

  lemma CoverExists(K: set<string>, q: string, s: string)
    requires Branching(K) && q in K && s <= q
    ensures exists p :: Covers(K, p, s)
    decreases |q|
  {
    if !Covers(K, q, s) {
      var r :| r in K && s <= r && !(q <= r);
      MeetIsGreatest(q, r, s);
      CoverExists(K, Meet(q, r), s);
    }
  }

  /** Some node spells the string s. */
  ghost predicate Spelled(K: set<string>, s: string)
  {
    exists q :: q in K && s <= q
  }

  /** The owners of the string s: those of the node that spells its last character. */
  ghost function View(M: Nodes, s: string): (o: Owners)
    requires Branching(M.Keys)
  {
    if Spelled(M.Keys, s) then
      assert exists p :: Covers(M.Keys, p, s) by {
        var q :| q in M && s <= q;
        CoverExists(M.Keys, q, s);
      }
      var p :| Covers(M.Keys, p, s);
      M[p]
    else map[]
  }

  lemma CoverUnique(K: set<string>, p: string, q: string, s: string)
    requires Covers(K, p, s) && Covers(K, q, s)
    ensures p == q
  {
    assert p <= q && q <= p;
  }

  lemma ViewIs(M: Nodes, p: string, s: string)
    requires Branching(M.Keys) && Covers(M.Keys, p, s)
    ensures View(M, s) == M[p]
  {
    var q :| Covers(M.Keys, q, s) && View(M, s) == M[q];
    CoverUnique(M.Keys, p, q, s);
  }

  /** The strings a node spells itself are those longer than its parent. */
  lemma SegmentOf(K: set<string>, r: string, p: string, s: string)
    requires Branching(K) && IsParent(K, r, p) && p in K
    ensures Covers(K, p, s) <==> r < s <= p
  {
    if r < s <= p {
      forall q | q in K && s <= q ensures p <= q {
        MeetIsGreatest(p, q, s);
        assert Meet(p, q) < p ==> Meet(p, q) <= r;
      }
    }
    if s <= p && !(r < s) {
      PrefixesNest(s, r, p);
    }
  }

  /** Adding a leaf r below p, on a character no node below p starts with. */
  lemma GraftShape(K: set<string>, p: string, r: string)
    requires Branching(K) && p in K && p < r
    requires forall q :: q in K ==> !(r[..|p| + 1] <= q)
    ensures r !in K && Branching(K + {r}) && IsParent(K + {r}, p, r)
    ensures forall x, q :: q in K && IsParent(K, x, q) ==> IsParent(K + {r}, x, q)
  {
    var s := r[..|p| + 1];
    forall a, b | a in K + {r} && b in K + {r} ensures Meet(a, b) in K + {r} {
      if a in K && b == r {
        GraftMeet(K, p, r, a);
      } else if a == r && b in K {
        GraftMeet(K, p, r, b);
        MeetSymmetric(a, b);
      } else if a == r && b == r {
        MeetUnique(r, r, r);
      }
    }
    forall q | q in K + {r} && q < r ensures q <= p {
      assert |p| < |q| ==> s <= q;
    }
    forall x, q | q in K && IsParent(K, x, q) ensures IsParent(K + {r}, x, q) {
      assert r < q ==> s <= q;
    }
  }

  lemma GraftMeet(K: set<string>, p: string, r: string, a: string)
    requires Branching(K) && p in K && p < r && a in K
    requires forall q :: q in K ==> !(r[..|p| + 1] <= q)
    ensures Meet(a, r) in K
  {
    var m, s := Meet(a, r), r[..|p| + 1];
    assert |p| < |m| ==> s <= a;
    PrefixesNest(m, p, r);
    MeetIsGreatest(a, p, m);
    assert Meet(a, p) == m by {
      MeetIsGreatest(a, r, Meet(a, p));
    }
  }

  /** Cutting the edge from r to p at m. */
  lemma SplitShape(K: set<string>, r: string, p: string, m: string)
    requires Branching(K) && p in K && IsParent(K, r, p) && r < m && m < p
    ensures m !in K && Branching(K + {m})
    ensures IsParent(K + {m}, r, m) && IsParent(K + {m}, m, p)
    ensures forall x, q :: q in K && q != p && IsParent(K, x, q) ==> IsParent(K + {m}, x, q)
  {
    forall a | a in K ensures Meet(m, a) in K + {m} {
      SplitMeet(K, r, p, m, a);
    }
    forall a, b | a in K + {m} && b in K + {m} ensures Meet(a, b) in K + {m} {
      if a in K && b == m {
        MeetSymmetric(a, b);
      } else if a == m && b == m {
        MeetUnique(m, m, m);
      }
    }
    assert Covers(K, p, m) by { SegmentOf(K, r, p, m); }
    forall x, q | q in K && q != p && IsParent(K, x, q) ensures IsParent(K + {m}, x, q) {
      if m < q {
        assert p < q;
        assert p <= x;
      }
    }
    forall q | q in K + {m} && q < p ensures q <= m {
    }
  }

  lemma SplitMeet(K: set<string>, r: string, p: string, m: string, a: string)
    requires Branching(K) && p in K && a in K && IsParent(K, r, p) && r < m && m < p
    ensures Meet(m, a) in K + {m}
  {
    var d := Meet(p, a);
    assert d in K;
    if |d| < |m| {
      PrefixesNest(d, m, p);
      assert Meet(m, a) == d by { MeetUnique(m, a, d); }
    } else {
      PrefixesNest(m, d, p);
      MeetUnique(m, a, m);
    }
  }

  /** Removing a childless node. */
  lemma PruneShape(K: set<string>, p: string)
    requires Branching(K) && p in K && p != "" && forall q :: q in K ==> !(p < q)
    ensures Branching(K - {p})
    ensures forall x, q :: q in K && q != p && IsParent(K, x, q) ==> IsParent(K - {p}, x, q)
  {
    forall a, b | a in K - {p} && b in K - {p} ensures Meet(a, b) in K - {p} {
      assert Meet(a, b) == p ==> p < a || p == a;
    }
  }

  // ----- what each elementary change does to the owners of every string -----

  /** t now holds every non-empty prefix of q that is longer than p; nothing else differs. */
  ghost predicate SegmentStamped(M: Nodes, M': Nodes, t: Tenant, now: Time, p: string, q: string)
    requires Branching(M.Keys) && Branching(M'.Keys)
  {
    && (forall s :: View(M', s) == if p < s <= q then View(M, s)[t := now] else View(M, s))
    && (forall s :: p < s <= q ==> View(M, s) == View(M, q))
  }

  /** t holds every prefix of text since now; nothing else differs. */
  ghost predicate Stamped(M: Nodes, M': Nodes, t: Tenant, now: Time, text: string)
    requires Branching(M.Keys) && Branching(M'.Keys)
  {
    forall s :: View(M', s) == if s <= text then View(M, s)[t := now] else View(M, s)
  }

  lemma ViewAtNode(M: Nodes, p: string)
    requires Branching(M.Keys) && p in M
    ensures Covers(M.Keys, p, p) && View(M, p) == M[p]
  {
    ViewIs(M, p, p);
  }

  /** Some node covers s, or s has no owners. */
  lemma CoverOrNone(M: Nodes, s: string) returns (p: string)
    requires Branching(M.Keys)
    ensures Spelled(M.Keys, s) ==> Covers(M.Keys, p, s) && View(M, s) == M[p]
    ensures !Spelled(M.Keys, s) ==> View(M, s) == map[]
  {
    p := "";
    if Spelled(M.Keys, s) {
      var q :| q in M.Keys && s <= q;
      CoverExists(M.Keys, q, s);
      p :| Covers(M.Keys, p, s);
      ViewIs(M, p, s);
    }
  }

  lemma SetView(M: Nodes, p: string, o: Owners, s: string)
    requires Branching(M.Keys) && p in M
    ensures M[p := o].Keys == M.Keys
    ensures View(M[p := o], s) == if Covers(M.Keys, p, s) then o else View(M, s)
  {
    var M' := M[p := o];
    assert M'.Keys == M.Keys;
    var q := CoverOrNone(M, s);
    if Spelled(M.Keys, s) {
      ViewIs(M', q, s);
      if Covers(M.Keys, p, s) { CoverUnique(M.Keys, p, q, s); }
    }
  }

  lemma GraftView(M: Nodes, p: string, r: string, o: Owners, s: string)
    requires Branching(M.Keys) && p in M && p < r
    requires forall q :: q in M.Keys ==> !(r[..|p| + 1] <= q)
    ensures M[r := o].Keys == M.Keys + {r} && Branching(M.Keys + {r})
    ensures View(M[r := o], s) == if p < s <= r then o else View(M, s)
    ensures p < s <= r ==> View(M, s) == map[]
  {
    var M' := M[r := o];
    GraftShape(M.Keys, p, r);
    assert M'.Keys == M.Keys + {r};
    SegmentOf(M'.Keys, p, r, s);
    var q := CoverOrNone(M, s);
    if p < s <= r {
      ViewIs(M', r, s);
      assert r[..|p| + 1] <= s;
      assert !Spelled(M.Keys, s);
    } else {
      assert s <= r ==> s <= p;
      if Spelled(M.Keys, s) {
        assert s <= r ==> q <= p;
        ViewIs(M', q, s);
      } else {
        assert !Spelled(M'.Keys, s);
      }
    }
  }

  lemma SplitView(M: Nodes, r: string, p: string, m: string, s: string)
    requires Branching(M.Keys) && p in M && IsParent(M.Keys, r, p) && r < m && m < p
    ensures M[m := M[p]].Keys == M.Keys + {m} && Branching(M.Keys + {m})
    ensures View(M[m := M[p]], s) == View(M, s)
  {
    var M' := M[m := M[p]];
    SplitShape(M.Keys, r, p, m);
    assert M'.Keys == M.Keys + {m};
    SegmentOf(M'.Keys, r, m, s);
    SegmentOf(M.Keys, r, p, s);
    var q := CoverOrNone(M, s);
    if r < s <= m {
      ViewIs(M', m, s);
      ViewIs(M, p, s);
    } else if Spelled(M.Keys, s) {
      assert s <= m ==> s <= r;
      ViewIs(M', q, s);
    } else {
      assert !Spelled(M'.Keys, s);
    }
  }

  // ----- the steps of an insertion -----

  lemma RootStep(M: Nodes, t: Tenant, now: Time)
    requires Owned(M)
    ensures var M' := M["" := Stamp(M[""], t, now)];
            Owned(M') && M'.Keys == M.Keys && Stamped(M, M', t, now, "")
  {
    var M' := M["" := Stamp(M[""], t, now)];
    assert M'.Keys == M.Keys;
    ViewAtNode(M, "");
    forall s ensures View(M', s) == if s <= "" then View(M, s)[t := now] else View(M, s) {
      SetView(M, "", M'[""], s);
    }
  }

  lemma GraftStep(M: Nodes, p: string, r: string, t: Tenant, now: Time)
    requires Owned(M) && p in M && t in M[p] && p < r
    requires forall q :: q in M.Keys ==> !(r[..|p| + 1] <= q)
    ensures var M' := M[r := map[t := now]];
            Owned(M') && SegmentStamped(M, M', t, now, p, r)
  {
    var M' := M[r := map[t := now]];
    GraftOwned(M, p, r, t, now);
    forall s ensures View(M', s) == if p < s <= r then View(M, s)[t := now] else View(M, s) {
      GraftView(M, p, r, M'[r], s);
    }
    forall s | p < s <= r ensures View(M, s) == View(M, r) {
      GraftView(M, p, r, M'[r], s);
      GraftView(M, p, r, M'[r], r);
    }
  }

  lemma GraftOwned(M: Nodes, p: string, r: string, t: Tenant, now: Time)
    requires Owned(M) && p in M && t in M[p] && p < r
    requires forall q :: q in M.Keys ==> !(r[..|p| + 1] <= q)
    ensures Owned(M[r := map[t := now]])
  {
    var M' := M[r := map[t := now]];
    GraftShape(M.Keys, p, r);
    assert M'.Keys == M.Keys + {r};
    assert forall x :: x in M && x <= r ==> x <= p;
    assert t in M'[r];
  }

  lemma MoveStep(M: Nodes, p: string, q: string, t: Tenant, now: Time)
    requires Owned(M) && q in M && IsParent(M.Keys, p, q) && t in M[p]
    ensures var M' := M[q := Stamp(M[q], t, now)];
            Owned(M') && M'.Keys == M.Keys && SegmentStamped(M, M', t, now, p, q)
  {
    var M' := M[q := Stamp(M[q], t, now)];
    MoveOwned(M, p, q, t, now);
    assert M'.Keys == M.Keys;
    forall s ensures View(M', s) == if p < s <= q then View(M, s)[t := now] else View(M, s) {
      SetView(M, q, M'[q], s);
      SegmentOf(M.Keys, p, q, s);
      if p < s <= q { ViewIs(M, q, s); }
    }
    MoveUniform(M, p, q);
  }

  lemma MoveUniform(M: Nodes, p: string, q: string)
    requires Branching(M.Keys) && q in M && IsParent(M.Keys, p, q)
    ensures forall s :: p < s <= q ==> View(M, s) == View(M, q)
  {
    ViewAtNode(M, q);
    forall s | p < s <= q ensures View(M, s) == View(M, q) {
      SegmentOf(M.Keys, p, q, s);
      ViewIs(M, q, s);
    }
  }

  lemma MoveOwned(M: Nodes, p: string, q: string, t: Tenant, now: Time)
    requires Owned(M) && q in M && IsParent(M.Keys, p, q) && t in M[p]
    ensures Owned(M[q := Stamp(M[q], t, now)])
  {
    var M' := M[q := Stamp(M[q], t, now)];
    assert M'.Keys == M.Keys;
    forall x, y | x in M && y in M && x <= y ensures M'[y].Keys <= M'[x].Keys {
      if y == q && |x| < |q| {
        assert x <= p;
      } else if y == q {
        assert x == q;
      }
    }
    assert t in M'[q];
  }

  lemma SplitStep(M: Nodes, p: string, q: string, m: string, t: Tenant, now: Time)
    requires Owned(M) && q in M && IsParent(M.Keys, p, q) && t in M[p] && p < m && m < q
    ensures var M' := M[m := M[q]][m := Stamp(M[q], t, now)];
            Owned(M') && M'.Keys == M.Keys + {m} && SegmentStamped(M, M', t, now, p, m)
  {
    var M1 := M[m := M[q]];
    SplitShape(M.Keys, p, q, m);
    assert M1.Keys == M.Keys + {m};
    assert Owned(M1) by {
      assert Covers(M.Keys, q, m) by { SegmentOf(M.Keys, p, q, m); }
    }
    MoveStep(M1, p, m, t, now);
    forall s ensures View(M1, s) == View(M, s) {
      SplitView(M, p, q, m, s);
    }
    ViewAtNode(M1, m);
  }

  // ----- sizes -----

  /** The strings t can be matched on: every prefix of a node it owns. */
  ghost function Held(M: Nodes, t: Tenant): set<string>
  {
    set p, k | p in M && t in M[p] && 0 <= k <= |p| :: p[..k]
  }

  lemma HeldIsViewed(M: Nodes, t: Tenant, s: string)
    requires Owned(M)
    ensures s in Held(M, t) <==> t in View(M, s)
  {
    var c := CoverOrNone(M, s);
    if s in Held(M, t) {
      var p, k :| p in M && t in M[p] && 0 <= k <= |p| && s == p[..k];
      assert s <= p;
      assert c <= p;
    }
    if t in View(M, s) {
      assert s == c[..|s|];
    }
  }

  /** The largest value of a machine counter. */
  const USIZE_MAX: nat := 0xFFFF_FFFF_FFFF_FFFF

  /** t has the smallest count, or is the placeholder when every count is out of range. */
  ghost predicate Smallest(C: map<Tenant, nat>, t: Tenant)
  {
    if exists u :: u in C && C[u] < USIZE_MAX then t in C && forall u :: u in C ==> C[t] <= C[u]
    else t == "empty"
  }

  /** Every tenant's count is the number of non-empty strings it holds. */
  ghost predicate Counted(M: Nodes, C: map<Tenant, nat>)
    requires "" in M
  {
    C.Keys == M[""].Keys && forall t {:trigger Held(M, t)} :: t in C ==> C[t] + 1 == |Held(M, t)|
  }

  /** The prefixes of q longer than a. */
  ghost function Segment(a: nat, q: string): set<string>
  {
    set k | a < k <= |q| :: q[..k]
  }

  lemma {:induction false} SegmentSize(a: nat, q: string)
    requires a <= |q|
    ensures |Segment(a, q)| == |q| - a
    decreases |q| - a
  {
    if a < |q| {
      SegmentSize(a + 1, q);
      assert Segment(a, q) == {q[..a + 1]} + Segment(a + 1, q);
      assert forall k :: a + 1 < k <= |q| ==> |q[..k]| == k;
    } else {
      assert Segment(a, q) == {};
    }
  }

  lemma SegmentMember(p: string, q: string, s: string)
    requires p <= q
    ensures s in Segment(|p|, q) <==> p < s <= q
  {
    if p < s <= q { assert s == q[..|s|]; }
  }

  lemma SameHeld(M: Nodes, M': Nodes, t: Tenant)
    requires Owned(M) && Owned(M')
    requires forall s :: t in View(M', s) <==> t in View(M, s)
    ensures Held(M', t) == Held(M, t)
  {
    forall s ensures s in Held(M', t) <==> s in Held(M, t) {
      HeldIsViewed(M, t, s);
      HeldIsViewed(M', t, s);
    }
  }

  /** Stamping a fresh segment adds exactly its characters to t and nothing to anybody else. */
  lemma StepHeld(M: Nodes, M': Nodes, t: Tenant, now: Time, p: string, q: string)
    requires Owned(M) && Owned(M') && SegmentStamped(M, M', t, now, p, q) && p < q
    ensures |Held(M', t)| == |Held(M, t)| + if t in View(M, q) then 0 else |q| - |p|
    ensures forall u :: u != t ==> Held(M', u) == Held(M, u)
    ensures M'[""] == M[""]
  {
    ViewAtNode(M, "");
    ViewAtNode(M', "");
    forall u | u != t ensures Held(M', u) == Held(M, u) {
      SameHeld(M, M', u);
    }
    if t in View(M, q) {
      SameHeld(M, M', t);
    } else {
      forall s ensures s in Held(M', t) <==> s in Held(M, t) + Segment(|p|, q) {
        HeldIsViewed(M, t, s);
        HeldIsViewed(M', t, s);
        SegmentMember(p, q, s);
      }
      forall s | s in Held(M, t) ensures s !in Segment(|p|, q) {
        HeldIsViewed(M, t, s);
        SegmentMember(p, q, s);
      }
      assert Held(M', t) == Held(M, t) + Segment(|p|, q);
      SegmentSize(|p|, q);
    }
  }

  lemma CountsFollow(M: Nodes, M': Nodes, C: map<Tenant, nat>, C': map<Tenant, nat>)
    requires "" in M && "" in M' && Counted(M, C) && M'[""].Keys == M[""].Keys && C'.Keys == C.Keys
    requires forall u {:trigger C'[u]} :: u in C ==> C'[u] + |Held(M, u)| == C[u] + |Held(M', u)|
    ensures Counted(M', C')
  {
    forall u | u in C' ensures C'[u] + 1 == |Held(M', u)| {
      assert C[u] + 1 == |Held(M, u)|;
    }
  }

  lemma RootHeld(M: Nodes, t: Tenant, now: Time)
    requires Owned(M)
    ensures var M' := M["" := Stamp(M[""], t, now)];
      && (forall u :: u != t || t in M[""] ==> Held(M', u) == Held(M, u))
      && (t !in M[""] ==> Held(M', t) == {""})
  {
    var M' := M["" := Stamp(M[""], t, now)];
    RootStep(M, t, now);
    ViewAtNode(M, "");
    forall u | u != t || t in M[""] ensures Held(M', u) == Held(M, u) {
      SameHeld(M, M', u);
    }
    if t !in M[""] {
      forall s ensures s in Held(M', t) <==> s == "" {
        HeldIsViewed(M', t, s);
        UnknownTenant(M, t, s);
      }
    }
  }

  lemma RootCounted(M: Nodes, C: map<Tenant, nat>, t: Tenant, now: Time)
    requires Owned(M) && Counted(M, C)
    ensures Counted(M["" := Stamp(M[""], t, now)], if t in C then C else C[t := 0])
  {
    RootHeld(M, t, now);
  }

  /** A tenant the root does not know holds nothing. */
  lemma UnknownTenant(M: Nodes, t: Tenant, s: string)
    requires Owned(M) && t !in M[""]
    ensures t !in View(M, s)
  {
    var c := CoverOrNone(M, s);
    if Spelled(M.Keys, s) { assert "" <= c; }
  }
}
