/** How insertions and matches compose out of elementary steps, and what they keep. */
module RadixSteps {
  import opened Prefixes
  import opened RadixSpec

  /** The node names after inserting text: text itself and the points where it leaves older names. */
  ghost function InsertedNames(K: set<string>, text: string): set<string>
  {
    K + {text} + set q | q in K :: Meet(text, q)
  }

  /** A well-formed tree value with correct counts. */
  ghost predicate Sound(M: Nodes, C: map<Tenant, nat>)
  {
    Owned(M) && Counted(M, C)
  }

  /** C' charges n more characters to t. */
  ghost predicate Charges(C: map<Tenant, nat>, C': map<Tenant, nat>, t: Tenant, n: nat)
  {
    C'.Keys == C.Keys && forall u {:trigger C'[u]} :: u in C ==> C'[u] == C[u] + if u == t then n else 0
  }

  /** A new owner of a segment is charged for its characters, an old one is not. */
  lemma ChargedCounted(M: Nodes, M': Nodes, C: map<Tenant, nat>, C': map<Tenant, nat>,
                       t: Tenant, now: Time, p: string, q: string)
    requires Sound(M, C) && Owned(M') && SegmentStamped(M, M', t, now, p, q) && p < q
    requires Charges(C, C', t, if t in View(M, q) then 0 else |q| - |p|)
    ensures Sound(M', C')
  {
    assert M'[""] == M[""] && "" in M && "" in M'
      && forall u {:trigger C'[u]} :: u in C ==> C'[u] + |Held(M, u)| == C[u] + |Held(M', u)| by {
      StepHeld(M, M', t, now, p, q);
    }
    CountsFollow(M, M', C, C');
  }

  // ----- one round of an insertion, from node p to the next node q on the way to text -----

  /** Nothing below p continues like text: the rest of text becomes a leaf. */
  ghost predicate LeafRound(M: Nodes, M': Nodes, C: map<Tenant, nat>, C': map<Tenant, nat>,
                            p: string, q: string, text: string, t: Tenant, now: Time)
  {
    && p in M && p < q && q == text
    && (forall x :: x in M.Keys ==> !(q[..|p| + 1] <= x))
    && M' == M[q := map[t := now]]
    && Charges(C, C', t, |q| - |p|)
  }

  /** The edge to q is covered by text. */
  ghost predicate WalkRound(M: Nodes, M': Nodes, C: map<Tenant, nat>, C': map<Tenant, nat>,
                            p: string, q: string, text: string, t: Tenant, now: Time)
  {
    && q in M && IsParent(M.Keys, p, q) && q <= text
    && M' == M[q := Stamp(M[q], t, now)]
    && Charges(C, C', t, if t in M[q] then 0 else |q| - |p|)
  }

  /** The edge to b is left at q: the edge is cut there, and q starts with b's owners. */
  ghost predicate SplitRound(M: Nodes, M': Nodes, C: map<Tenant, nat>, C': map<Tenant, nat>,
                             p: string, q: string, b: string, text: string, t: Tenant, now: Time)
  {
    && b in M && IsParent(M.Keys, p, b) && p < q && q < b && q <= text
    && (q < text ==> b[|q|] != text[|q|])
    && M' == M[q := Stamp(M[b], t, now)]
    && Charges(C, C', t, if t in M[b] then 0 else |q| - |p|)
  }

  lemma Overwritten(M: Nodes, q: string, o: Owners, o': Owners)
    ensures M[q := o][q := o'] == M[q := o']
  {
  }

  ghost predicate Round(M: Nodes, M': Nodes, C: map<Tenant, nat>, C': map<Tenant, nat>,
                        p: string, q: string, text: string, t: Tenant, now: Time)
  {
    || LeafRound(M, M', C, C', p, q, text, t, now)
    || WalkRound(M, M', C, C', p, q, text, t, now)
    || exists b :: SplitRound(M, M', C, C', p, q, b, text, t, now)
  }

  lemma LeafRoundKeeps(M: Nodes, M': Nodes, C: map<Tenant, nat>, C': map<Tenant, nat>,
                       p: string, q: string, text: string, t: Tenant, now: Time)
    requires Sound(M, C) && LeafRound(M, M', C, C', p, q, text, t, now) && t in M[p]
    ensures Sound(M', C') && SegmentStamped(M, M', t, now, p, q)
  {
    GraftStep(M, p, q, t, now);
    GraftView(M, p, q, map[t := now], q);
    ChargedCounted(M, M', C, C', t, now, p, q);
  }

  lemma WalkRoundKeeps(M: Nodes, M': Nodes, C: map<Tenant, nat>, C': map<Tenant, nat>,
                       p: string, q: string, text: string, t: Tenant, now: Time)
    requires Sound(M, C) && WalkRound(M, M', C, C', p, q, text, t, now) && t in M[p]
    ensures Sound(M', C') && SegmentStamped(M, M', t, now, p, q)
  {
    MoveStep(M, p, q, t, now);
    ViewAtNode(M, q);
    ChargedCounted(M, M', C, C', t, now, p, q);
  }

  lemma SplitRoundKeeps(M: Nodes, M': Nodes, C: map<Tenant, nat>, C': map<Tenant, nat>,
                        p: string, q: string, b: string, text: string, t: Tenant, now: Time)
    requires Sound(M, C) && SplitRound(M, M', C, C', p, q, b, text, t, now) && t in M[p]
    ensures Sound(M', C') && SegmentStamped(M, M', t, now, p, q)
  {
    SplitStep(M, p, b, q, t, now);
    Overwritten(M, q, M[b], Stamp(M[b], t, now));
    SegmentOf(M.Keys, p, b, q);
    ViewIs(M, b, q);
    ChargedCounted(M, M', C, C', t, now, p, q);
  }

  lemma RoundKeeps(M: Nodes, M': Nodes, C: map<Tenant, nat>, C': map<Tenant, nat>,
                   p: string, q: string, text: string, t: Tenant, now: Time)
    requires Sound(M, C) && Round(M, M', C, C', p, q, text, t, now) && p in M && t in M[p]
    ensures Sound(M', C') && SegmentStamped(M, M', t, now, p, q)
  {
    if LeafRound(M, M', C, C', p, q, text, t, now) {
      LeafRoundKeeps(M, M', C, C', p, q, text, t, now);
    } else if WalkRound(M, M', C, C', p, q, text, t, now) {
      WalkRoundKeeps(M, M', C, C', p, q, text, t, now);
    } else {
      var b :| SplitRound(M, M', C, C', p, q, b, text, t, now);
      SplitRoundKeeps(M, M', C, C', p, q, b, text, t, now);
    }
  }

  lemma RoundNames(M: Nodes, M': Nodes, C: map<Tenant, nat>, C': map<Tenant, nat>,
                   p: string, q: string, text: string, t: Tenant, now: Time)
    requires Round(M, M', C, C', p, q, text, t, now)
    ensures M.Keys <= M'.Keys <= InsertedNames(M.Keys, text)
    ensures p < q && q <= text && q in M' && t in M'[q] && C'.Keys == C.Keys
  {
    if b :| SplitRound(M, M', C, C', p, q, b, text, t, now) {
      MeetUnique(text, b, q);
    }
  }

  /** What holds while text is being inserted, with q the node reached. */
  ghost predicate Inserting(M0: Nodes, M: Nodes, C: map<Tenant, nat>, q: string, text: string, t: Tenant, now: Time)
  {
    && Owned(M0) && Sound(M, C)
    && q in M && t in M[q] && q <= text
    && Stamped(M0, M, t, now, q)
    && M0.Keys <= M.Keys <= InsertedNames(M0.Keys, text)
  }

  lemma InsertionStarts(M: Nodes, M': Nodes, C: map<Tenant, nat>, C': map<Tenant, nat>, text: string, t: Tenant,
                        now: Time)
    requires Sound(M, C) && M' == M["" := Stamp(M[""], t, now)]
    requires C' == if t in C then C else C[t := 0]
    ensures Inserting(M, M', C', "", text, t, now)
  {
    RootStep(M, t, now);
    RootCounted(M, C, t, now);
  }

  lemma InsertionEnds(M0: Nodes, M: Nodes, C: map<Tenant, nat>, text: string, t: Tenant, now: Time)
    requires Inserting(M0, M, C, text, text, t, now)
    ensures Sound(M, C) && Stamped(M0, M, t, now, text) && M.Keys == InsertedNames(M0.Keys, text)
  {
  }

  lemma RoundAdvances(M0: Nodes, M: Nodes, M': Nodes, C: map<Tenant, nat>, C': map<Tenant, nat>,
                      p: string, q: string, text: string, t: Tenant, now: Time)
    requires Inserting(M0, M, C, p, text, t, now) && Round(M, M', C, C', p, q, text, t, now)
    ensures Inserting(M0, M', C', q, text, t, now) && p < q && C'.Keys == C.Keys
  {
    RoundKeeps(M, M', C, C', p, q, text, t, now);
    RoundNames(M, M', C, C', p, q, text, t, now);
    InsertedNamesAreStable(M0.Keys, M.Keys, text);
    Extend(M0, M, M', t, now, p, q);
  }

  lemma Extend(M: Nodes, M1: Nodes, M2: Nodes, t: Tenant, now: Time, p: string, q: string)
    requires Owned(M) && Owned(M1) && Owned(M2) && p < q
    requires Stamped(M, M1, t, now, p) && SegmentStamped(M1, M2, t, now, p, q)
    ensures Stamped(M, M2, t, now, q)
  {
    forall s ensures View(M2, s) == if s <= q then View(M, s)[t := now] else View(M, s) {
      assert s <= q && !(p < s) ==> s <= p;
    }
  }

  /** No other names arise later. */
  lemma InsertedNamesAreStable(K0: set<string>, K: set<string>, text: string)
    requires K0 <= K <= InsertedNames(K0, text)
    ensures InsertedNames(K, text) <= InsertedNames(K0, text)
  {
    forall q | q in K ensures Meet(text, q) in InsertedNames(K0, text) {
      if q !in K0 {
        MeetUnique(text, q, q);
      }
    }
  }

  /** Ownership and age, read off the views: s is held whenever an extension of it is, and no earlier. */
  lemma ViewOrdered(M: Nodes, s: string, s': string, t: Tenant)
    requires Owned(M) && s <= s' && t in View(M, s')
    ensures t in View(M, s)
    ensures TimeOrdered(M) ==> View(M, s')[t] <= View(M, s)[t]
  {
    var c := CoverOrNone(M, s);
    var c' := CoverOrNone(M, s');
    assert s <= c';
    assert Spelled(M.Keys, s);
    assert c <= c';
  }

  lemma ViewBounded(M: Nodes, s: string, t: Tenant, now: Time)
    requires Owned(M) && NoLaterThan(M, now) && t in View(M, s)
    ensures View(M, s)[t] <= now
  {
    var c := CoverOrNone(M, s);
  }

  lemma StampedKeepsTimes(M: Nodes, M': Nodes, t: Tenant, now: Time, text: string)
    requires Owned(M) && Owned(M') && Stamped(M, M', t, now, text)
    requires TimeOrdered(M) && NoLaterThan(M, now)
    ensures TimeOrdered(M') && NoLaterThan(M', now)
  {
    forall p, u | p in M' && u in M'[p] ensures M'[p][u] <= now {
      ViewAtNode(M', p);
      if u in View(M, p) { ViewBounded(M, p, u, now); }
    }
    forall p, q, u | p in M' && q in M' && p <= q && u in M'[q] && u in M'[p] ensures M'[q][u] <= M'[p][u] {
      StampedPair(M, M', t, now, text, p, q, u);
    }
  }

  lemma StampedPair(M: Nodes, M': Nodes, t: Tenant, now: Time, text: string, p: string, q: string, u: Tenant)
    requires Owned(M) && Owned(M') && Stamped(M, M', t, now, text)
    requires TimeOrdered(M) && NoLaterThan(M, now)
    requires p in M' && q in M' && p <= q && u in M'[q] && u in M'[p]
    ensures M'[q][u] <= M'[p][u]
  {
    ViewAtNode(M', p);
    ViewAtNode(M', q);
    if u in View(M, q) { ViewOrdered(M, p, q, u); ViewBounded(M, q, u, now); }
  }

  /** The upward walk of a match: every node on the way to path is stamped. */
  ghost function StampPath(M: Nodes, path: string, t: Tenant, now: Time): (M': Nodes)
    ensures M'.Keys == M.Keys
  {
    map p | p in M :: if p <= path then Stamp(M[p], t, now) else M[p]
  }

  /** The part of the upward walk done when the nodes of at most n characters are still to come. */
  ghost function StampedBelow(M: Nodes, path: string, n: int, t: Tenant, now: Time): (M': Nodes)
    ensures M'.Keys == M.Keys
  {
    map p | p in M :: if p <= path && n < |p| then Stamp(M[p], t, now) else M[p]
  }

  lemma ClimbEnds(M: Nodes, path: string, t: Tenant, now: Time)
    ensures StampedBelow(M, path, |path|, t, now) == M
    ensures StampedBelow(M, path, -1, t, now) == StampPath(M, path, t, now)
  {
  }

  lemma ClimbStep(M: Nodes, path: string, c: string, r: string, t: Tenant, now: Time)
    requires c in M && c <= path && IsParent(M.Keys, r, c)
    ensures r <= path
    ensures StampedBelow(M, path, |c|, t, now)[c := Stamp(M[c], t, now)] == StampedBelow(M, path, |r|, t, now)
  {
    forall p | p in M && p <= path && |r| < |p| ensures p == c || |c| < |p| {
      if |p| <= |c| {
        PrefixesNest(p, c, path);
        assert p < c ==> p <= r;
      }
    }
  }

  lemma ClimbRoot(M: Nodes, path: string, t: Tenant, now: Time)
    requires "" in M
    ensures StampedBelow(M, path, 0, t, now)["" := Stamp(M[""], t, now)] == StampedBelow(M, path, -1, t, now)
  {
    assert forall p: string :: |p| == 0 ==> p == "";
  }

  lemma StampPathStamped(M: Nodes, path: string, t: Tenant, now: Time)
    requires Owned(M) && path in M && t in M[path]
    ensures Owned(StampPath(M, path, t, now)) && Stamped(M, StampPath(M, path, t, now), t, now, path)
  {
    StampPathOwned(M, path, t, now);
    forall s ensures View(StampPath(M, path, t, now), s) == if s <= path then View(M, s)[t := now] else View(M, s) {
      StampPathView(M, path, t, now, s);
    }
  }

  lemma StampPathOwned(M: Nodes, path: string, t: Tenant, now: Time)
    requires Owned(M) && path in M && t in M[path]
    ensures Owned(StampPath(M, path, t, now))
  {
    var M' := StampPath(M, path, t, now);
    forall p | p in M ensures M'[p].Keys == M[p].Keys {
      if p <= path { assert t in M[p]; }
    }
    SameOwnersOwned(M, M');
  }

  lemma SameOwnersOwned(M: Nodes, M': Nodes)
    requires Owned(M) && M'.Keys == M.Keys && forall p :: p in M ==> M'[p].Keys == M[p].Keys
    ensures Owned(M')
  {
    forall p | p in M' && p != "" ensures M'[p] != map[] {
      assert M[p] != map[];
      var u :| u in M[p];
      assert u in M'[p];
    }
  }

  lemma StampPathView(M: Nodes, path: string, t: Tenant, now: Time, s: string)
    requires Branching(M.Keys) && path in M
    ensures var M' := StampPath(M, path, t, now);
      View(M', s) == if s <= path then View(M, s)[t := now] else View(M, s)
  {
    var M' := StampPath(M, path, t, now);
    var c := CoverOrNone(M, s);
    if Spelled(M.Keys, s) {
      ViewIs(M', c, s);
      assert s <= c;
      assert c <= path <==> s <= path;
    }
  }

  /** Stamping what a tenant already holds changes no count. */
  lemma RestampCounted(M: Nodes, M': Nodes, C: map<Tenant, nat>, t: Tenant, now: Time, text: string)
    requires Owned(M) && Owned(M') && Stamped(M, M', t, now, text)
    requires t in View(M, text) && Counted(M, C)
    ensures Counted(M', C)
  {
    forall u ensures Held(M', u) == Held(M, u) {
      forall s ensures u in View(M', s) <==> u in View(M, s) {
        if s <= text { ViewOrdered(M, s, text, t); }
      }
      SameHeld(M, M', u);
    }
    ViewAtNode(M, "");
    ViewAtNode(M', "");
    ViewOrdered(M, "", text, t);
    assert M'[""].Keys == M[""].Keys;
  }

  /** The counts survive the upward walk of a match. */
  lemma StampPathSound(M: Nodes, C: map<Tenant, nat>, path: string, t: Tenant, now: Time)
    requires Sound(M, C) && path in M && t in M[path]
    ensures Sound(StampPath(M, path, t, now), C)
  {
    StampPathStamped(M, path, t, now);
    ViewAtNode(M, path);
    RestampCounted(M, StampPath(M, path, t, now), C, t, now, path);
  }

  // ----- what a match finds -----

  /** The longest prefix of text that some tenant's strings share. */
  ghost predicate LongestSpelled(K: set<string>, text: string, found: string)
  {
    found <= text && Spelled(K, found) && forall s :: s <= text && Spelled(K, s) ==> s <= found
  }

  /** The longest prefix of text that t holds; empty when t holds nothing. */
  ghost predicate LongestHeld(M: Nodes, t: Tenant, text: string, found: string)
    requires Branching(M.Keys)
  {
    found <= text && forall s :: s <= text && t in View(M, s) ==> s <= found && t in View(M, found)
  }

  /** An edge that text leaves, or that ends after text, spells no more of it. */
  lemma EdgeLeft(K: set<string>, p: string, q: string, way: string, text: string)
    requires Branching(K) && IsParent(K, p, q) && q in K && p < way && way <= q && way < text
    requires way < q && q[|way|] != text[|way|]
    ensures !Spelled(K, text[..|way| + 1])
  {
    SegmentOf(K, p, q, way);
    var s := text[..|way| + 1];
    forall x | x in K ensures !(s <= x) {
      assert s <= x ==> way <= x;
    }
  }

  lemma SpelledLongest(K: set<string>, text: string, n: nat)
    requires n <= |text| && Spelled(K, text[..n]) && (n < |text| ==> !Spelled(K, text[..n + 1]))
    ensures LongestSpelled(K, text, text[..n])
  {
    if n < |text| {
      var cut := text[..n + 1];
      forall s | s <= text && Spelled(K, s) ensures s <= text[..n] {
        var x :| x in K && s <= x;
        assert |cut| <= |s| ==> cut <= x;
      }
    }
  }

  lemma HeldLongest(M: Nodes, t: Tenant, text: string, n: nat)
    requires Owned(M) && n <= |text|
    requires n == 0 || t in View(M, text[..n])
    requires n < |text| ==> t !in View(M, text[..n + 1])
    ensures LongestHeld(M, t, text, text[..n])
  {
    forall s | s <= text && t in View(M, s) ensures s <= text[..n] && t in View(M, text[..n]) {
      if n < |s| {
        ViewOrdered(M, text[..n + 1], s, t);
      }
      ViewOrdered(M, "", s, t);
      assert n == 0 ==> text[..n] == "";
    }
  }

  /** Set semantics of an insertion. */
  lemma StampedHeld(M: Nodes, M': Nodes, t: Tenant, now: Time, text: string)
    requires Owned(M) && Owned(M') && Stamped(M, M', t, now, text)
    ensures Held(M', t) == Held(M, t) + set k | 0 <= k <= |text| :: text[..k]
    ensures forall u :: u != t ==> Held(M', u) == Held(M, u)
  {
    forall s ensures s in Held(M', t) <==> s in Held(M, t) + set k | 0 <= k <= |text| :: text[..k] {
      HeldIsViewed(M, t, s);
      HeldIsViewed(M', t, s);
      if s <= text { assert s == text[..|s|]; }
    }
    forall u | u != t ensures Held(M', u) == Held(M, u) {
      SameHeld(M, M', u);
    }
  }
}
