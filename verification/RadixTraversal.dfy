/** Visiting every node of the tree once, with a stack. */
module RadixTraversal {
  import opened Collections
  import opened Prefixes
  import opened RadixSpec
  import opened RadixSteps
  import opened RadixEviction
  import opened RadixEvictionRuns

  ghost predicate Apart(a: string, b: string)
  {
    !(a <= b) && !(b <= a)
  }

  /** kids names the children of node c, each once. */
  ghost predicate ChildrenOf(K: set<string>, c: string, kids: seq<string>)
  {
    NoRepeats(kids) && forall q {:trigger q in kids} {:trigger IsParent(K, c, q)} ::
      q in kids <==> q in K && IsParent(K, c, q)
  }

  /** done has been visited; what is left are the disjoint subtrees rooted in todo. */
  ghost predicate Frontier(K: set<string>, done: seq<string>, todo: seq<string>)
  {
    && NoRepeats(done)
    && (forall p :: p in done ==> p in K)
    && (forall p :: p in todo ==> p in K)
    && (forall i, j :: 0 <= i < j < |todo| ==> Apart(todo[i], todo[j]))
    && (forall i, d :: 0 <= i < |todo| && d in done ==> !(todo[i] <= d))
    && (forall p :: p in K && p !in done ==> exists i :: 0 <= i < |todo| && todo[i] <= p)
  }

  lemma ChildOnPath(K: set<string>, c: string, p: string) returns (q: string)
    requires "" in K && c in K && p in K && c < p
    ensures q in K && IsParent(K, c, q) && q <= p
    decreases |p|
  {
    q := p;
    var r := ParentOf(K, p);
    assert c <= r;
    if c < r {
      q := ChildOnPath(K, c, r);
    } else {
      assert c == r;
    }
  }

  lemma SiblingsApart(K: set<string>, c: string, a: string, b: string)
    requires a in K && b in K && IsParent(K, c, a) && IsParent(K, c, b) && a != b
    ensures Apart(a, b)
  {
    assert a <= b ==> a < b;
    assert b <= a ==> b < a;
  }

  /** Visiting the top of the stack and pushing its children. */
  lemma FrontierStep(K: set<string>, done: seq<string>, rest: seq<string>, c: string, kids: seq<string>)
    requires "" in K && Frontier(K, done, rest + [c]) && ChildrenOf(K, c, kids)
    ensures c !in done && Frontier(K, done + [c], rest + kids)
  {
    var todo, todo', done' := rest + [c], rest + kids, done + [c];
    assert todo[|rest|] == c;
    forall i, j | 0 <= i < j < |todo'| ensures Apart(todo'[i], todo'[j]) {
      if j < |rest| {
        assert Apart(todo[i], todo[j]);
      } else {
        var k := todo'[j];
        assert k in kids;
        if i < |rest| {
          assert Apart(todo[i], todo[|rest|]);
          ApartFromKid(K, todo[i], c, k);
        } else {
          assert todo'[i] in kids;
          SiblingsApart(K, c, todo'[i], k);
        }
      }
    }
    forall i, d | 0 <= i < |todo'| && d in done' ensures !(todo'[i] <= d) {
      if i < |rest| {
        assert todo[i] == todo'[i] && Apart(todo[i], todo[|rest|]);
      } else {
        assert todo'[i] in kids;
        assert d in done ==> !(todo[|rest|] <= d);
      }
    }
    forall p | p in K && p !in done' ensures exists i :: 0 <= i < |todo'| && todo'[i] <= p {
      var i :| 0 <= i < |todo| && todo[i] <= p;
      if i == |rest| {
        assert c in done';
        assert c < p || c == p;
        var q := ChildOnPath(K, c, p);
        assert q in kids;
        var j :| 0 <= j < |kids| && kids[j] == q;
        assert todo'[|rest| + j] <= p;
      } else {
        assert todo'[i] <= p;
      }
    }
  }

  lemma ApartFromKid(K: set<string>, a: string, c: string, k: string)
    requires Apart(a, c) && c < k
    ensures Apart(a, k)
  {
    if a <= k {
      if |a| <= |c| { PrefixesNest(a, c, k); } else { PrefixesNest(c, a, k); }
    }
  }

  /** A node is a leaf of t when t owns it and none of its children. */
  lemma LeafByKids(M: Nodes, p: string, t: Tenant, kids: seq<string>)
    requires Owned(M) && p in M && t in M[p] && ChildrenOf(M.Keys, p, kids)
    ensures Leaf(M, p, t) <==> forall q :: q in kids ==> t !in M[q]
  {
    if forall q :: q in kids ==> t !in M[q] {
      forall q | q in M && p < q ensures t !in M[q] {
        var k := ChildOnPath(M.Keys, p, q);
        assert k in kids;
        assert M[q].Keys <= M[k].Keys;
      }
    }
  }

  // ----- recomputing sizes -----

  /** The node that spells s is one of done. */
  ghost predicate SpelledOn(K: set<string>, done: set<string>, s: string)
  {
    exists p {:trigger Covers(K, p, s)} :: p in done && Covers(K, p, s)
  }

  /** The strings t holds that are spelled by nodes of done: what a traversal has added up so far. */
  ghost function HeldOn(M: Nodes, t: Tenant, done: set<string>): set<string>
  {
    set s | s in Held(M, t) && s != "" && SpelledOn(M.Keys, done, s)
  }

  lemma SpelledOnGrows(K: set<string>, done: set<string>, r: string, p: string, s: string)
    requires Branching(K) && p in K && p !in done && IsParent(K, r, p)
    ensures SpelledOn(K, done + {p}, s) <==> SpelledOn(K, done, s) || r < s <= p
    ensures !(SpelledOn(K, done, s) && r < s <= p)
  {
    SegmentOf(K, r, p, s);
    if SpelledOn(K, done, s) {
      var q :| q in done && Covers(K, q, s);
      assert q in done + {p};
      if Covers(K, p, s) { CoverUnique(K, p, q, s); }
    }
    if Covers(K, p, s) {
      assert p in done + {p};
    }
  }

  /** Visiting p adds exactly its own characters for each of its owners. */
  lemma HeldOnGrows(M: Nodes, t: Tenant, done: set<string>, r: string, p: string)
    requires Owned(M) && p in M && p !in done && IsParent(M.Keys, r, p)
    ensures |HeldOn(M, t, done + {p})| == |HeldOn(M, t, done)| + if t in M[p] then |p| - |r| else 0
  {
    var A, B := HeldOn(M, t, done), HeldOn(M, t, done + {p});
    var S := if t in M[p] then Segment(|r|, p) else {};
    forall s ensures (s in B <==> s in A || s in S) && !(s in A && s in S) {
      HeldOnMember(M, t, done, r, p, s);
    }
    DisjointSizes(B, A, S);
    SegmentSize(|r|, p);
  }

  lemma HeldOnMember(M: Nodes, t: Tenant, done: set<string>, r: string, p: string, s: string)
    requires Owned(M) && p in M && p !in done && IsParent(M.Keys, r, p)
    ensures s in HeldOn(M, t, done + {p}) <==> s in HeldOn(M, t, done) || (t in M[p] && s in Segment(|r|, p))
    ensures !(s in HeldOn(M, t, done) && s in Segment(|r|, p))
  {
    SpelledOnGrows(M.Keys, done, r, p, s);
    SegmentMember(r, p, s);
    if r < s <= p { SegmentHeld(M, t, r, p, s); }
  }

  lemma SegmentHeld(M: Nodes, t: Tenant, r: string, p: string, s: string)
    requires Owned(M) && p in M && IsParent(M.Keys, r, p) && r < s <= p
    ensures s in Held(M, t) <==> t in M[p]
  {
    SegmentOf(M.Keys, r, p, s);
    ViewIs(M, p, s);
    HeldIsViewed(M, t, s);
  }

  lemma HeldOnRoot(M: Nodes, t: Tenant, done: set<string>)
    requires "" in M
    ensures HeldOn(M, t, done + {""}) == HeldOn(M, t, done)
  {
    forall s | s != "" ensures SpelledOn(M.Keys, done + {""}, s) <==> SpelledOn(M.Keys, done, s) {
      if SpelledOn(M.Keys, done, s) {
        var q :| q in done && Covers(M.Keys, q, s);
        assert q in done + {""};
      }
    }
  }

  lemma NothingOn(M: Nodes, t: Tenant, done: set<string>)
    requires Owned(M) && forall p {:trigger M[p]} :: p in done && p in M ==> t !in M[p]
    ensures HeldOn(M, t, done) == {}
  {
    forall s | SpelledOn(M.Keys, done, s) ensures s !in Held(M, t) {
      var q :| q in done && Covers(M.Keys, q, s);
      ViewIs(M, q, s);
      HeldIsViewed(M, t, s);
    }
  }

  /** The sizes added up over the nodes of done. */
  ghost predicate SizesOn(M: Nodes, used: map<Tenant, nat>, done: set<string>)
  {
    && (forall t {:trigger t in used} :: t in used <==> OwnsAny(M, t, done))
    && (forall t {:trigger used[t]} :: t in used ==> used[t] == |HeldOn(M, t, done)|)
  }

  /** Nothing is added up over no nodes. */
  lemma NothingSized(M: Nodes, ps: seq<string>)
    ensures SizesOn(M, map[], FirstOf(ps, 0))
  {
    assert FirstOf(ps, 0) == {};
    assert forall t :: !OwnsAny(M, t, {});
  }

  ghost predicate OwnsAny(M: Nodes, t: Tenant, done: set<string>)
  {
    exists p {:trigger M[p]} :: p in done && p in M && t in M[p]
  }

  lemma OwnsAnyGrows(M: Nodes, t: Tenant, done: set<string>, p: string)
    requires p in M
    ensures OwnsAny(M, t, done + {p}) <==> OwnsAny(M, t, done) || t in M[p]
  {
    if OwnsAny(M, t, done) {
      var q :| q in done && q in M && t in M[q];
      assert q in done + {p};
    }
    assert p in done + {p};
  }

  /** n is what node p spells itself below r. */
  ghost predicate Spells(K: set<string>, r: string, p: string, n: nat)
  {
    if p == "" then n == 0 else IsParent(K, r, p) && n == |p| - |r|
  }

  /** The size of each owner has grown by n. */
  ghost predicate Added(used: map<Tenant, nat>, used': map<Tenant, nat>, o: Owners, n: nat)
  {
    && used'.Keys == used.Keys + o.Keys
    && forall t {:trigger used'[t]} :: t in used' ==>
      used'[t] == (if t in used then used[t] else 0) + (if t in o then n else 0)
  }

  /** Adding the n characters of node p to the sizes of its owners. */
  lemma SizesGrow(M: Nodes, used: map<Tenant, nat>, used': map<Tenant, nat>, done: set<string>, r: string, p: string,
                  n: nat)
    requires Owned(M) && SizesOn(M, used, done) && p in M && p !in done && Spells(M.Keys, r, p, n)
    requires Added(used, used', M[p], n)
    ensures SizesOn(M, used', done + {p})
  {
    forall t ensures t in used' <==> OwnsAny(M, t, done + {p}) {
      OwnsAnyGrows(M, t, done, p);
      assert t in used <==> OwnsAny(M, t, done);
    }
    forall t | t in used' ensures used'[t] == |HeldOn(M, t, done + {p})| {
      SizeGrows(M, t, done, r, p, n);
      if t !in used { NothingOn(M, t, done); }
    }
  }

  lemma SizeGrows(M: Nodes, t: Tenant, done: set<string>, r: string, p: string, n: nat)
    requires Owned(M) && p in M && p !in done && Spells(M.Keys, r, p, n)
    ensures |HeldOn(M, t, done + {p})| == |HeldOn(M, t, done)| + if t in M[p] then n else 0
  {
    if p == "" {
      HeldOnRoot(M, t, done);
    } else {
      HeldOnGrows(M, t, done, r, p);
    }
  }

  lemma KnownAtRoot(M: Nodes, t: Tenant)
    requires Owned(M)
    ensures OwnsAny(M, t, M.Keys) <==> t in M[""]
  {
    assert "" in M.Keys;
    if OwnsAny(M, t, M.Keys) {
      var p :| p in M && t in M[p];
      assert "" <= p;
    }
  }

  lemma AllHeldOn(M: Nodes, t: Tenant)
    requires Owned(M) && t in M[""]
    ensures HeldOn(M, t, M.Keys) == Held(M, t) - {""} && "" in Held(M, t)
  {
    HeldIsViewed(M, t, "");
    ViewAtNode(M, "");
    forall s | s in Held(M, t) ensures SpelledOn(M.Keys, M.Keys, s) {
      HeldIsViewed(M, t, s);
      var c := CoverOrNone(M, s);
      assert c in M.Keys && Covers(M.Keys, c, s);
    }
  }

  lemma SizeIsCount(M: Nodes, C: map<Tenant, nat>, t: Tenant)
    requires Sound(M, C) && t in C
    ensures |HeldOn(M, t, M.Keys)| == C[t]
  {
    AllHeldOn(M, t);
    assert C[t] + 1 == |Held(M, t)|;
  }

  lemma SizedIsCounted(M: Nodes, C: map<Tenant, nat>, used: map<Tenant, nat>, t: Tenant)
    requires Sound(M, C) && SizesOn(M, used, M.Keys)
    ensures t in used <==> t in C
    ensures t in used ==> used[t] == |HeldOn(M, t, M.Keys)|
  {
    KnownAtRoot(M, t);
  }

  /** Over all nodes the sizes are the maintained counts. */
  lemma SizesAreCounts(M: Nodes, C: map<Tenant, nat>, used: map<Tenant, nat>)
    requires Sound(M, C) && SizesOn(M, used, M.Keys)
    ensures used == C
  {
    forall t ensures t in used <==> t in C {
      SizedIsCounted(M, C, used, t);
    }
    forall t | t in used ensures used[t] == C[t] {
      SizedIsCounted(M, C, used, t);
      SizeIsCount(M, C, t);
    }
  }

  // ----- the order of a traversal -----

  ghost function FirstOf(ps: seq<string>, i: nat): set<string>
    requires i <= |ps|
  {
    set j | 0 <= j < i :: ps[j]
  }

  lemma NextOf(ps: seq<string>, i: nat)
    requires i < |ps| && NoRepeats(ps)
    ensures ps[i] !in FirstOf(ps, i)
    ensures FirstOf(ps, i + 1) == FirstOf(ps, i) + {ps[i]}
  {
  }
}
