/** Taking owners away from the tree: least-recently-used eviction and removal of a tenant. */
module RadixEviction {
  import opened Prefixes
  import opened RadixSpec
  import opened RadixSteps

  /** p is a leaf of the part of the tree that t owns. */
  ghost predicate Leaf(M: Nodes, p: string, t: Tenant)
  {
    p in M && t in M[p] && forall q {:trigger M[q]} :: q in M && p < q ==> t !in M[q]
  }

  /** t gives up node p; a node without owners disappears, except the root. */
  ghost function RemoveOwner(M: Nodes, p: string, t: Tenant): (M': Nodes)
  {
    if p !in M then M
    else
      var o := M[p] - {t};
      if p != "" && o == map[] then M - {p} else M[p := o]
  }

  lemma SoleOwner(o: Owners, t: Tenant)
    requires t in o
    ensures o - {t} == map[] <==> o.Keys == {t}
  {
    if o - {t} == map[] {
      forall u | u in o ensures u == t {
        assert u != t ==> u in o - {t};
      }
    }
  }

  /** Some leaf of t lies below any node of t. */
  lemma LeafBelow(M: Nodes, q: string, t: Tenant) returns (p: string)
    requires q in M && t in M[q]
    ensures q <= p && Leaf(M, p, t)
  {
    var S := set x | x in M && q <= x && t in M[x];
    p := q;
    ghost var todo := S;
    while !Leaf(M, p, t)
      invariant p in S && forall x :: x in S && p < x ==> x in todo
      decreases todo
    {
      var x :| x in M && p < x && t in M[x];
      assert x in S;
      todo := todo - {x};
      p := x;
    }
  }

  /** The last owner of a node other than the root leaves it without descendants. */
  lemma LastOwnerIsLast(M: Nodes, p: string, t: Tenant)
    requires Owned(M) && Leaf(M, p, t) && M[p].Keys == {t} && p != ""
    ensures forall q :: q in M.Keys ==> !(p < q)
  {
    forall q | q in M.Keys ensures !(p < q) {
      assert p <= q ==> M[q].Keys <= M[p].Keys;
      assert M[q].Keys <= {t} && t !in M[q] ==> M[q] == map[];
    }
  }

  lemma RemoveOwnerOwned(M: Nodes, p: string, t: Tenant)
    requires Owned(M) && Leaf(M, p, t)
    ensures Owned(RemoveOwner(M, p, t))
  {
    var o := M[p] - {t};
    if p != "" && o == map[] {
      assert M[p].Keys == {t} by {
        forall u | u in M[p] ensures u == t {
          assert u != t ==> u in o;
        }
      }
      LastOwnerIsLast(M, p, t);
      PruneShape(M.Keys, p);
      assert (M - {p}).Keys == M.Keys - {p};
    } else {
      var M' := M[p := o];
      assert M'.Keys == M.Keys;
      forall x, y | x in M' && y in M' && x <= y ensures M'[y].Keys <= M'[x].Keys {
        if x == p && y != p { assert p < y; }
      }
    }
  }

  lemma RemoveOwnerView(M: Nodes, p: string, t: Tenant, s: string)
    requires Owned(M) && Leaf(M, p, t)
    ensures var M' := RemoveOwner(M, p, t);
      Branching(M'.Keys) && View(M', s) == if Covers(M.Keys, p, s) then View(M, s) - {t} else View(M, s)
  {
    RemoveOwnerOwned(M, p, t);
    var o := M[p] - {t};
    if p != "" && o == map[] {
      assert forall u :: u in M[p] && u != t ==> u in o;
      assert M[p].Keys == {t};
      LastOwnerIsLast(M, p, t);
      PruneView(M, p, s);
      if Covers(M.Keys, p, s) { ViewIs(M, p, s); }
    } else {
      SetView(M, p, o, s);
      if Covers(M.Keys, p, s) { ViewIs(M, p, s); }
    }
  }

  lemma PruneView(M: Nodes, p: string, s: string)
    requires Branching(M.Keys) && p in M && p != "" && forall q :: q in M.Keys ==> !(p < q)
    ensures Branching((M - {p}).Keys)
    ensures View(M - {p}, s) == if Covers(M.Keys, p, s) then map[] else View(M, s)
  {
    var M' := M - {p};
    assert M'.Keys == M.Keys - {p};
    PruneShape(M.Keys, p);
    var c := CoverOrNone(M, s);
    if Spelled(M.Keys, s) {
      if c == p {
        assert !Spelled(M'.Keys, s) by {
          forall q | q in M'.Keys ensures !(s <= q) {
            assert s <= q ==> p <= q;
            assert p <= q && |p| == |q| ==> p == q;
          }
        }
      } else {
        ViewIs(M', c, s);
        if Covers(M.Keys, p, s) { CoverUnique(M.Keys, p, c, s); }
      }
    } else {
      assert !Spelled(M'.Keys, s);
    }
  }

  /** What t still holds after giving up leaf p below r, and how much that is. */
  lemma RemoveOwnerHeld(M: Nodes, r: string, p: string, t: Tenant)
    requires Owned(M) && Leaf(M, p, t) && IsParent(M.Keys, r, p)
    ensures var M' := RemoveOwner(M, p, t);
      && Segment(|r|, p) <= Held(M, t)
      && Held(M', t) == Held(M, t) - Segment(|r|, p)
      && |Held(M', t)| == |Held(M, t)| - (|p| - |r|)
  {
    var M' := RemoveOwner(M, p, t);
    RemoveOwnerOwned(M, p, t);
    forall s ensures s in Held(M', t) <==> s in Held(M, t) - Segment(|r|, p)
      ensures s in Segment(|r|, p) ==> s in Held(M, t)
    {
      HeldIsViewed(M, t, s);
      HeldIsViewed(M', t, s);
      RemoveOwnerView(M, p, t, s);
      SegmentMember(r, p, s);
      SegmentOf(M.Keys, r, p, s);
      if Covers(M.Keys, p, s) { ViewIs(M, p, s); }
    }
    SegmentSize(|r|, p);
  }

  lemma RemoveOwnerOthers(M: Nodes, p: string, t: Tenant, u: Tenant)
    requires Owned(M) && Leaf(M, p, t) && u != t
    ensures Held(RemoveOwner(M, p, t), u) == Held(M, u)
  {
    var M' := RemoveOwner(M, p, t);
    RemoveOwnerOwned(M, p, t);
    forall s ensures u in View(M', s) <==> u in View(M, s) {
      RemoveOwnerView(M, p, t, s);
    }
    SameHeld(M, M', u);
  }

  /** Giving up p can turn only p's parent into a leaf of t, and nothing else into a leaf of anybody. */
  lemma NewLeaves(M: Nodes, r: string, p: string, t: Tenant, q: string, u: Tenant)
    requires Owned(M) && Leaf(M, p, t) && IsParent(M.Keys, r, p)
    requires Leaf(RemoveOwner(M, p, t), q, u)
    ensures (q, u) == (r, t) || (Leaf(M, q, u) && (q, u) != (p, t))
  {
    var M' := RemoveOwner(M, p, t);
    RemoveOwnerAt(M, p, t);
    if !Leaf(M, q, u) {
      var x :| x in M && q < x && u in M[x];
      assert x == p && u == t;
      assert t in M[r] && M'[r] == M[r];
      assert q < r || q == r;
    }
  }

  lemma OldLeaves(M: Nodes, r: string, p: string, t: Tenant, q: string, u: Tenant)
    requires Owned(M) && Leaf(M, p, t) && IsParent(M.Keys, r, p)
    requires Leaf(M, q, u) && (q, u) != (p, t)
    ensures Leaf(RemoveOwner(M, p, t), q, u) && (q, u) != (r, t)
  {
    RemoveOwnerAt(M, p, t);
  }

  /** Nothing changes but t's ownership of p, and p itself when t was its only owner. */
  lemma RemoveOwnerAt(M: Nodes, p: string, t: Tenant)
    requires p in M && t in M[p]
    ensures var M' := RemoveOwner(M, p, t);
      && (forall x {:trigger M[x]} {:trigger M'[x]} :: x in M && x != p ==> x in M' && M'[x] == M[x])
      && (forall x {:trigger M'[x]} :: x in M' ==> x in M)
      && (p in M' ==> M'[p] == M[p] - {t})
      && (p !in M' ==> M[p].Keys == {t} && p != "")
  {
    var o := M[p] - {t};
    assert forall u :: u in M[p] && u != t ==> u in o;
  }

  lemma RemoveOwnerTimes(M: Nodes, p: string, t: Tenant)
    requires TimeOrdered(M)
    ensures TimeOrdered(RemoveOwner(M, p, t))
  {
  }
}
