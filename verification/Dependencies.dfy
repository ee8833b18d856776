/** The dependency graph of a traced program, and what it means to sort it. */
module Dependencies {
  import opened Collections
  import opened Options

  type Id = nat

  /** A traced expression: what was appended before it in its stream, and the variable it reads, if any. */
  datatype TracedExpr = TracedExpr(prev: Option<Id>, variable: Option<string>, source: Option<Id>, pid: string)

  /** variables maps the names known to the top-level tracer to the expressions that produce them. */
  datatype TracedProgram = TracedProgram(exprs: map<Id, TracedExpr>, variables: map<string, Id>, last: Id)
  {
    /** Every reference leads to an expression. */
    ghost predicate Valid()
    {
      && last in exprs
      && forall x :: x in exprs ==>
        && (Prev(x).Some? ==> Prev(x).value in exprs)
        && (Source(x).Some? ==> Source(x).value in exprs)
        && exprs[x].variable.Some? == exprs[x].source.Some?
    }

    function Prev(x: Id): Option<Id>
      requires x in exprs
    {
      exprs[x].prev
    }

    /** The top-level tracer's own variable of that name comes first. */
    function Source(x: Id): Option<Id>
      requires x in exprs
    {
      var e := exprs[x];
      if e.variable.Some? && e.variable.value in variables then Some(variables[e.variable.value]) else e.source
    }

    predicate DependsOn(x: Id, d: Id)
      requires x in exprs
    {
      Prev(x) == Some(d) || Source(x) == Some(d)
    }

    /** The dependencies of x that are not in done, each counted as often as x has it. */
    function Pending(x: Id, done: set<Id>): (n: nat)
      requires x in exprs
      ensures n == 0 <==> forall d :: DependsOn(x, d) ==> d in done
    {
      var n := (if Prev(x).Some? && Prev(x).value !in done then 1 else 0)
        + (if Source(x).Some? && Source(x).value !in done then 1 else 0);
      assert Prev(x).Some? ==> DependsOn(x, Prev(x).value);
      assert Source(x).Some? ==> DependsOn(x, Source(x).value);
      n
    }

    ghost predicate Closed(S: set<Id>)
    {
      S <= exprs.Keys && forall x, d {:trigger DependsOn(x, d)} :: x in S && DependsOn(x, d) ==> d in S
    }

    /** S is what the last expression depends on, directly or indirectly, and itself. */
    ghost predicate Needed(S: set<Id>)
    {
      last in S && Closed(S) && NoneUnneeded(S)
    }

    /** Nothing in S is unneeded. */
    ghost predicate NoneUnneeded(S: set<Id>)
    {
      forall T {:trigger Closed(T)} :: Closed(T) && last in T ==> S <= T
    }

    lemma DependencyIsNeeded(S: set<Id>, x: Id, d: Option<Id>)
      requires NoneUnneeded(S) && x in S && x in exprs && (d == Prev(x) || d == Source(x))
      ensures NoneUnneeded(S + if d.Some? then {d.value} else {})
    {
      forall T | Closed(T) && last in T ensures S + (if d.Some? then {d.value} else {}) <= T {
        assert d.Some? ==> DependsOn(x, d.value);
      }
    }

    /** Some order puts every expression of S after what it depends on. */
    ghost predicate Acyclic(S: set<Id>)
      requires S <= exprs.Keys
    {
      exists rank: map<Id, nat> :: Ranks(rank, S)
    }

    ghost predicate Ranks(rank: map<Id, nat>, S: set<Id>)
      requires S <= exprs.Keys
    {
      rank.Keys == S && forall x, d {:trigger DependsOn(x, d)} ::
        x in S && d in S && DependsOn(x, d) ==> rank[d] < rank[x]
    }

    /** The expression n prev links back from x. */
    function Back(x: Id, n: nat): Option<Id>
    {
      if n == 0 then Some(x)
      else
        var y := Back(x, n - 1);
        if y.Some? && y.value in exprs then Prev(y.value) else None
    }

    /** x was appended before y: prev links lead from y back to x. */
    ghost predicate Before(x: Id, y: Id)
    {
      exists n: nat :: n > 0 && Back(y, n) == Some(x)
    }

    predicate SameStream(x: Id, y: Id)
    {
      x in exprs && y in exprs && exprs[x].pid == exprs[y].pid
    }

    /** Prev links connect the expressions of each stream. */
    ghost predicate Streamed(S: set<Id>)
    {
      forall x, y :: x in S && y in S && x != y && SameStream(x, y) ==> Before(x, y) || Before(y, x)
    }

    /** In each stream, the expressions come in the order in which they were appended. */
    ghost predicate AsTraced(order: seq<Id>)
    {
      forall i, j :: 0 <= i < j < |order| && SameStream(order[i], order[j]) ==> Before(order[i], order[j])
    }

    /** Everything in order comes once, and after what it depends on. */
    ghost predicate Sorted(order: seq<Id>)
    {
      && NoRepeats(order)
      && forall i {:trigger order[i]} ::
        0 <= i < |order| ==> order[i] in exprs && Pending(order[i], Elements(order[..i])) == 0
    }
  }

  lemma ElementsAppend(order: seq<Id>, x: Id)
    ensures Elements(order + [x]) == Elements(order) + {x}
  {
  }

  /** order lists exactly the elements of S, each once. */
  ghost predicate Lists(order: seq<Id>, S: set<Id>)
  {
    NoRepeats(order) && Elements(order) == S
  }

  lemma Listed(order: seq<Id>, S: set<Id>, x: Id)
    requires Lists(order, S) && x !in S
    ensures Lists(order + [x], S + {x})
  {
    ElementsAppend(order, x);
    forall i | 0 <= i < |order| ensures order[i] != x {
      assert order[i] in Elements(order);
    }
  }

  /** order' starts with order. */
  ghost predicate Begins(order: seq<Id>, order': seq<Id>)
  {
    |order| <= |order'| && order'[..|order|] == order
  }

  lemma BeginsTransitive(a: seq<Id>, b: seq<Id>, c: seq<Id>)
    requires Begins(a, b) && Begins(b, c)
    ensures Begins(a, c)
  {
    assert c[..|a|] == c[..|b|][..|a|];
  }

  // ----- edges, in the order in which they are found -----

  /** A dependency and what depends on it. */
  type Edge = (Id, Id)

  function EdgeFrom(d: Option<Id>, x: Id): seq<Edge>
  {
    if d.Some? then [(d.value, x)] else []
  }

  function EdgesOf(p: TracedProgram, x: Id): seq<Edge>
  {
    if x in p.exprs then EdgeFrom(p.Prev(x), x) + EdgeFrom(p.Source(x), x) else []
  }

  function AllEdges(p: TracedProgram, order: seq<Id>): seq<Edge>
  {
    if order == [] then [] else AllEdges(p, order[..|order| - 1]) + EdgesOf(p, order[|order| - 1])
  }

  /** What depends on d, once for each way. */
  function Targets(edges: seq<Edge>, d: Id): seq<Id>
  {
    if edges == [] then []
    else
      var e := edges[|edges| - 1];
      Targets(edges[..|edges| - 1], d) + if e.0 == d then [e.1] else []
  }

  ghost predicate EdgesWithin(edges: seq<Edge>, S: set<Id>)
  {
    forall i {:trigger edges[i]} :: 0 <= i < |edges| ==> edges[i].0 in S && edges[i].1 in S
  }

  lemma {:induction false} NothingFollows(edges: seq<Edge>, S: set<Id>, d: Id)
    requires EdgesWithin(edges, S) && d !in S
    ensures Targets(edges, d) == []
  {
    if edges != [] {
      NothingFollows(edges[..|edges| - 1], S, d);
    }
  }

  lemma {:induction false} TargetsAppend(a: seq<Edge>, b: seq<Edge>, d: Id)
    ensures Targets(a + b, d) == Targets(a, d) + Targets(b, d)
  {
    if b == [] {
      assert a + b == a;
    } else {
      assert (a + b)[..|a + b| - 1] == a + b[..|b| - 1];
      TargetsAppend(a, b[..|b| - 1], d);
    }
  }

  lemma OtherTarget(edges: seq<Edge>, e: Edge, d: Id)
    requires e.0 != d
    ensures Targets(edges + [e], d) == Targets(edges, d)
  {
    assert (edges + [e])[..|edges|] == edges;
  }

  /** How often x depends on d. */
  function Ways(p: TracedProgram, x: Id, d: Id): nat
    requires x in p.exprs
  {
    (if p.Prev(x) == Some(d) then 1 else 0) + (if p.Source(x) == Some(d) then 1 else 0)
  }

  lemma {:induction false} TargetsCount(p: TracedProgram, order: seq<Id>, d: Id, x: Id)
    requires Elements(order) <= p.exprs.Keys && NoRepeats(order)
    ensures x in order ==> x in p.exprs
    ensures multiset(Targets(AllEdges(p, order), d))[x] == if x in order then Ways(p, x, d) else 0
  {
    assert x in order ==> x in Elements(order);
    if order != [] {
      var n := |order| - 1;
      var init, y := order[..n], order[n];
      assert y in Elements(order) && Elements(init) <= Elements(order);
      TargetsCount(p, init, d, x);
      OneMoreTargets(p, init, y, d, x);
      LastIsNew(order, x);
    }
  }

  lemma LastIsNew(order: seq<Id>, x: Id)
    requires order != [] && NoRepeats(order)
    ensures var init, y := order[..|order| - 1], order[|order| - 1];
      y !in init && (x in order <==> x in init || x == y)
  {
    assert order == order[..|order| - 1] + [order[|order| - 1]];
  }

  lemma OneMoreTargets(p: TracedProgram, init: seq<Id>, y: Id, d: Id, x: Id)
    requires y in p.exprs
    ensures multiset(Targets(AllEdges(p, init) + EdgesOf(p, y), d))[x] ==
      multiset(Targets(AllEdges(p, init), d))[x] + if x == y then Ways(p, y, d) else 0
  {
    TargetsAppend(AllEdges(p, init), EdgesOf(p, y), d);
    EdgesCount(p, y, d, x);
    MultisetAppend(Targets(AllEdges(p, init), d), Targets(EdgesOf(p, y), d), x);
  }

  lemma MultisetAppend(a: seq<Id>, b: seq<Id>, x: Id)
    ensures multiset(a + b)[x] == multiset(a)[x] + multiset(b)[x]
  {
  }

  lemma EdgesCount(p: TracedProgram, y: Id, d: Id, x: Id)
    requires y in p.exprs
    ensures multiset(Targets(EdgesOf(p, y), d))[x] == if x == y then Ways(p, y, d) else 0
  {
    var a, b := EdgeFrom(p.Prev(y), y), EdgeFrom(p.Source(y), y);
    TargetsAppend(a, b, d);
    EdgeCount(p.Prev(y), y, d, x);
    EdgeCount(p.Source(y), y, d, x);
    MultisetAppend(Targets(a, d), Targets(b, d), x);
  }

  lemma EdgeCount(o: Option<Id>, y: Id, d: Id, x: Id)
    ensures multiset(Targets(EdgeFrom(o, y), d))[x] == if o == Some(d) && x == y then 1 else 0
  {
    var edges := EdgeFrom(o, y);
    if o.Some? {
      assert edges[..0] == [];
      assert Targets(edges, d) == if o == Some(d) then [y] else [];
    }
  }

  // ----- the search for what is needed -----

  function Dependency(d: Option<Id>): set<Id>
  {
    if d.Some? then {d.value} else {}
  }

  /** The dependencies of everything in order are in S. */
  ghost predicate Covered(p: TracedProgram, order: seq<Id>, S: set<Id>)
  {
    forall x, d {:trigger p.DependsOn(x, d)} :: x in order && x in p.exprs && p.DependsOn(x, d) ==> d in S
  }

  /** The search has looked at the first n expressions of order, which lists the set S of those it has met. */
  ghost predicate Searched(p: TracedProgram, order: seq<Id>, n: nat, S: set<Id>, edges: seq<Edge>)
  {
    && p.last in S && S <= p.exprs.Keys && n <= |order| && Lists(order, S)
    && edges == AllEdges(p, order[..n]) && p.NoneUnneeded(S) && Covered(p, order[..n], S)
  }

  lemma SearchedOneMore(p: TracedProgram, order: seq<Id>, order': seq<Id>, n: nat, S: set<Id>, S': set<Id>,
                        edges: seq<Edge>, edges': seq<Edge>, x: Id)
    requires Searched(p, order, n, S, edges) && n < |order| && Begins(order, order') && x == order[n] && x in p.exprs
    requires S' == S + Dependency(p.Prev(x)) + Dependency(p.Source(x)) && S' <= p.exprs.Keys && Lists(order', S')
    requires edges' == edges + EdgeFrom(p.Prev(x), x) + EdgeFrom(p.Source(x), x)
    ensures Searched(p, order', n + 1, S', edges')
    ensures Elements(order'[..n + 1]) == Elements(order[..n]) + {x}
  {
    var done := order[..n];
    NextOf(order, order', n);
    assert x in Elements(order);
    p.DependencyIsNeeded(S, x, p.Prev(x));
    p.DependencyIsNeeded(S + Dependency(p.Prev(x)), x, p.Source(x));
    EdgesOneMore(p, done, x);
    CoveredOneMore(p, done, S, x);
    ElementsAppend(done, x);
  }

  lemma NextOf(order: seq<Id>, order': seq<Id>, n: nat)
    requires n < |order| && Begins(order, order')
    ensures order'[..n + 1] == order[..n] + [order[n]]
  {
    assert order'[..n + 1] == order'[..|order|][..n + 1];
  }

  lemma EdgesOneMore(p: TracedProgram, order: seq<Id>, x: Id)
    requires x in p.exprs
    ensures AllEdges(p, order + [x]) == AllEdges(p, order) + EdgeFrom(p.Prev(x), x) + EdgeFrom(p.Source(x), x)
  {
    assert (order + [x])[..|order|] == order;
  }

  lemma CoveredOneMore(p: TracedProgram, order: seq<Id>, S: set<Id>, x: Id)
    requires Covered(p, order, S) && x in p.exprs
    ensures Covered(p, order + [x], S + Dependency(p.Prev(x)) + Dependency(p.Source(x)))
  {
  }

  /** When nothing is left to look at, exactly what is needed has been met. */
  lemma SearchedAll(p: TracedProgram, order: seq<Id>, S: set<Id>, edges: seq<Edge>)
    requires Searched(p, order, |order|, S, edges)
    ensures p.Needed(S) && edges == AllEdges(p, order)
  {
    assert order[..|order|] == order;
    forall x, d | x in S && p.DependsOn(x, d) ensures d in S {
      assert x in Elements(order);
    }
  }

  lemma NotYetSearched(order: seq<Id>, n: nat)
    requires NoRepeats(order) && n < |order|
    ensures order[n] !in Elements(order[..n]) && Elements(order[..n]) <= Elements(order)
  {
  }

  // ----- sorting -----

  /** Done is sorted, and what waits in the queue has all its dependencies in done; nothing else has. */
  ghost predicate Sorting(p: TracedProgram, S: set<Id>, done: seq<Id>, queue: seq<Id>)
  {
    && p.Closed(S) && p.Sorted(done) && NoRepeats(done + queue)
    && Elements(done + queue) <= S
    && forall x :: x in S ==> (x in done + queue <==> p.Pending(x, Elements(done)) == 0)
  }

  /** Taking d off the queue lowers the pending count of what depends on it, once for each way. */
  lemma PendingFalls(p: TracedProgram, x: Id, done: seq<Id>, d: Id)
    requires x in p.exprs && d !in done
    ensures p.Pending(x, Elements(done)) == p.Pending(x, Elements(done + [d])) + Ways(p, x, d)
  {
    ElementsAppend(done, d);
  }

  lemma SortedAppend(p: TracedProgram, done: seq<Id>, d: Id)
    requires p.Sorted(done) && d in p.exprs && d !in done && p.Pending(d, Elements(done)) == 0
    ensures p.Sorted(done + [d])
  {
    var order := done + [d];
    forall i | 0 <= i < |order| ensures order[i] in p.exprs && p.Pending(order[i], Elements(order[..i])) == 0 {
      if i < |done| {
        assert order[..i] == done[..i] && order[i] == done[i];
      } else {
        assert order[..i] == done;
      }
    }
  }

  /** Every count is what is still pending. */
  ghost predicate Counts(p: TracedProgram, S: set<Id>, done: seq<Id>, prevd: map<Id, nat>)
  {
    S <= p.exprs.Keys && prevd.Keys == S && forall x {:trigger prevd[x]} ::
      x in S ==> prevd[x] == p.Pending(x, Elements(done))
  }

  /** The counts and the queue after looking at the first n expressions of order, with nothing done yet. */
  ghost predicate Counting(p: TracedProgram, order: seq<Id>, n: nat, prevd: map<Id, nat>, queue: seq<Id>)
  {
    && n <= |order| && Elements(order) <= p.exprs.Keys && prevd.Keys == Elements(order[..n]) && NoRepeats(queue)
    && (forall x {:trigger prevd[x]} :: x in prevd ==> x in p.exprs && prevd[x] == p.Pending(x, {}))
    && (forall x {:trigger x in queue} :: x in queue <==> x in prevd && prevd[x] == 0)
  }

  lemma CountingOneMore(p: TracedProgram, order: seq<Id>, n: nat, prevd: map<Id, nat>, queue: seq<Id>, c: nat)
    requires Counting(p, order, n, prevd, queue) && n < |order| && NoRepeats(order) && order[n] in p.exprs
    requires c == p.Pending(order[n], {})
    ensures Counting(p, order, n + 1, prevd[order[n] := c], if c == 0 then queue + [order[n]] else queue)
  {
    NotYetSearched(order, n);
    assert order[..n + 1] == order[..n] + [order[n]];
    ElementsAppend(order[..n], order[n]);
    var x, prevd' := order[n], prevd[order[n] := c];
    var queue' := if c == 0 then queue + [x] else queue;
    assert x !in queue;
    forall y ensures y in queue' <==> y in prevd' && prevd'[y] == 0 {
      assert y in queue' <==> y in queue || (c == 0 && y == x);
    }
  }

  lemma CountingEnds(p: TracedProgram, order: seq<Id>, S: set<Id>, prevd: map<Id, nat>, queue: seq<Id>)
    requires Counting(p, order, |order|, prevd, queue) && Lists(order, S) && p.Closed(S)
    ensures Counts(p, S, [], prevd) && Sorting(p, S, [], queue)
  {
    assert order[..|order|] == order && [] + queue == queue && Elements<Id>([]) == {};
  }

  /** T has every expression of S as often as it depends on h, and nothing else. */
  ghost predicate Successors(p: TracedProgram, S: set<Id>, h: Id, T: seq<Id>)
  {
    S <= p.exprs.Keys && forall x {:trigger multiset(T)[x]} :: multiset(T)[x] == if x in S then Ways(p, x, h) else 0
  }

  lemma TargetsAreSuccessors(p: TracedProgram, order: seq<Id>, S: set<Id>, h: Id)
    requires Lists(order, S) && S <= p.exprs.Keys
    ensures Successors(p, S, h, Targets(AllEdges(p, order), h))
  {
    forall x ensures multiset(Targets(AllEdges(p, order), h))[x] == if x in S then Ways(p, x, h) else 0 {
      TargetsCount(p, order, h, x);
    }
  }

  /** h has been taken off the queue after done, and the first j of its successors T have been told. */
  ghost predicate Releasing(p: TracedProgram, S: set<Id>, done: seq<Id>, h: Id, queue: seq<Id>, prevd: map<Id, nat>,
                            T: seq<Id>, j: nat)
  {
    && S <= p.exprs.Keys && prevd.Keys == S && j <= |T|
    && (forall x {:trigger prevd[x]} :: x in S ==> prevd[x] + multiset(T[..j])[x] == p.Pending(x, Elements(done)))
    && NoRepeats(done + [h] + queue) && Elements(done + [h] + queue) <= S
    && forall x :: x in S ==> (x in done + [h] + queue <==> prevd[x] == 0)
  }

  lemma HeadIsReady(p: TracedProgram, S: set<Id>, done: seq<Id>, h: Id, queue: seq<Id>)
    requires Sorting(p, S, done, [h] + queue)
    ensures h in S && h !in done && p.Pending(h, Elements(done)) == 0
  {
    var all := done + ([h] + queue);
    assert all[|done|] == h;
    assert forall i :: 0 <= i < |done| ==> all[i] == done[i];
    assert h in Elements(all);
  }

  lemma TakeHead(p: TracedProgram, S: set<Id>, done: seq<Id>, queue: seq<Id>)
    requires Sorting(p, S, done, queue) && queue != []
    ensures Sorting(p, S, done, [queue[0]] + queue[1..])
    ensures S - Elements(done + [queue[0]]) < S - Elements(done)
  {
    assert [queue[0]] + queue[1..] == queue;
    HeadIsReady(p, S, done, queue[0], queue[1..]);
    ElementsAppend(done, queue[0]);
    assert queue[0] in S - Elements(done);
  }

  lemma ReleaseStarts(p: TracedProgram, S: set<Id>, done: seq<Id>, h: Id, queue: seq<Id>, prevd: map<Id, nat>,
                      T: seq<Id>)
    requires Sorting(p, S, done, [h] + queue) && Counts(p, S, done, prevd)
    ensures Releasing(p, S, done, h, queue, prevd, T, 0)
  {
    assert done + ([h] + queue) == done + [h] + queue;
    assert T[..0] == [];
  }

  /** A successor is told once for each way in which it depends on h, so its count never falls below zero. */
  lemma StillCounted(p: TracedProgram, S: set<Id>, done: seq<Id>, h: Id, T: seq<Id>, j: nat)
    requires Successors(p, S, h, T) && h !in done && j < |T|
    ensures T[j] in S && multiset(T[..j + 1])[T[j]] <= p.Pending(T[j], Elements(done))
    ensures forall x :: multiset(T[..j + 1])[x] == multiset(T[..j])[x] + if x == T[j] then 1 else 0
  {
    var x := T[j];
    assert T == T[..j + 1] + T[j + 1..] && T[..j + 1] == T[..j] + [x];
    assert multiset(T) == multiset(T[..j + 1]) + multiset(T[j + 1..]);
    assert x in T;
    assert multiset(T)[x] > 0;
    PendingFalls(p, x, done, h);
  }

  lemma ReleaseOne(p: TracedProgram, S: set<Id>, done: seq<Id>, h: Id, queue: seq<Id>, prevd: map<Id, nat>, T: seq<Id>,
                   j: nat)
    requires Releasing(p, S, done, h, queue, prevd, T, j) && Successors(p, S, h, T) && j < |T|
    ensures T[j] in S && prevd[T[j]] > 0
    ensures var x := T[j];
      var prevd' := prevd[x := prevd[x] - 1];
      Releasing(p, S, done, h, if prevd'[x] == 0 then queue + [x] else queue, prevd', T, j + 1)
  {
    var x := T[j];
    assert (done + [h] + queue)[|done|] == h;
    assert forall i :: 0 <= i < |done| ==> (done + [h] + queue)[i] == done[i];
    StillCounted(p, S, done, h, T, j);
    var prevd' := prevd[x := prevd[x] - 1];
    if prevd'[x] == 0 {
      assert x !in done + [h] + queue;
      assert done + [h] + (queue + [x]) == (done + [h] + queue) + [x];
      ElementsAppend(done + [h] + queue, x);
    }
  }

  lemma ReleaseEnds(p: TracedProgram, S: set<Id>, done: seq<Id>, h: Id, queue: seq<Id>, prevd: map<Id, nat>, T: seq<Id>)
    requires Releasing(p, S, done, h, queue, prevd, T, |T|) && Successors(p, S, h, T)
    requires p.Closed(S) && p.Sorted(done) && h in S && h !in done && p.Pending(h, Elements(done)) == 0
    ensures Sorting(p, S, done + [h], queue) && Counts(p, S, done + [h], prevd)
  {
    assert T[..|T|] == T;
    SortedAppend(p, done, h);
    forall x | x in S ensures prevd[x] == p.Pending(x, Elements(done + [h])) {
      assert multiset(T)[x] == Ways(p, x, h);
      PendingFalls(p, x, done, h);
    }
  }

  /** When the queue runs dry, everything is sorted exactly when there is no cycle. */
  lemma SortedAll(p: TracedProgram, S: set<Id>, done: seq<Id>)
    requires Sorting(p, S, done, [])
    ensures Elements(done) == S <==> p.Acyclic(S)
  {
    assert done + [] == done;
    if p.Acyclic(S) {
      var rank :| p.Ranks(rank, S);
      forall x | x in S ensures x in done {
        RankedIsDone(p, S, done, rank, x);
      }
    }
    if Elements(done) == S {
      PositionsRank(p, S, done);
    }
  }

  lemma {:induction false} RankedIsDone(p: TracedProgram, S: set<Id>, done: seq<Id>, rank: map<Id, nat>, x: Id)
    requires Sorting(p, S, done, []) && p.Ranks(rank, S) && x in S
    ensures x in done
    decreases rank[x]
  {
    assert done + [] == done;
    forall d | p.DependsOn(x, d) ensures d in Elements(done) {
      RankedIsDone(p, S, done, rank, d);
    }
  }

  /** The place of x in order. */
  function Position(order: seq<Id>, x: Id): (i: nat)
    requires x in order
    ensures i < |order| && order[i] == x
  {
    if order[|order| - 1] == x then |order| - 1
    else
      assert x in order[..|order| - 1];
      Position(order[..|order| - 1], x)
  }

  lemma PositionsRank(p: TracedProgram, S: set<Id>, done: seq<Id>)
    requires S <= p.exprs.Keys && p.Sorted(done) && Elements(done) == S
    ensures p.Acyclic(S)
  {
    forall x | x in S ensures x in done { assert x in Elements(done); }
    var rank := map x | x in S :: Position(done, x);
    forall x, d | x in S && d in S && p.DependsOn(x, d) ensures rank[d] < rank[x] {
      var i := Position(done, x);
      assert d in Elements(done[..i]);
      var j :| 0 <= j < i && done[j] == d;
      assert done[Position(done, d)] == done[j];
    }
    assert p.Ranks(rank, S);
  }

  /** In a sorted order everything an expression depends on comes before it. */
  lemma ComesBefore(p: TracedProgram, order: seq<Id>, i: nat, d: Id) returns (j: nat)
    requires p.Sorted(order) && i < |order| && order[i] in p.exprs && p.DependsOn(order[i], d)
    ensures j < i && order[j] == d
  {
    assert p.Pending(order[i], Elements(order[..i])) == 0;
    assert d in Elements(order[..i]);
    j :| 0 <= j < i && order[..i][j] == d;
  }

  // ----- the order within a stream -----

  lemma {:induction false} BackComesBefore(p: TracedProgram, order: seq<Id>, j: nat, n: nat) returns (i: nat)
    requires p.Sorted(order) && j < |order| && p.Back(order[j], n).Some?
    ensures i < |order| && order[i] == p.Back(order[j], n).value && (n > 0 ==> i < j)
  {
    i := j;
    if n > 0 {
      var k := BackComesBefore(p, order, j, n - 1);
      i := ComesBefore(p, order, k, p.Prev(order[k]).value);
    }
  }

  /** A sorted order puts the expressions of a stream in the order in which they were traced. */
  lemma SortedAsTraced(p: TracedProgram, order: seq<Id>)
    requires p.Sorted(order) && p.Streamed(Elements(order))
    ensures p.AsTraced(order)
  {
    forall i, j | 0 <= i < j < |order| && p.SameStream(order[i], order[j]) ensures p.Before(order[i], order[j]) {
      assert order[i] in Elements(order) && order[j] in Elements(order);
      BeforeIsEarlier(p, order, j, i);
    }
  }

  lemma BeforeIsEarlier(p: TracedProgram, order: seq<Id>, i: nat, j: nat)
    requires p.Sorted(order) && i < |order| && j < |order|
    ensures p.Before(order[i], order[j]) ==> i < j
  {
    if p.Before(order[i], order[j]) {
      var n: nat :| n > 0 && p.Back(order[j], n) == Some(order[i]);
      var k := BackComesBefore(p, order, j, n);
      assert k == i;
    }
  }

  // ----- which traces have no cycle -----

  /** When everything depends on older expressions only, there is no cycle. */
  lemma OlderIsAcyclic(p: TracedProgram, S: set<Id>)
    requires S <= p.exprs.Keys && forall x, d :: x in S && p.DependsOn(x, d) ==> d < x
    ensures p.Acyclic(S)
  {
    var rank := map x | x in S :: x;
    assert p.Ranks(rank, S);
  }

  lemma {:induction false} BackIsNeeded(p: TracedProgram, S: set<Id>, rank: map<Id, nat>, y: Id, n: nat)
    requires p.Closed(S) && p.Ranks(rank, S) && y in S && p.Back(y, n).Some?
    ensures p.Back(y, n).value in S && (n > 0 ==> rank[p.Back(y, n).value] < rank[y])
  {
    if n > 0 {
      BackIsNeeded(p, S, rank, y, n - 1);
      var x := p.Back(y, n - 1).value;
      assert p.DependsOn(x, p.Prev(x).value);
    }
  }

  /** Ids are given in the order of tracing, in which prev links lead back. */
  ghost predicate OneStream(p: TracedProgram, S: set<Id>)
  {
    && p.Closed(S)
    && (forall x :: x in S && p.Prev(x).Some? ==> p.Prev(x).value < x)
    && forall x, y :: x in S && y in S && x < y ==> p.Before(x, y)
  }

  /** A program of one stream has a cycle exactly when some name that is read is generated again, by the reading itself
      or later. */
  lemma OneStreamIsAcyclic(p: TracedProgram, S: set<Id>)
    requires OneStream(p, S)
    ensures p.Acyclic(S) <==> forall x :: x in S && p.Source(x).Some? ==> p.Source(x).value < x
  {
    if p.Acyclic(S) {
      var rank :| p.Ranks(rank, S);
      forall x | x in S && p.Source(x).Some? ensures p.Source(x).value < x {
        var d := p.Source(x).value;
        assert p.DependsOn(x, d);
        if x < d {
          var n: nat :| n > 0 && p.Back(d, n) == Some(x);
          BackIsNeeded(p, S, rank, d, n);
        }
      }
    }
    if forall x :: x in S && p.Source(x).Some? ==> p.Source(x).value < x {
      OlderIsAcyclic(p, S);
    }
  }

  /** A generation into x, a reading of x, and another generation into x: the name leads to the last one. */
  const REGENERATED: TracedProgram := TracedProgram(
    map[
      0 := TracedExpr(None, None, None, "s"),
      1 := TracedExpr(Some(0), Some("x"), Some(0), "s"),
      2 := TracedExpr(Some(1), None, None, "s")],
    map["x" := 2],
    2)

  lemma RegeneratedLinks()
    ensures REGENERATED.Valid() && OneStream(REGENERATED, {0, 1, 2})
    ensures REGENERATED.DependsOn(1, 0) && REGENERATED.DependsOn(1, 2) && REGENERATED.DependsOn(2, 1)
  {
    var p := REGENERATED;
    assert p.Back(1, 1) == Some(0) && p.Back(2, 1) == Some(1) && p.Back(2, 2) == Some(0);
  }

  /** Everything is needed, there is a cycle, and only the first generation is ever sorted. */
  lemma RegeneratedIsDropped()
    ensures REGENERATED.Valid() && REGENERATED.Needed({0, 1, 2}) && !REGENERATED.Acyclic({0, 1, 2})
    ensures forall done: seq<Id> :: Sorting(REGENERATED, {0, 1, 2}, done, []) ==> Elements(done) == {0}
  {
    var p, S: set<Id> := REGENERATED, {0, 1, 2};
    RegeneratedLinks();
    forall T | p.Closed(T) && p.last in T ensures S <= T {
      assert 1 in T && 0 in T;
    }
    OneStreamIsAcyclic(p, S);
    assert p.Source(1) == Some(2);
    forall done: seq<Id> | Sorting(p, S, done, []) ensures Elements(done) == {0} {
      OnlyFirstSorted(p, done);
    }
  }

  lemma OnlyFirstSorted(p: TracedProgram, done: seq<Id>)
    requires Sorting(p, {0, 1, 2}, done, []) && p.DependsOn(1, 2) && p.DependsOn(2, 1) && forall d :: !p.DependsOn(0, d)
    ensures Elements(done) == {0}
  {
    assert done + [] == done;
    assert p.Pending(0, Elements(done)) == 0;
    NeverSorted(p, done, 1, 2);
    NeverSorted(p, done, 2, 1);
  }

  /** Of two expressions that depend on each other, neither is sorted. */
  lemma NeverSorted(p: TracedProgram, order: seq<Id>, x: Id, y: Id)
    requires p.Sorted(order) && x in p.exprs && y in p.exprs && p.DependsOn(x, y) && p.DependsOn(y, x)
    ensures x !in order
  {
    SortedEarlier(p, order, x, y);
    SortedEarlier(p, order, y, x);
  }

  lemma SortedEarlier(p: TracedProgram, order: seq<Id>, x: Id, d: Id)
    requires p.Sorted(order) && x in p.exprs && p.DependsOn(x, d)
    ensures x in order ==> d in order && Position(order, d) < Position(order, x)
  {
    if x in order {
      var j := ComesBefore(p, order, Position(order, x), d);
      assert order[j] == order[Position(order, d)];
    }
  }
}
