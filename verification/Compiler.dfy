/** Building the dependency graph of a traced program and sorting it. */
module Compiler {
  import opened Collections
  import opened Options
  import opened Dependencies

  class CompGraphNode {
    const expr: Id
    var nextNodes: seq<CompGraphNode>
    var prevNode: CompGraphNode?
    var sourceNode: CompGraphNode?

    constructor (expr: Id)
      ensures this.expr == expr && nextNodes == [] && prevNode == null && sourceNode == null
    {
      this.expr := expr;
      nextNodes, prevNode, sourceNode := [], null, null;
    }
  }

  type Index = map<Id, CompGraphNode>

  /** ns are the nodes of ids, one by one. */
  ghost predicate NodesOf(index: Index, ns: seq<CompGraphNode>, ids: seq<Id>)
  {
    |ns| == |ids| && forall i {:trigger ns[i]} {:trigger ids[i]} ::
      0 <= i < |ns| ==> ids[i] in index && ns[i] == index[ids[i]]
  }

  ghost predicate Extends(index: Index, index': Index)
  {
    forall x {:trigger index[x]} {:trigger index'[x]} :: x in index ==> x in index' && index'[x] == index[x]
  }

  lemma NodesOfExtends(index: Index, index': Index, ns: seq<CompGraphNode>, ids: seq<Id>)
    requires NodesOf(index, ns, ids) && Extends(index, index')
    ensures NodesOf(index', ns, ids)
  {
  }

  lemma NodesOfAppend(index: Index, ns: seq<CompGraphNode>, ids: seq<Id>, x: Id)
    requires NodesOf(index, ns, ids) && x in index
    ensures NodesOf(index, ns + [index[x]], ids + [x])
  {
  }

  lemma NodesOfTail(index: Index, ns: seq<CompGraphNode>, ids: seq<Id>)
    requires NodesOf(index, ns, ids) && ns != []
    ensures ids[0] in index && ns[0] == index[ids[0]] && NodesOf(index, ns[1..], ids[1..])
  {
  }

  /** The successors of every expression are the nodes of the targets of the edges from it, in order. */
  ghost predicate AllFollow(index: Index, nexts: map<Id, seq<CompGraphNode>>, edges: seq<Edge>)
  {
    forall x {:trigger nexts[x]} :: x in nexts ==> NodesOf(index, nexts[x], Targets(edges, x))
  }

  /** Nodes and expressions correspond one to one. */
  ghost predicate Indexes(index: Index, ns: seq<CompGraphNode>, order: seq<Id>)
  {
    && (forall x {:trigger index[x]} :: x in index ==> index[x].expr == x)
    && NodesOf(index, ns, order) && Lists(order, index.Keys)
  }

  lemma IndexGrows(index: Index, ns: seq<CompGraphNode>, order: seq<Id>, n: CompGraphNode)
    requires Indexes(index, ns, order) && n.expr !in index
    ensures Indexes(index[n.expr := n], ns + [n], order + [n.expr])
  {
    var index' := index[n.expr := n];
    Listed(order, index.Keys, n.expr);
    assert index'.Keys == index.Keys + {n.expr};
    NodesOfExtends(index, index', ns, order);
    NodesOfAppend(index', ns, order, n.expr);
  }

  /** A new node without successors changes nobody else's. */
  lemma EdgesStay(index: Index, n: CompGraphNode, nexts: map<Id, seq<CompGraphNode>>, edges: seq<Edge>)
    requires EdgesWithin(edges, index.Keys) && AllFollow(index, nexts, edges) && n.expr !in index
    ensures EdgesWithin(edges, index[n.expr := n].Keys) && AllFollow(index[n.expr := n], nexts[n.expr := []], edges)
  {
    var index' := index[n.expr := n];
    NothingFollows(edges, index.Keys, n.expr);
    forall x | x in nexts && x != n.expr ensures NodesOf(index', nexts[x], Targets(edges, x)) {
      NodesOfExtends(index, index', nexts[x], Targets(edges, x));
    }
  }

  /** One more edge adds one successor. */
  lemma AllFollowAttached(index: Index, nexts: map<Id, seq<CompGraphNode>>, edges: seq<Edge>, e: Edge)
    requires AllFollow(index, nexts, edges) && e.0 in nexts && e.1 in index
    ensures AllFollow(index, nexts[e.0 := nexts[e.0] + [index[e.1]]], edges + [e])
  {
    TargetsAppend(edges, [e], e.0);
    NodesOfAppend(index, nexts[e.0], Targets(edges, e.0), e.1);
    forall x | x in nexts && x != e.0 ensures Targets(edges + [e], x) == Targets(edges, x) {
      OtherTarget(edges, e, x);
    }
  }

  class CompiledFunction {
    const program: TracedProgram
    var nodes: seq<CompGraphNode>
    var exprToNode: Index
    /** The expressions of the nodes, and the edges in the order in which they were added. */
    ghost var order: seq<Id>
    ghost var edges: seq<Edge>
    /** The stream of every expression, renamed to a number. */
    var pids: map<Id, nat>

    /** The nodes of what the last expression needs, sorted; all of them exactly when there is no cycle. */
    constructor (program: TracedProgram)
      requires program.Valid()
      ensures this.program == program && program.Needed(exprToNode.Keys)
      ensures SourcesWired() && Renames(program, pids, exprToNode.Keys)
      ensures NodesOf(exprToNode, nodes, order) && program.Sorted(order) && Elements(order) <= exprToNode.Keys
      ensures Elements(order) == exprToNode.Keys <==> program.Acyclic(exprToNode.Keys)
    {
      this.program := program;
      nodes, exprToNode, order, edges, pids := [], map[], [], [], map[];
      new;
      BuildGraph();
      NumberPids();
      SortNodes();
    }

    method SortNodes()
      requires Complete()
      modifies `nodes, `order
      ensures program.Needed(exprToNode.Keys) && SourcesWired()
      ensures NodesOf(exprToNode, nodes, order) && program.Sorted(order) && Elements(order) <= exprToNode.Keys
      ensures Elements(order) == exprToNode.Keys <==> program.Acyclic(exprToNode.Keys)
    {
      ghost var sorted := TopologicalSort();
      label unlisted:
      order := sorted;
      assert SourcesWired() == old@unlisted(SourcesWired());
    }

    ghost predicate In(n: CompGraphNode)
      reads `exprToNode
    {
      n.expr in exprToNode && exprToNode[n.expr] == n
    }

    ghost predicate Indexed()
      reads `nodes, `exprToNode, `order
    {
      program.Valid() && exprToNode.Keys <= program.exprs.Keys && Indexes(exprToNode, nodes, order)
    }

    /** The successors of every node are the targets of the edges from it, in order. */
    ghost predicate Followed()
      reads `exprToNode, `edges, exprToNode.Values`nextNodes
    {
      EdgesWithin(edges, exprToNode.Keys) && AllFollow(exprToNode, Nexts(), edges)
    }

    ghost function Nexts(): map<Id, seq<CompGraphNode>>
      reads `exprToNode, exprToNode.Values`nextNodes
    {
      map x | x in exprToNode :: exprToNode[x].nextNodes
    }

    /** A pointer to the node of a dependency, or to nothing if there is none. */
    ghost predicate PointsTo(n: CompGraphNode?, d: Option<Id>)
      reads `exprToNode
    {
      if d.Some? then n != null && In(n) && n.expr == d.value else n == null
    }

    ghost predicate Blank(n: CompGraphNode)
      reads n`prevNode, n`sourceNode
    {
      n.prevNode == null && n.sourceNode == null
    }

    method Create(d: Id) returns (n: CompGraphNode)
      requires Indexed() && Followed() && d in program.exprs && d !in exprToNode
      modifies `nodes, `exprToNode, `order
      ensures Indexed() && Followed()
      ensures nodes == old(nodes) + [n] && exprToNode == old(exprToNode)[d := n] && order == old(order) + [d]
      ensures n.expr == d && fresh(n) && Blank(n)
    {
      ghost var nexts := Nexts();
      n := New(d, nexts);
      Register(n, nexts);
    }

    method New(d: Id, ghost nexts: map<Id, seq<CompGraphNode>>) returns (n: CompGraphNode)
      requires Indexed() && Followed() && nexts == Nexts()
      ensures Indexed() && Followed() && nexts == Nexts()
      ensures n.expr == d && fresh(n) && Blank(n) && n.nextNodes == []
    {
      n := new CompGraphNode(d);
    }

    method Register(n: CompGraphNode, ghost nexts: map<Id, seq<CompGraphNode>>)
      requires Indexed() && Followed() && n.expr in program.exprs && n.expr !in exprToNode
      requires n.nextNodes == [] && nexts == Nexts()
      modifies `nodes, `exprToNode, `order
      ensures Indexed() && Followed()
      ensures nodes == old(nodes) + [n] && exprToNode == old(exprToNode)[n.expr := n] && order == old(order) + [n.expr]
    {
      EdgesStay(exprToNode, n, nexts, edges);
      Install(n, exprToNode[n.expr := n]);
      assert Nexts() == nexts[n.expr := []];
    }

    method Install(n: CompGraphNode, ghost index: Index)
      requires Indexed() && n.expr in program.exprs && n.expr !in exprToNode && index == exprToNode[n.expr := n]
      modifies `nodes, `exprToNode, `order
      ensures Indexed() && exprToNode == index && nodes == old(nodes) + [n] && order == old(order) + [n.expr]
    {
      IndexGrows(exprToNode, nodes, order, n);
      nodes := nodes + [n];
      exprToNode := exprToNode[n.expr := n];
      order := order + [n.expr];
    }

    /** Nodes are only added. */
    twostate predicate Grown()
      reads `exprToNode
    {
      && Extends(old(exprToNode), exprToNode)
      && forall x {:trigger exprToNode[x]} :: x in exprToNode && x !in old(exprToNode) ==> fresh(exprToNode[x])
    }

    /** New nodes are blank. */
    twostate predicate GrownBlank()
      reads `exprToNode, exprToNode.Values`prevNode, exprToNode.Values`sourceNode
    {
      Grown() && forall x {:trigger exprToNode[x]} :: x in exprToNode && x !in old(exprToNode) ==> Blank(exprToNode[x])
    }

    method Require(d: Id) returns (n: CompGraphNode)
      requires Indexed() && Followed() && d in program.exprs
      modifies `nodes, `exprToNode, `order
      ensures Indexed() && Followed() && In(n) && n.expr == d && GrownBlank()
      ensures Begins(old(order), order) && exprToNode.Keys == old(exprToNode.Keys) + {d}
    {
      if d !in exprToNode {
        n := Create(d);
      } else {
        n := exprToNode[d];
      }
    }

    /** One more edge, from dep to cur. */
    method Attach(dep: CompGraphNode, cur: CompGraphNode)
      requires Indexed() && Followed() && In(cur) && In(dep)
      modifies `edges, dep`nextNodes
      ensures Indexed() && Followed()
      ensures edges == old(edges) + [(dep.expr, cur.expr)]
    {
      ghost var nexts := Nexts();
      AllFollowAttached(exprToNode, nexts, edges, (dep.expr, cur.expr));
      Link(dep, cur, nexts);
      edges := edges + [(dep.expr, cur.expr)];
    }

    method Link(dep: CompGraphNode, cur: CompGraphNode, ghost nexts: map<Id, seq<CompGraphNode>>)
      requires Indexed() && In(dep) && nexts == Nexts()
      modifies dep`nextNodes
      ensures Indexed() && Nexts() == nexts[dep.expr := nexts[dep.expr] + [cur]]
    {
      dep.nextNodes := dep.nextNodes + [cur];
    }

    /** The node of cur's dependency d gets to know that cur follows it. */
    method AddEdge(cur: CompGraphNode, d: Id) returns (dep: CompGraphNode)
      requires Indexed() && Followed() && In(cur) && d in program.exprs
      modifies `nodes, `exprToNode, `order, `edges, exprToNode.Values`nextNodes
      ensures Indexed() && Followed() && In(cur) && In(dep) && dep.expr == d && GrownBlank()
      ensures Begins(old(order), order) && exprToNode.Keys == old(exprToNode.Keys) + {d}
      ensures edges == old(edges) + [(d, cur.expr)]
    {
      dep := Require(d);
      Attach(dep, cur);
    }

    /** The node of x points to the nodes of what x depends on. */
    ghost predicate PrevWired(x: Id)
      requires x in exprToNode && x in program.exprs
      reads `exprToNode, exprToNode.Values`prevNode
    {
      PointsTo(exprToNode[x].prevNode, program.Prev(x))
    }

    ghost predicate SourceWired(x: Id)
      requires x in exprToNode && x in program.exprs
      reads `exprToNode, exprToNode.Values`sourceNode
    {
      PointsTo(exprToNode[x].sourceNode, program.Source(x))
    }

    method SetPrev(cur: CompGraphNode, dep: CompGraphNode)
      requires Indexed() && Followed()
      modifies cur`prevNode
      ensures Indexed() && Followed() && cur.prevNode == dep
    {
      cur.prevNode := dep;
    }

    method SetSource(cur: CompGraphNode, dep: CompGraphNode)
      requires Indexed() && Followed()
      modifies cur`sourceNode
      ensures Indexed() && Followed() && cur.sourceNode == dep
    {
      cur.sourceNode := dep;
    }

    method AddPrev(cur: CompGraphNode)
      requires Indexed() && Followed() && In(cur) && Blank(cur)
      modifies `nodes, `exprToNode, `order, `edges, exprToNode.Values`nextNodes, cur`prevNode
      ensures Indexed() && Followed() && In(cur) && GrownBlank()
      ensures PrevWired(cur.expr) && Begins(old(order), order)
      ensures exprToNode.Keys == old(exprToNode.Keys) + Dependency(program.Prev(cur.expr))
      ensures edges == old(edges) + EdgeFrom(program.Prev(cur.expr), cur.expr)
    {
      var prev := program.Prev(cur.expr);
      if prev.Some? {
        var dep := AddEdge(cur, prev.value);
        SetPrev(cur, dep);
      } else {
        assert edges + EdgeFrom(prev, cur.expr) == edges;
      }
    }

    method AddSource(cur: CompGraphNode)
      requires Indexed() && Followed() && In(cur) && cur.sourceNode == null
      modifies `nodes, `exprToNode, `order, `edges, exprToNode.Values`nextNodes, cur`sourceNode
      ensures Indexed() && Followed() && In(cur) && GrownBlank()
      ensures SourceWired(cur.expr) && Begins(old(order), order)
      ensures exprToNode.Keys == old(exprToNode.Keys) + Dependency(program.Source(cur.expr))
      ensures edges == old(edges) + EdgeFrom(program.Source(cur.expr), cur.expr)
    {
      var source := program.Source(cur.expr);
      if source.Some? {
        var dep := AddEdge(cur, source.value);
        SetSource(cur, dep);
      } else {
        assert edges + EdgeFrom(source, cur.expr) == edges;
      }
    }

    ghost predicate Wired(x: Id)
      requires x in exprToNode && x in program.exprs
      reads `exprToNode, exprToNode.Values`prevNode, exprToNode.Values`sourceNode
    {
      PrevWired(x) && SourceWired(x)
    }

    /** The nodes of done are wired, those of the rest are blank; x, if any, is in between. */
    ghost predicate Visited(done: set<Id>, x: Option<Id>)
      requires exprToNode.Keys <= program.exprs.Keys
      reads `exprToNode, exprToNode.Values`prevNode, exprToNode.Values`sourceNode
    {
      forall y {:trigger exprToNode[y]} :: y in exprToNode ==>
        if y in done then Wired(y)
        else if x == Some(y) then PrevWired(y) && exprToNode[y].sourceNode == null
        else Blank(exprToNode[y])
    }

    method VisitPrev(cur: CompGraphNode, ghost done: set<Id>)
      requires Indexed() && Followed() && In(cur) && Visited(done, None) && cur.expr !in done && done <= exprToNode.Keys
      modifies `nodes, `exprToNode, `order, `edges, exprToNode.Values`nextNodes, cur`prevNode
      ensures Indexed() && Followed() && In(cur) && Grown() && Begins(old(order), order)
      ensures exprToNode.Keys == old(exprToNode.Keys) + Dependency(program.Prev(cur.expr))
      ensures edges == old(edges) + EdgeFrom(program.Prev(cur.expr), cur.expr)
      ensures Visited(done, Some(cur.expr))
    {
      AddPrev(cur);
      PrevVisited(cur, done);
    }

    twostate lemma StillPoints(new n: CompGraphNode?, new d: Option<Id>)
      requires Extends(old(exprToNode), exprToNode)
      requires if d.Some?
        then n != null && n.expr == d.value && d.value in old(exprToNode) && old(exprToNode)[d.value] == n
        else n == null
      ensures PointsTo(n, d)
    {
    }

    twostate lemma PrevVisited(cur: CompGraphNode, new done: set<Id>)
      requires old(Indexed() && In(cur) && Visited(done, None)) && cur.expr !in done && done <= old(exprToNode.Keys)
      requires Extends(old(exprToNode), exprToNode) && exprToNode.Keys <= program.exprs.Keys && In(cur)
      requires PrevWired(cur.expr)
      requires forall y :: y in exprToNode && y !in old(exprToNode) ==> Blank(exprToNode[y])
      requires forall y {:trigger old(exprToNode)[y]} :: y in old(exprToNode) ==>
        old(exprToNode)[y].sourceNode == old(exprToNode[y].sourceNode)
      requires forall y {:trigger old(exprToNode)[y]} :: y in old(exprToNode) && old(exprToNode)[y] != cur ==>
        old(exprToNode)[y].prevNode == old(exprToNode[y].prevNode)
      ensures Visited(done, Some(cur.expr))
    {
      forall y | y in exprToNode ensures
        if y in done then Wired(y)
        else if Some(cur.expr) == Some(y) then PrevWired(y) && exprToNode[y].sourceNode == null
        else Blank(exprToNode[y])
      {
        if y in old(exprToNode) {
          if y in done {
            assert old(Wired(y));
            StillPoints(exprToNode[y].prevNode, program.Prev(y));
            StillPoints(exprToNode[y].sourceNode, program.Source(y));
          }
        }
      }
    }

    method VisitSource(cur: CompGraphNode, ghost done: set<Id>)
      requires Indexed() && Followed() && In(cur) && Visited(done, Some(cur.expr)) && cur.expr !in done
      requires done <= exprToNode.Keys
      modifies `nodes, `exprToNode, `order, `edges, exprToNode.Values`nextNodes, cur`sourceNode
      ensures Indexed() && Followed() && In(cur) && Grown() && Begins(old(order), order)
      ensures exprToNode.Keys == old(exprToNode.Keys) + Dependency(program.Source(cur.expr))
      ensures edges == old(edges) + EdgeFrom(program.Source(cur.expr), cur.expr)
      ensures Visited(done + {cur.expr}, None)
    {
      AddSource(cur);
      SourceVisited(cur, done);
    }

    twostate lemma SourceVisited(cur: CompGraphNode, new done: set<Id>)
      requires old(Indexed() && In(cur) && Visited(done, Some(cur.expr))) && cur.expr !in done
      requires done <= old(exprToNode.Keys)
      requires Extends(old(exprToNode), exprToNode) && exprToNode.Keys <= program.exprs.Keys && In(cur)
      requires SourceWired(cur.expr)
      requires forall y :: y in exprToNode && y !in old(exprToNode) ==> Blank(exprToNode[y])
      requires forall y {:trigger old(exprToNode)[y]} :: y in old(exprToNode) ==>
        old(exprToNode)[y].prevNode == old(exprToNode[y].prevNode)
      requires forall y {:trigger old(exprToNode)[y]} :: y in old(exprToNode) && old(exprToNode)[y] != cur ==>
        old(exprToNode)[y].sourceNode == old(exprToNode[y].sourceNode)
      ensures Visited(done + {cur.expr}, None)
    {
      forall y | y in exprToNode ensures if y in done + {cur.expr} then Wired(y) else Blank(exprToNode[y]) {
        if y in old(exprToNode) {
          if y in done {
            assert old(Wired(y));
            StillPoints(exprToNode[y].prevNode, program.Prev(y));
            StillPoints(exprToNode[y].sourceNode, program.Source(y));
          } else if y == cur.expr {
            assert old(PrevWired(y));
            StillPoints(exprToNode[y].prevNode, program.Prev(y));
          }
        }
      }
    }

    /** The state of the graph when the first n nodes have been visited. */
    ghost predicate Built(n: nat)
      reads `nodes, `exprToNode, `order, `edges, exprToNode.Values
    {
      && Indexed() && Followed() && Searched(program, order, n, exprToNode.Keys, edges)
      && Visited(Elements(order[..n]), None)
    }

    /** What has not been visited after n nodes. */
    ghost function Unvisited(n: nat): set<Id>
      requires n <= |order|
      reads `order
    {
      program.exprs.Keys - Elements(order[..n])
    }

    /** One round of build_graph. */
    method Visit(head: nat)
      requires Built(head) && head < |nodes|
      modifies this, exprToNode.Values
      ensures Built(head + 1) && Grown()
      ensures Unvisited(head + 1) < old(Unvisited(head))
    {
      var cur := nodes[head];
      ghost var before, known, found := order, exprToNode.Keys, edges;
      NotYetSearched(order, head);
      VisitNode(cur, Elements(order[..head]));
      SearchedOneMore(program, before, order, head, known, exprToNode.Keys, found, edges, cur.expr);
    }

    method VisitNode(cur: CompGraphNode, ghost done: set<Id>)
      requires Indexed() && Followed() && In(cur) && Visited(done, None) && cur.expr !in done && done <= exprToNode.Keys
      modifies `nodes, `exprToNode, `order, `edges, exprToNode.Values`nextNodes, cur`prevNode, cur`sourceNode
      ensures Indexed() && Followed() && Grown() && Begins(old(order), order)
      ensures exprToNode.Keys
        == old(exprToNode.Keys) + Dependency(program.Prev(cur.expr)) + Dependency(program.Source(cur.expr))
      ensures edges
        == old(edges) + EdgeFrom(program.Prev(cur.expr), cur.expr) + EdgeFrom(program.Source(cur.expr), cur.expr)
      ensures Visited(done + {cur.expr}, None)
    {
      ghost var before := order;
      VisitPrev(cur, done);
      ghost var between := order;
      VisitSource(cur, done);
      BeginsTransitive(before, between, order);
    }

    /** The graph starts with the node of the last expression. */
    method Start()
      requires program.Valid()
      modifies this
      ensures Built(0) && exprToNode.Keys == {program.last} && fresh(exprToNode[program.last])
    {
      var lastNode := new CompGraphNode(program.last);
      nodes := [lastNode];
      exprToNode := map[program.last := lastNode];
      order, edges := [program.last], [];
      assert Lists(order, {program.last});
    }

    /** build_graph. */
    method BuildGraph()
      requires program.Valid()
      modifies this
      ensures Built(|order|) && program.Needed(exprToNode.Keys) && edges == AllEdges(program, order)
      ensures forall x :: x in exprToNode ==> fresh(exprToNode[x])
    {
      Start();
      var head := 0;
      while head < |nodes|
        invariant head <= |order| && Built(head)
        invariant forall x {:trigger exprToNode[x]} :: x in exprToNode ==> fresh(exprToNode[x])
        decreases Unvisited(head)
      {
        Visit(head);
        head := head + 1;
      }
      AllVisited(head);
    }

    /** When every node has been visited, the graph is complete. */
    lemma AllVisited(n: nat)
      requires Built(n) && |nodes| <= n
      ensures n == |order| && program.Needed(exprToNode.Keys) && edges == AllEdges(program, order)
    {
      assert n == |order|;
      SearchedAll(program, order, exprToNode.Keys, edges);
    }

    /** Every node points to the node of the variable that it reads. */
    ghost predicate SourcesWired()
      requires exprToNode.Keys <= program.exprs.Keys
      reads `exprToNode, exprToNode.Values`sourceNode
    {
      forall x {:trigger exprToNode[x]} :: x in exprToNode ==> exprToNode[x].expr == x && SourceWired(x)
    }

    method NumberPids()
      requires Complete()
      modifies `pids
      ensures Complete() && Renames(program, pids, exprToNode.Keys)
    {
      var numbers := RenamePids(program, exprToNode, nodes, order);
      assert Complete() == old(Complete());
      SetPids(numbers);
    }

    method SetPids(numbers: map<Id, nat>)
      requires Complete() && Renames(program, numbers, exprToNode.Keys)
      modifies `pids
      ensures Complete() && pids == numbers
    {
      pids := numbers;
      assert Complete() == old(Complete());
    }

    // ----- sorting -----

    /** The complete graph. */
    ghost predicate Complete()
      reads `nodes, `exprToNode, `order, `edges, exprToNode.Values
    {
      Built(|order|) && program.Needed(exprToNode.Keys) && edges == AllEdges(program, order)
    }

    /** How many nodes n waits for at first. */
    function Waits(n: CompGraphNode): nat
      reads n`prevNode, n`sourceNode
    {
      (if n.prevNode != null then 1 else 0) + (if n.sourceNode != null then 1 else 0)
    }

    lemma WaitsForDependencies()
      requires Complete()
      ensures forall i {:trigger nodes[i]} :: 0 <= i < |nodes| ==>
        nodes[i].expr == order[i] && order[i] in program.exprs && Waits(nodes[i]) == program.Pending(order[i], {})
    {
      assert order[..|order|] == order;
      forall i | 0 <= i < |nodes|
        ensures nodes[i].expr == order[i] && order[i] in program.exprs
        ensures Waits(nodes[i]) == program.Pending(order[i], {})
      {
        assert order[i] in Elements(order);
        assert Wired(order[i]);
      }
    }

    /** What every node waits for, and the nodes that wait for nothing. */
    method CountDependencies(ghost S: set<Id>)
      returns (prevd: map<Id, nat>, cand: seq<CompGraphNode>, ghost queue: seq<Id>)
      requires NodesOf(exprToNode, nodes, order) && Lists(order, S) && program.Closed(S)
      requires forall i {:trigger nodes[i]} :: 0 <= i < |nodes| ==>
        nodes[i].expr == order[i] && order[i] in program.exprs && Waits(nodes[i]) == program.Pending(order[i], {})
      ensures NodesOf(exprToNode, cand, queue)
      ensures Counts(program, S, [], prevd) && Sorting(program, S, [], queue)
    {
      prevd, cand, queue := map[], [], [];
      for i := 0 to |nodes|
        invariant Counting(program, order, i, prevd, queue) && NodesOf(exprToNode, cand, queue)
      {
        var x := nodes[i];
        CountingOneMore(program, order, i, prevd, queue, Waits(x));
        prevd := prevd[x.expr := Waits(x)];
        if prevd[x.expr] == 0 {
          cand, queue := cand + [x], queue + [order[i]];
        }
      }
      CountingEnds(program, order, S, prevd, queue);
    }

    /** From every node one gets to the nodes of what depends on it. */
    ghost predicate Navigable(S: set<Id>)
      reads `exprToNode, exprToNode.Values`nextNodes
    {
      && S == exprToNode.Keys && (forall x {:trigger exprToNode[x]} :: x in S ==> exprToNode[x].expr == x)
      && forall x {:trigger exprToNode[x]} :: x in S ==> Leads(program, S, exprToNode, x, exprToNode[x].nextNodes)
    }

    lemma CompleteIsNavigable()
      requires Complete()
      ensures Navigable(exprToNode.Keys)
    {
      forall x | x in exprToNode ensures Leads(program, exprToNode.Keys, exprToNode, x, exprToNode[x].nextNodes) {
        assert Nexts()[x] == exprToNode[x].nextNodes;
        TargetsAreSuccessors(program, order, exprToNode.Keys, x);
      }
    }

    /** A candidate is done: its successors learn about it. */
    method Finish(S: set<Id>, prevd: map<Id, nat>, head: CompGraphNode, cand: seq<CompGraphNode>,
                  ghost done: seq<Id>, ghost h: Id, ghost queue: seq<Id>)
      returns (prevd': map<Id, nat>, cand': seq<CompGraphNode>, ghost queue': seq<Id>)
      requires Navigable(S) && h in exprToNode && head == exprToNode[h] && NodesOf(exprToNode, cand, queue)
      requires Counts(program, S, done, prevd) && Sorting(program, S, done, [h] + queue)
      ensures Navigable(S) && NodesOf(exprToNode, cand', queue')
      ensures Counts(program, S, done + [h], prevd') && Sorting(program, S, done + [h], queue')
    {
      ghost var T :| NodesOf(exprToNode, head.nextNodes, T) && Successors(program, S, h, T);
      prevd', cand', queue' := Release(head.nextNodes, prevd, cand, program, exprToNode, done, h, queue, T);
    }

    /** One round: the first candidate joins the sorted list. */
    method SortOne(S: set<Id>, prevd: map<Id, nat>, cand: seq<CompGraphNode>, newList: seq<CompGraphNode>,
                   ghost done: seq<Id>, ghost queue: seq<Id>)
      returns (prevd': map<Id, nat>, cand': seq<CompGraphNode>, newList': seq<CompGraphNode>, ghost queue': seq<Id>)
      requires Navigable(S) && cand != [] && NodesOf(exprToNode, cand, queue) && NodesOf(exprToNode, newList, done)
      requires Counts(program, S, done, prevd) && Sorting(program, S, done, [queue[0]] + queue[1..])
      ensures Navigable(S) && NodesOf(exprToNode, cand', queue') && NodesOf(exprToNode, newList', done + [queue[0]])
      ensures Counts(program, S, done + [queue[0]], prevd') && Sorting(program, S, done + [queue[0]], queue')
    {
      NodesOfTail(exprToNode, cand, queue);
      NodesOfAppend(exprToNode, newList, done, queue[0]);
      newList' := newList + [cand[0]];
      prevd', cand', queue' := Finish(S, prevd, cand[0], cand[1..], done, queue[0], queue[1..]);
    }

    /** topological_sort: every node once, after what it depends on; all of them exactly when there is no cycle. */
    method TopologicalSort() returns (ghost sorted: seq<Id>)
      requires Complete()
      modifies `nodes
      ensures exprToNode.Keys <= program.exprs.Keys && SourcesWired()
      ensures NodesOf(exprToNode, nodes, sorted) && program.Sorted(sorted)
      ensures Elements(sorted) <= exprToNode.Keys
      ensures Elements(sorted) == exprToNode.Keys <==> program.Acyclic(exprToNode.Keys)
    {
      WaitsForDependencies();
      CompleteIsNavigable();
      nodes, sorted := SortFrom(exprToNode.Keys);
    }

    method SortFrom(S: set<Id>) returns (newList: seq<CompGraphNode>, ghost sorted: seq<Id>)
      requires Navigable(S) && NodesOf(exprToNode, nodes, order) && Lists(order, S) && program.Closed(S)
      requires forall i {:trigger nodes[i]} :: 0 <= i < |nodes| ==>
        nodes[i].expr == order[i] && order[i] in program.exprs && Waits(nodes[i]) == program.Pending(order[i], {})
      ensures NodesOf(exprToNode, newList, sorted) && program.Sorted(sorted) && Elements(sorted) <= S
      ensures Elements(sorted) == S <==> program.Acyclic(S)
    {
      var prevd, cand;
      ghost var queue;
      prevd, cand, queue := CountDependencies(S);
      newList, sorted := [], [];
      while cand != []
        invariant Navigable(S) && NodesOf(exprToNode, newList, sorted) && NodesOf(exprToNode, cand, queue)
        invariant Counts(program, S, sorted, prevd) && Sorting(program, S, sorted, queue)
        decreases S - Elements(sorted)
      {
        ghost var h := queue[0];
        TakeHead(program, S, sorted, queue);
        prevd, cand, newList, queue := SortOne(S, prevd, cand, newList, sorted, queue);
        sorted := sorted + [h];
      }
      SortedAll(program, S, sorted);
    }
  }

  // ----- renaming -----

  /** Numbered and original stream ids tell the same expressions apart. */
  ghost predicate Renames(p: TracedProgram, pids: map<Id, nat>, S: set<Id>)
  {
    && pids.Keys == S && S <= p.exprs.Keys
    && forall x, y {:trigger pids[x], pids[y]} :: x in S && y in S ==>
      (pids[x] == pids[y] <==> p.exprs[x].pid == p.exprs[y].pid)
  }

  /** renamePid numbers the stream ids that were met, from zero on, and pids holds the numbers. */
  ghost predicate Numbered(p: TracedProgram, renamePid: map<string, nat>, pids: map<Id, nat>)
  {
    && (forall s {:trigger renamePid[s]} :: s in renamePid ==> renamePid[s] < |renamePid|)
    && (forall s, t {:trigger renamePid[s], renamePid[t]} :: s in renamePid && t in renamePid && s != t ==>
      renamePid[s] != renamePid[t])
    && forall x {:trigger pids[x]} :: x in pids ==>
      x in p.exprs && p.exprs[x].pid in renamePid && pids[x] == renamePid[p.exprs[x].pid]
  }

  lemma NumberedNext(p: TracedProgram, renamePid: map<string, nat>, pids: map<Id, nat>, x: Id)
    requires Numbered(p, renamePid, pids) && x in p.exprs
    ensures var pid := p.exprs[x].pid;
      var renamePid' := if pid in renamePid then renamePid else renamePid[pid := |renamePid|];
      Numbered(p, renamePid', pids[x := renamePid'[pid]])
  {
  }

  /** The end of build_graph's loop: stream ids are numbered in the order in which they are met. */
  method RenamePids(p: TracedProgram, ghost index: Index, nodes: seq<CompGraphNode>, ghost order: seq<Id>)
    returns (pids: map<Id, nat>)
    requires Indexes(index, nodes, order) && index.Keys <= p.exprs.Keys
    ensures Renames(p, pids, index.Keys)
  {
    var renamePid: map<string, nat> := map[];
    pids := map[];
    var head := 0;
    while head < |nodes|
      invariant head <= |nodes| && Numbered(p, renamePid, pids) && pids.Keys == Elements(order[..head])
    {
      var x := nodes[head].expr;
      assert order[head] in Elements(order);
      OneMoreElement(order, head);
      renamePid, pids := RenamePid(p, x, renamePid, pids);
      head := head + 1;
    }
    assert order[..|order|] == order;
    NumberedTells(p, renamePid, pids);
  }

  method RenamePid(p: TracedProgram, x: Id, renamePid: map<string, nat>, pids: map<Id, nat>)
    returns (renamePid': map<string, nat>, pids': map<Id, nat>)
    requires Numbered(p, renamePid, pids) && x in p.exprs
    ensures Numbered(p, renamePid', pids') && pids'.Keys == pids.Keys + {x}
  {
    NumberedNext(p, renamePid, pids, x);
    renamePid' := renamePid;
    var pid := p.exprs[x].pid;
    if pid !in renamePid {
      renamePid' := renamePid[pid := |renamePid|];
    }
    pids' := pids[x := renamePid'[pid]];
  }

  lemma OneMoreElement(order: seq<Id>, n: nat)
    requires n < |order|
    ensures Elements(order[..n + 1]) == Elements(order[..n]) + {order[n]}
  {
    assert order[..n + 1] == order[..n] + [order[n]];
  }

  lemma NumberedTells(p: TracedProgram, renamePid: map<string, nat>, pids: map<Id, nat>)
    requires Numbered(p, renamePid, pids)
    ensures Renames(p, pids, pids.Keys)
  {
  }

  /** next are the nodes of the successors of x. */
  ghost predicate Leads(p: TracedProgram, S: set<Id>, index: Index, x: Id, next: seq<CompGraphNode>)
  {
    exists T :: NodesOf(index, next, T) && Successors(p, S, x, T)
  }

  /** The successors of h learn that it is done; those that wait for nothing else join the queue. */
  method Release(successors: seq<CompGraphNode>, prevd: map<Id, nat>, cand: seq<CompGraphNode>,
                 ghost p: TracedProgram, ghost index: Index, ghost done: seq<Id>, ghost h: Id, ghost queue: seq<Id>,
                 ghost T: seq<Id>)
    returns (prevd': map<Id, nat>, cand': seq<CompGraphNode>, ghost queue': seq<Id>)
    requires NodesOf(index, successors, T) && NodesOf(index, cand, queue)
    requires forall x {:trigger index[x]} :: x in index ==> index[x].expr == x
    requires Successors(p, index.Keys, h, T) && Counts(p, index.Keys, done, prevd)
    requires Sorting(p, index.Keys, done, [h] + queue)
    ensures NodesOf(index, cand', queue')
    ensures Counts(p, index.Keys, done + [h], prevd') && Sorting(p, index.Keys, done + [h], queue')
  {
    prevd', cand', queue' := prevd, cand, queue;
    HeadIsReady(p, index.Keys, done, h, queue);
    ReleaseStarts(p, index.Keys, done, h, queue, prevd, T);
    for j := 0 to |successors|
      invariant Releasing(p, index.Keys, done, h, queue', prevd', T, j) && NodesOf(index, cand', queue')
    {
      prevd', cand', queue' := ReleaseNode(successors[j], prevd', cand', p, index, done, h, queue', T, j);
    }
    ReleaseEnds(p, index.Keys, done, h, queue', prevd', T);
  }

  /** One successor learns that h is done. */
  method ReleaseNode(x: CompGraphNode, prevd: map<Id, nat>, cand: seq<CompGraphNode>,
                     ghost p: TracedProgram, ghost index: Index, ghost done: seq<Id>, ghost h: Id,
                     ghost queue: seq<Id>, ghost T: seq<Id>, ghost j: nat)
    returns (prevd': map<Id, nat>, cand': seq<CompGraphNode>, ghost queue': seq<Id>)
    requires NodesOf(index, cand, queue) && Releasing(p, index.Keys, done, h, queue, prevd, T, j)
    requires Successors(p, index.Keys, h, T) && j < |T| && T[j] in index && x == index[T[j]] && x.expr == T[j]
    ensures NodesOf(index, cand', queue') && Releasing(p, index.Keys, done, h, queue', prevd', T, j + 1)
  {
    ReleaseOne(p, index.Keys, done, h, queue, prevd, T, j);
    prevd' := prevd[x.expr := prevd[x.expr] - 1];
    cand', queue' := cand, queue;
    if prevd'[x.expr] == 0 {
      NodesOfAppend(index, cand, queue, T[j]);
      cand', queue' := cand + [x], queue + [T[j]];
    }
  }
}
