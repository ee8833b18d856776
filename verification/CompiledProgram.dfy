/** A compiled program on its executors: from the traced program, through graph and sort, to every run. */
module CompiledProgram {
  import opened Collections
  import opened Options
  import opened Dependencies
  import opened Compiler
  import opened CompiledRun
  import Lang
  import Execution
  import Tracing

  /** What an expression that reads no variable does; arguments are known when the program is run. */
  datatype Content = Literal(text: string) | Param(arg: string) | Answer(name: string, ask: Ask)

  /** A traced program with the contents of its expressions, the arguments of a run, and the numbers of its streams. */
  datatype Job = Job(
    program: TracedProgram,
    contents: map<Id, Content>,
    kwargs: map<string, string>,
    pids: map<Id, StreamId>)
  {
    /** Expression x generates or chooses the variable name. */
    predicate Completes(x: Id, name: string)
    {
      && x in program.exprs && program.exprs[x].variable.None?
      && x in contents && contents[x].Answer? && contents[x].name == name
    }

    /** Expression x can be submitted: it has a stream, and its source or its content is known. */
    predicate Known(x: Id)
    {
      && x in program.exprs && x in pids
      && if program.exprs[x].variable.Some? then program.Source(x).Some? && program.Source(x).value in pids
         else x in contents && (contents[x].Param? ==> contents[x].arg in kwargs)
    }

    /** Every expression has a content or reads a variable from the expression that generates it, arguments are given,
        and each name is generated once in a stream. */
    ghost predicate Runnable(S: set<Id>)
    {
      && program.Valid() && program.Closed(S) && Renames(program, pids, S)
      && (forall x {:trigger program.exprs[x]} :: x in S ==>
        if program.exprs[x].variable.Some? then Completes(program.Source(x).value, program.exprs[x].variable.value)
        else x in contents && (contents[x].Param? ==> contents[x].arg in kwargs))
      && (forall x, y, name {:trigger Completes(x, name), Completes(y, name)} ::
        (x in S && y in S && Completes(x, name) && Completes(y, name) && program.exprs[x].pid == program.exprs[y].pid)
        ==> x == y)
    }

    /** What run_internal submits for expression x. */
    function NodeOf(x: Id): Node
      requires Known(x)
    {
      if program.exprs[x].variable.Some? then
        Node(pids[x], Read(program.exprs[x].variable.value, pids[program.Source(x).value]))
      else
        match contents[x]
        case Literal(text) => Node(pids[x], Constant(text))
        case Param(arg) => Node(pids[x], Constant(kwargs[arg]))
        case Answer(name, ask) => Node(pids[x], Generate(name, ask))
    }

    function Submissions(order: seq<Id>): (nodes: seq<Node>)
      requires forall i {:trigger order[i]} :: 0 <= i < |order| ==> Known(order[i])
      ensures |nodes| == |order| && forall i {:trigger nodes[i]} :: 0 <= i < |nodes| ==> nodes[i] == NodeOf(order[i])
    {
      if order == [] then [] else Submissions(order[..|order| - 1]) + [NodeOf(order[|order| - 1])]
    }

    lemma OneMoreSubmission(order: seq<Id>, i: nat)
      requires i < |order| && forall k {:trigger order[k]} :: 0 <= k < |order| ==> Known(order[k])
      ensures Submissions(order[..i + 1]) == Submissions(order[..i]) + [NodeOf(order[i])]
    {
      assert order[..i + 1][..i] == order[..i];
    }

    lemma NeededIsKnown(S: set<Id>, x: Id)
      requires Runnable(S) && x in S
      ensures Known(x)
    {
      if program.exprs[x].variable.Some? {
        assert program.DependsOn(x, program.Source(x).value);
      }
    }

    lemma AllKnown(S: set<Id>, order: seq<Id>)
      requires Runnable(S) && Elements(order) <= S
      ensures forall i {:trigger order[i]} :: 0 <= i < |order| ==> Known(order[i])
    {
      forall i | 0 <= i < |order| ensures Known(order[i]) {
        assert order[i] in Elements(order);
        NeededIsKnown(S, order[i]);
      }
    }
  }

  /** Whatever is read was generated before, because the order is sorted. */
  lemma ReadsComeLater(job: Job, S: set<Id>, order: seq<Id>, i: nat) returns (j: nat)
    requires job.Runnable(S) && job.program.Sorted(order) && Elements(order) <= S && i < |order|
    requires forall k {:trigger order[k]} :: 0 <= k < |order| ==> job.Known(order[k])
    requires job.program.exprs[order[i]].variable.Some?
    ensures j < i && job.program.Source(order[i]) == Some(order[j])
    ensures var read := job.NodeOf(order[i]).op;
      read.Read? && Generates(job.Submissions(order), j, read.source, read.name)
  {
    var x := order[i];
    assert x in Elements(order);
    var d := job.program.Source(x).value;
    j := ComesBefore(job.program, order, i, d);
    assert job.Completes(d, job.program.exprs[x].variable.value);
    assert job.Submissions(order)[j] == job.NodeOf(d);
  }

  /** A generation of a variable is the node of an expression that generates it. */
  lemma GeneratedBy(job: Job, order: seq<Id>, j: nat, s: StreamId, name: string)
    requires forall k {:trigger order[k]} :: 0 <= k < |order| ==> job.Known(order[k])
    requires Generates(job.Submissions(order), j, s, name)
    ensures job.Completes(order[j], name) && job.pids[order[j]] == s
  {
    assert job.Submissions(order)[j] == job.NodeOf(order[j]);
  }

  /** The sorted nodes of a compiled program are well formed: the sort puts every generation before its readings. */
  lemma SortedIsWellFormed(job: Job, S: set<Id>, order: seq<Id>)
    requires job.Runnable(S) && job.program.Sorted(order) && Elements(order) <= S
    ensures forall i {:trigger order[i]} :: 0 <= i < |order| ==> job.Known(order[i])
    ensures WellFormed(job.Submissions(order))
  {
    job.AllKnown(S, order);
    var nodes := job.Submissions(order);
    forall i | 0 <= i < |nodes| && nodes[i].op.Read?
      ensures exists j: nat :: j < i && Generates(nodes, j, nodes[i].op.source, nodes[i].op.name)
    {
      assert nodes[i] == job.NodeOf(order[i]);
      var j := ReadsComeLater(job, S, order, i);
    }
    forall j: nat, k: nat, s: StreamId, name: string | Generates(nodes, j, s, name) && Generates(nodes, k, s, name)
      ensures j == k
    {
      GeneratedBy(job, order, j, s, name);
      GeneratedBy(job, order, k, s, name);
      SameExpression(job, S, order[j], order[k], name, order);
      assert order[j] == order[k];
    }
  }

  lemma SameExpression(job: Job, S: set<Id>, x: Id, y: Id, name: string, order: seq<Id>)
    requires job.Runnable(S) && Elements(order) <= S && x in order && y in order
    requires job.Completes(x, name) && job.Completes(y, name) && x in job.pids && y in job.pids
    requires job.pids[x] == job.pids[y]
    ensures x == y
  {
    assert x in Elements(order) && y in Elements(order);
  }

  /** What a run of a compiled program is: some interleaving of the executors, fed with the sorted nodes. */
  ghost predicate Runs(job: Job, S: set<Id>, order: seq<Id>, backend: Backend, trace: seq<System>, sys: System)
  {
    && job.Runnable(S) && job.program.Sorted(order) && Elements(order) <= S
    && (forall i {:trigger order[i]} :: 0 <= i < |order| ==> job.Known(order[i]))
    && Reaches(backend, job.Submissions(order), trace, sys)
  }

  /** Compiled programs never deadlock: whenever a queue is not empty, the head of some queue can run. */
  lemma CompiledNeverDeadlocks(job: Job, S: set<Id>, order: seq<Id>, backend: Backend, trace: seq<System>, sys: System,
                               waiting: nat)
    returns (i: nat)
    requires Runs(job, S, order, backend, trace, sys) && waiting < sys.submitted && waiting !in sys.ran
    ensures CanRun(backend, job.Submissions(order), sys, i)
  {
    SortedIsWellFormed(job, S, order);
    i := NoDeadlock(backend, job.Submissions(order), trace, sys, waiting);
  }

  /** An executor only waits for a variable whose generation has been submitted, so the lookup finds its event. */
  lemma CompiledWaitsForSubmitted(job: Job, S: set<Id>, order: seq<Id>, backend: Backend, trace: seq<System>,
                                  sys: System,
                                  i: nat)
    returns (j: nat)
    requires Runs(job, S, order, backend, trace, sys) && i < |order|
    requires AtHead(job.Submissions(order), sys, i) && job.Submissions(order)[i].op.Read?
    ensures j < sys.submitted && j < |order|
    ensures job.program.Source(order[i]) == Some(order[j])
    ensures Execute(backend, sys.store, job.Submissions(order)[i]).None? ==> j !in sys.ran
  {
    SortedIsWellFormed(job, S, order);
    var k := WaitsForSubmitted(backend, job.Submissions(order), trace, sys, i);
    j := ReadsComeLater(job, S, order, i);
    assert j == k;
  }

  /** However the executors interleave, a run that cannot go on has executed every sorted expression, and all texts
      and variables are those of running the sorted expressions one by one. */
  lemma CompiledRunsAgree(job: Job, S: set<Id>, order: seq<Id>, backend: Backend, trace: seq<System>, sys: System)
    requires Runs(job, S, order, backend, trace, sys)
    requires forall sys' :: !Step(backend, job.Submissions(order), sys, sys')
    ensures var nodes := job.Submissions(order);
      var inOrder := RunInOrder(backend, nodes, |nodes|);
      && Finished(nodes, sys) && inOrder.Some?
      && (forall s :: TextOf(sys.store, s) == TextOf(inOrder.value, s))
      && sys.store.variables == inOrder.value.variables
  {
    var nodes := job.Submissions(order);
    SortedIsWellFormed(job, S, order);
    StuckIsFinished(backend, nodes, trace, sys);
    RunsAgree(backend, nodes, trace, sys);
  }

  // ----- the submission loop -----

  /** The loop of run_internal over the sorted nodes of a compiled function. */
  method Submit(f: CompiledFunction, contents: map<Id, Content>, kwargs: map<string, string>) returns (nodes: seq<Node>)
    requires NodesOf(f.exprToNode, f.nodes, f.order) && f.program.Sorted(f.order)
    requires Elements(f.order) <= f.exprToNode.Keys
    requires f.exprToNode.Keys <= f.program.exprs.Keys && f.SourcesWired()
    requires Job(f.program, contents, kwargs, f.pids).Runnable(f.exprToNode.Keys)
    ensures var job := Job(f.program, contents, kwargs, f.pids);
      && (forall i {:trigger f.order[i]} :: 0 <= i < |f.order| ==> job.Known(f.order[i]))
      && nodes == job.Submissions(f.order) && WellFormed(nodes)
      && forall store, i {:trigger ExprIn(store, nodes[i])} :: 0 <= i < |nodes| ==>
        nodes[i].stream == f.pids[f.order[i]] && ExprIn(store, nodes[i]) == Meant(job, store, f.order[i])
  {
    ghost var job := Job(f.program, contents, kwargs, f.pids);
    SortedIsWellFormed(job, f.exprToNode.Keys, f.order);
    nodes := [];
    for i := 0 to |f.nodes|
      invariant nodes == job.Submissions(f.order[..i])
    {
      job.OneMoreSubmission(f.order, i);
      var node := SubmittedFor(f, i, contents, kwargs);
      nodes := nodes + [node];
    }
    assert f.order[..|f.order|] == f.order;
    forall store, i | 0 <= i < |nodes|
      ensures nodes[i].stream == f.pids[f.order[i]] && ExprIn(store, nodes[i]) == Meant(job, store, f.order[i])
    {
      assert f.order[i] in Elements(f.order);
      GivenIsMeant(job, f.exprToNode.Keys, store, f.order[i], f.order[i]);
    }
  }

  /** One round of that loop. */
  method SubmittedFor(f: CompiledFunction, i: nat, contents: map<Id, Content>, kwargs: map<string, string>)
    returns (node: Node)
    requires NodesOf(f.exprToNode, f.nodes, f.order) && i < |f.nodes|
    requires f.exprToNode.Keys <= f.program.exprs.Keys && f.SourcesWired()
    requires Job(f.program, contents, kwargs, f.pids).Known(f.order[i])
    ensures node == Job(f.program, contents, kwargs, f.pids).NodeOf(f.order[i])
  {
    var n := f.nodes[i];
    assert n == f.exprToNode[f.order[i]] && n.expr == f.order[i] && f.SourceWired(f.order[i]);
    var expr := f.program.exprs[n.expr];
    var se := f.pids[n.expr];
    if expr.variable.Some? {
      node := Node(se, Read(expr.variable.value, f.pids[n.sourceNode.expr]));
    } else {
      match contents[n.expr]
      case Literal(text) => node := Node(se, Constant(text));
      case Param(arg) => node := Node(se, Constant(kwargs[arg]));
      case Answer(name, ask) => node := Node(se, Generate(name, ask));
    }
  }

  // ----- what a run means -----

  function Asking(name: string, ask: Ask): Lang.Expr
  {
    match ask
    case Complete(overrides) => Lang.Gen(Some(name), overrides)
    case Choose(choices) => Lang.Select(Some(name), choices)
  }

  /** Node i as an expression of its stream; a variable that is read is the text that it holds. */
  function ExprOf(backend: Backend, nodes: seq<Node>, i: nat): Lang.Expr
    requires i < |nodes|
  {
    match nodes[i].op
    case Constant(text) => Lang.Text(text)
    case Generate(name, ask) => Asking(name, ask)
    case Read(_, _) => Lang.Text(Contribution(backend, nodes, i))
  }

  /** What the first n nodes submit to stream s. */
  function TraceOf(backend: Backend, nodes: seq<Node>, s: StreamId, n: nat): seq<Lang.Expr>
    requires n <= |nodes|
  {
    if n == 0 then []
    else TraceOf(backend, nodes, s, n - 1) + if nodes[n - 1].stream == s then [ExprOf(backend, nodes, n - 1)] else []
  }

  /** backend is what the session's backend answers; it answers everything, and there is no speculation. */
  ghost predicate Answers(session: Lang.Session, backend: Backend)
  {
    && session.speculation.None?
    && (forall text, o {:trigger backend(text, Complete(o))} ::
      && Execution.Resolve(session, o).Some?
      && session.backend.generate(text, Execution.Resolve(session, o).value) == Some(backend(text, Complete(o))))
    && forall text, choices {:trigger backend(text, Choose(choices))} ::
      session.backend.choose(text, choices) == Some(backend(text, Choose(choices)))
  }

  /** The variables of a stream after its first nodes. */
  ghost predicate Holds(backend: Backend, nodes: seq<Node>, s: StreamId, n: nat, st: Execution.Stream)
  {
    && (forall j: nat, x: string {:trigger Generates(nodes, j, s, x)} :: j < n && Generates(nodes, j, s, x) ==>
      Some(x) in st.variables && st.variables[Some(x)] == Execution.Str(Contribution(backend, nodes, j)))
    && forall v {:trigger v in st.variables} :: v in st.variables ==>
      v.Some? && exists j: nat :: j < n && Generates(nodes, j, s, v.value)
  }

  /** The stream after one more of its nodes. */
  lemma NodeMeansExpr(session: Lang.Session, backend: Backend, nodes: seq<Node>, i: nat, st: Execution.Stream)
    requires WellFormed(nodes) && Answers(session, backend) && i < |nodes|
    requires st.text == StreamText(backend, nodes, nodes[i].stream, i) && Holds(backend, nodes, nodes[i].stream, i, st)
    ensures var o := Execution.Exec(session, st, ExprOf(backend, nodes, i));
      && o.Done? && o.stream.text == st.text + Contribution(backend, nodes, i)
      && Holds(backend, nodes, nodes[i].stream, i + 1, o.stream)
  {
    match nodes[i].op
    case Generate(name, ask) =>
      var reply := backend(st.text, ask);
      assert reply == Contribution(backend, nodes, i);
      assert Generates(nodes, i, nodes[i].stream, name);
    case _ =>
  }

  /** What executing the first n nodes of stream s leaves. */
  ghost predicate Means(session: Lang.Session, backend: Backend, nodes: seq<Node>, s: StreamId, n: nat,
                        o: Execution.Outcome)
    requires n <= |nodes|
  {
    o.Done? && o.stream.text == StreamText(backend, nodes, s, n) && Holds(backend, nodes, s, n, o.stream)
  }

  lemma SkippedNode(backend: Backend, nodes: seq<Node>, s: StreamId, i: nat, st: Execution.Stream)
    requires i < |nodes| && nodes[i].stream != s && Holds(backend, nodes, s, i, st)
    ensures Holds(backend, nodes, s, i + 1, st)
  {
    forall x ensures !Generates(nodes, i, s, x) {
    }
  }

  /** Executing the expressions submitted to a stream writes what its nodes contribute. */
  lemma {:induction false} StreamMeansTrace(session: Lang.Session, backend: Backend, nodes: seq<Node>, s: StreamId,
                                            n: nat)
    requires WellFormed(nodes) && Answers(session, backend) && n <= |nodes|
    ensures Means(session, backend, nodes, s, n,
      Execution.ExecList(session, Execution.EMPTY, TraceOf(backend, nodes, s, n)))
  {
    if n > 0 {
      StreamMeansTrace(session, backend, nodes, s, n - 1);
      var init := TraceOf(backend, nodes, s, n - 1);
      var st := Execution.ExecList(session, Execution.EMPTY, init).stream;
      if nodes[n - 1].stream == s {
        NodeMeansExpr(session, backend, nodes, n - 1, st);
        Execution.ListOneMore(session, Execution.EMPTY, init, ExprOf(backend, nodes, n - 1));
      } else {
        assert TraceOf(backend, nodes, s, n) == init;
        SkippedNode(backend, nodes, s, n - 1, st);
      }
    }
  }

  /** What node i submits, given what the variables hold in the end. */
  function ExprIn(store: Store, node: Node): Lang.Expr
  {
    match node.op
    case Constant(text) => Lang.Text(text)
    case Generate(name, ask) => Asking(name, ask)
    case Read(name, source) =>
      Lang.Text(if (source, name) in store.variables then store.variables[(source, name)] else "")
  }

  /** What nodes submit to stream s, given what the variables hold in the end. */
  function Submitted(store: Store, nodes: seq<Node>, s: StreamId): seq<Lang.Expr>
  {
    if nodes == [] then []
    else
      var last := nodes[|nodes| - 1];
      Submitted(store, nodes[..|nodes| - 1], s) + if last.stream == s then [ExprIn(store, last)] else []
  }

  lemma {:induction false} TraceIsSubmitted(backend: Backend, nodes: seq<Node>, s: StreamId, n: nat, sys: System)
    requires WellFormed(nodes) && n <= |nodes| && VariablesAre(backend, nodes, sys.ran, sys.store)
    requires forall i: nat {:trigger i in sys.ran} :: i < |nodes| ==> i in sys.ran
    ensures TraceOf(backend, nodes, s, n) == Submitted(sys.store, nodes[..n], s)
  {
    if n > 0 {
      TraceIsSubmitted(backend, nodes, s, n - 1, sys);
      assert nodes[..n][..n - 1] == nodes[..n - 1];
      ReadsWhatIsHeld(backend, nodes, n - 1, sys);
    }
  }

  lemma ReadsWhatIsHeld(backend: Backend, nodes: seq<Node>, i: nat, sys: System)
    requires WellFormed(nodes) && i < |nodes| && VariablesAre(backend, nodes, sys.ran, sys.store)
    requires forall i: nat {:trigger i in sys.ran} :: i < |nodes| ==> i in sys.ran
    ensures ExprOf(backend, nodes, i) == ExprIn(sys.store, nodes[i])
  {
    if nodes[i].op.Read? {
      var name, source := nodes[i].op.name, nodes[i].op.source;
      var j: nat :| j < i && Generates(nodes, j, source, name);
      assert j in sys.ran;
      assert LastGeneration(nodes, source, name, i) == Some(j);
    }
  }

  /** Compilation preserves meaning: in every finished run, each stream holds the text and the variables that its
      executor leaves when it executes what was submitted to that stream, one expression after the other. */
  lemma RunsMeanTraces(session: Lang.Session, backend: Backend, nodes: seq<Node>, trace: seq<System>, sys: System,
                       s: StreamId)
    requires WellFormed(nodes) && Answers(session, backend) && Reaches(backend, nodes, trace, sys)
    requires Finished(nodes, sys)
    ensures var o := Execution.ExecList(session, Execution.EMPTY, Submitted(sys.store, nodes, s));
      o.Done? && o.stream.text == TextOf(sys.store, s) && HoldsVariables(sys.store, s, o.stream)
  {
    ReachedIsConsistent(backend, nodes, trace, sys);
    StreamMeansTrace(session, backend, nodes, s, |nodes|);
    TraceIsSubmitted(backend, nodes, s, |nodes|, sys);
    assert nodes[..|nodes|] == nodes;
    AllRan(backend, nodes, s, sys.ran, |nodes|);
    assert TextOf(sys.store, s) == RanText(backend, nodes, s, sys.ran, |nodes|);
    HeldAreVariables(backend, nodes, s, sys,
      Execution.ExecList(session, Execution.EMPTY, TraceOf(backend, nodes, s, |nodes|)).stream);
  }

  /** The variables of stream s are those of its executor. */
  ghost predicate HoldsVariables(store: Store, s: StreamId, st: Execution.Stream)
  {
    && (forall x {:trigger (s, x) in store.variables} :: (s, x) in store.variables ==>
      Some(x) in st.variables && st.variables[Some(x)] == Execution.Str(store.variables[(s, x)]))
    && forall v {:trigger v in st.variables} :: v in st.variables ==> v.Some? && (s, v.value) in store.variables
  }

  lemma HeldAreVariables(backend: Backend, nodes: seq<Node>, s: StreamId, sys: System, st: Execution.Stream)
    requires VariablesAre(backend, nodes, sys.ran, sys.store) && Holds(backend, nodes, s, |nodes|, st)
    requires forall i: nat {:trigger i in sys.ran} :: i < |nodes| ==> i in sys.ran
    ensures HoldsVariables(sys.store, s, st)
  {
    forall x | (s, x) in sys.store.variables
      ensures Some(x) in st.variables && st.variables[Some(x)] == Execution.Str(sys.store.variables[(s, x)])
    {
      var j: nat :| Generates(nodes, j, s, x) && j in sys.ran;
    }
    forall v | v in st.variables ensures v.Some? && (s, v.value) in sys.store.variables {
      var j: nat :| Generates(nodes, j, s, v.value);
      assert j in sys.ran;
    }
  }

  /** Expression x as its stream executor gets it: its argument bound, and what it reads as the text that the stream of
      its source holds under that name in the end. */
  function Meant(job: Job, store: Store, x: Id): Lang.Expr
    requires job.Known(x)
  {
    var e := job.program.exprs[x];
    if e.variable.Some? then
      var v := (job.pids[job.program.Source(x).value], e.variable.value);
      Lang.Text(if v in store.variables then store.variables[v] else "")
    else
      match job.contents[x]
      case Literal(text) => Lang.Text(text)
      case Param(arg) => Tracing.Bind(Lang.Argument(arg), job.kwargs)
      case Answer(name, ask) => Asking(name, ask)
  }

  /** The expressions of the stream called pid, in the given order. */
  function StreamOf(job: Job, store: Store, order: seq<Id>, pid: string): seq<Lang.Expr>
    requires forall i {:trigger order[i]} :: 0 <= i < |order| ==> job.Known(order[i])
  {
    if order == [] then []
    else
      var x := order[|order| - 1];
      assert job.Known(x);
      StreamOf(job, store, order[..|order| - 1], pid) +
        if job.program.exprs[x].pid == pid then [Meant(job, store, x)] else []
  }

  lemma GivenIsMeant(job: Job, S: set<Id>, store: Store, y: Id, x: Id)
    requires job.Runnable(S) && x in S && y in S && job.Known(y)
    ensures ExprIn(store, job.NodeOf(y)) == Meant(job, store, y)
    ensures job.NodeOf(y).stream == job.pids[x] <==> job.program.exprs[y].pid == job.program.exprs[x].pid
  {
  }

  lemma {:induction false} SubmittedIsMeant(job: Job, S: set<Id>, store: Store, order: seq<Id>, x: Id)
    requires job.Runnable(S) && Elements(order) <= S && x in S
    requires forall i {:trigger order[i]} :: 0 <= i < |order| ==> job.Known(order[i])
    ensures Submitted(store, job.Submissions(order), job.pids[x])
      == StreamOf(job, store, order, job.program.exprs[x].pid)
  {
    if order != [] {
      var n := |order| - 1;
      var y := order[n];
      assert y in Elements(order) && Elements(order[..n]) <= Elements(order);
      SubmittedIsMeant(job, S, store, order[..n], x);
      assert job.Submissions(order)[..n] == job.Submissions(order[..n]);
      GivenIsMeant(job, S, store, y, x);
    }
  }

  /** A variable that x reads is held by the stream of its source. */
  predicate IsHeld(job: Job, store: Store, x: Id)
    requires job.Known(x)
  {
    var e := job.program.exprs[x];
    e.variable.Some? ==> (job.pids[job.program.Source(x).value], e.variable.value) in store.variables
  }

  predicate ReadingsAreHeld(job: Job, store: Store, order: seq<Id>)
    requires forall i {:trigger order[i]} :: 0 <= i < |order| ==> job.Known(order[i])
  {
    forall i {:trigger order[i]} :: 0 <= i < |order| ==> IsHeld(job, store, order[i])
  }

  lemma RanReadingsAreHeld(job: Job, S: set<Id>, order: seq<Id>, backend: Backend, trace: seq<System>, sys: System)
    requires Runs(job, S, order, backend, trace, sys) && Finished(job.Submissions(order), sys)
    ensures ReadingsAreHeld(job, sys.store, order)
  {
    var nodes := job.Submissions(order);
    SortedIsWellFormed(job, S, order);
    ReachedIsConsistent(backend, nodes, trace, sys);
    forall i | 0 <= i < |order| ensures IsHeld(job, sys.store, order[i]) {
      if job.program.exprs[order[i]].variable.Some? {
        var j := ReadsComeLater(job, S, order, i);
        assert j in sys.ran;
      }
    }
  }

  /** Compilation preserves the meaning of programs: in every run that cannot go on, each stream holds the text and the
      variables that one executor leaves when it executes the stream's traced expressions one after the other. */
  lemma CompiledRunsMeanTraces(session: Lang.Session, job: Job, S: set<Id>, order: seq<Id>, backend: Backend,
                               trace: seq<System>, sys: System, i: nat)
    requires Runs(job, S, order, backend, trace, sys) && Answers(session, backend) && i < |order|
    requires forall sys' :: !Step(backend, job.Submissions(order), sys, sys')
    ensures var exprs := StreamOf(job, sys.store, order, job.program.exprs[order[i]].pid);
      var o, s := Execution.ExecList(session, Execution.EMPTY, exprs), job.pids[order[i]];
      o.Done? && o.stream.text == TextOf(sys.store, s) && HoldsVariables(sys.store, s, o.stream)
    ensures ReadingsAreHeld(job, sys.store, order)
    ensures job.program.Streamed(Elements(order)) ==> job.program.AsTraced(order)
  {
    if job.program.Streamed(Elements(order)) { SortedAsTraced(job.program, order); }
    CompiledRunsAgree(job, S, order, backend, trace, sys);
    SortedIsWellFormed(job, S, order);
    RunsMeanTraces(session, backend, job.Submissions(order), trace, sys, job.pids[order[i]]);
    assert order[i] in Elements(order);
    SubmittedIsMeant(job, S, sys.store, order, order[i]);
    RanReadingsAreHeld(job, S, order, backend, trace, sys);
  }
}
