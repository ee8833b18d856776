/** Running a compiled program: one executor for each stream, which block on each other's variables. */
module CompiledRun {
  import opened Collections
  import opened Options
  import Lang

  type StreamId = nat

  /** What the backend is asked for. */
  datatype Ask = Complete(overrides: Lang.Overrides) | Choose(choices: seq<string>)

  /** A sorted node: constant text, an answer of the backend into a variable, or reading a variable of some stream. */
  datatype Op =
    | Constant(text: string)
    | Generate(name: string, ask: Ask)
    | Read(name: string, source: StreamId)

  datatype Node = Node(stream: StreamId, op: Op)

  /** The backend completes the text of the stream, or chooses what follows it. */
  type Backend = (string, Ask) -> string

  /** The node that generates the variable. */
  predicate Generates(nodes: seq<Node>, j: nat, stream: StreamId, name: string)
  {
    j < |nodes| && nodes[j].stream == stream && nodes[j].op.Generate? && nodes[j].op.name == name
  }

  /** Variables are generated before they are read, and each name once in a stream. */
  ghost predicate WellFormed(nodes: seq<Node>)
  {
    && (forall i {:trigger nodes[i]} :: 0 <= i < |nodes| && nodes[i].op.Read? ==>
         exists j: nat :: j < i && Generates(nodes, j, nodes[i].op.source, nodes[i].op.name))
    && forall j: nat, k: nat, s: StreamId, x: string {:trigger Generates(nodes, j, s, x), Generates(nodes, k, s, x)} ::
         Generates(nodes, j, s, x) && Generates(nodes, k, s, x) ==> j == k
  }

  // ----- running the nodes one by one -----

  /** Texts of the streams and values of their variables. */
  datatype Store = Store(texts: map<StreamId, string>, variables: map<(StreamId, string), string>)

  function TextOf(store: Store, s: StreamId): string
  {
    if s in store.texts then store.texts[s] else ""
  }

  function Write(store: Store, s: StreamId, text: string): Store
  {
    store.(texts := store.texts[s := TextOf(store, s) + text])
  }

  /** Executing a node; None while its executor has to wait for a variable. */
  function Execute(backend: Backend, store: Store, node: Node): Option<Store>
  {
    match node.op
    case Constant(text) => Some(Write(store, node.stream, text))
    case Generate(name, ask) =>
      var completion := backend(TextOf(store, node.stream), ask);
      Some(Write(store, node.stream, completion).(variables := store.variables[(node.stream, name) := completion]))
    case Read(name, source) =>
      if (source, name) in store.variables then Some(Write(store, node.stream, store.variables[(source, name)]))
      else None
  }

  const NOTHING: Store := Store(map[], map[])

  function RunInOrder(backend: Backend, nodes: seq<Node>, n: nat): Option<Store>
    requires n <= |nodes|
  {
    if n == 0 then Some(NOTHING)
    else
      var before := RunInOrder(backend, nodes, n - 1);
      if before.Some? then Execute(backend, before.value, nodes[n - 1]) else None
  }

  // ----- running them on executors -----

  /** The first submitted nodes are in the queues, those in ran have been executed. */
  datatype System = System(submitted: nat, ran: set<nat>, store: Store)

  const START: System := System(0, {}, NOTHING)

  /** Node i is at the head of its stream's queue. */
  predicate AtHead(nodes: seq<Node>, sys: System, i: nat)
  {
    && i < sys.submitted <= |nodes| && i !in sys.ran
    && forall j :: 0 <= j < i && nodes[j].stream == nodes[i].stream ==> j in sys.ran
  }

  predicate CanRun(backend: Backend, nodes: seq<Node>, sys: System, i: nat)
  {
    AtHead(nodes, sys, i) && Execute(backend, sys.store, nodes[i]).Some?
  }

  function Ran(backend: Backend, nodes: seq<Node>, sys: System, i: nat): System
    requires CanRun(backend, nodes, sys, i)
  {
    System(sys.submitted, sys.ran + {i}, Execute(backend, sys.store, nodes[i]).value)
  }

  /** The next node is submitted, or some executor runs the head of its queue. */
  ghost predicate Step(backend: Backend, nodes: seq<Node>, sys: System, sys': System)
  {
    || (sys.submitted < |nodes| && sys' == sys.(submitted := sys.submitted + 1))
    || exists i: nat :: CanRun(backend, nodes, sys, i) && sys' == Ran(backend, nodes, sys, i)
  }

  ghost predicate Reaches(backend: Backend, nodes: seq<Node>, trace: seq<System>, sys: System)
  {
    if trace == [] then sys == START
    else
      var last := trace[|trace| - 1];
      Reaches(backend, nodes, trace[..|trace| - 1], last) && Step(backend, nodes, last, sys)
  }

  predicate Finished(nodes: seq<Node>, sys: System)
  {
    sys.submitted == |nodes| && forall i :: 0 <= i < |nodes| ==> i in sys.ran
  }

  // ----- what every node contributes, whenever it runs -----

  /** The text that node i appends. */
  function Contribution(backend: Backend, nodes: seq<Node>, i: nat): string
    requires i < |nodes|
    decreases i, 1
  {
    match nodes[i].op
    case Constant(text) => text
    case Generate(_, ask) => backend(StreamText(backend, nodes, nodes[i].stream, i), ask)
    case Read(name, source) =>
      var j := LastGeneration(nodes, source, name, i);
      if j.Some? then Contribution(backend, nodes, j.value) else ""
  }

  /** The last node before i that generates the variable. */
  function LastGeneration(nodes: seq<Node>, s: StreamId, name: string, i: nat): (j: Option<nat>)
    requires i <= |nodes|
    ensures j.Some? ==> j.value < i && Generates(nodes, j.value, s, name)
    ensures j.None? ==> forall k: nat :: k < i ==> !Generates(nodes, k, s, name)
  {
    if i == 0 then None
    else if Generates(nodes, i - 1, s, name) then Some(i - 1)
    else LastGeneration(nodes, s, name, i - 1)
  }

  /** What the first n nodes append to stream s. */
  function StreamText(backend: Backend, nodes: seq<Node>, s: StreamId, n: nat): string
    requires n <= |nodes|
    decreases n, 0
  {
    if n == 0 then ""
    else
      StreamText(backend, nodes, s, n - 1) +
        (if nodes[n - 1].stream == s then Contribution(backend, nodes, n - 1) else "")
  }

  /** What those of the first n nodes that ran append to stream s. */
  function RanText(backend: Backend, nodes: seq<Node>, s: StreamId, ran: set<nat>, n: nat): string
    requires n <= |nodes|
  {
    if n == 0 then ""
    else RanText(backend, nodes, s, ran, n - 1) +
         (if nodes[n - 1].stream == s && n - 1 in ran then Contribution(backend, nodes, n - 1) else "")
  }

  /** Every variable that a node in ran generates has that node's contribution as its value; there are no others. */
  ghost predicate VariablesAre(backend: Backend, nodes: seq<Node>, ran: set<nat>, store: Store)
  {
    && (forall j: nat, s: StreamId, x: string {:trigger Generates(nodes, j, s, x)} ::
      Generates(nodes, j, s, x) && j in ran ==>
         (s, x) in store.variables && store.variables[(s, x)] == Contribution(backend, nodes, j))
    && forall v {:trigger v in store.variables} :: v in store.variables ==>
         exists j: nat :: Generates(nodes, j, v.0, v.1) && j in ran
  }

  /** The store is determined by which nodes ran. */
  ghost predicate Consistent(backend: Backend, nodes: seq<Node>, ran: set<nat>, store: Store)
  {
    && (forall i {:trigger i in ran} :: i in ran ==> i < |nodes|)
    && (forall i: nat, j: nat :: i in ran && j < i && nodes[j].stream == nodes[i].stream ==> j in ran)
    && (forall s {:trigger TextOf(store, s)} :: TextOf(store, s) == RanText(backend, nodes, s, ran, |nodes|))
    && VariablesAre(backend, nodes, ran, store)
  }

  /** The head of a queue finds exactly what comes before it in its stream. */
  lemma {:induction false} RanIsPrefix(backend: Backend, nodes: seq<Node>, ran: set<nat>, i: nat, n: nat)
    requires i < |nodes| && n <= |nodes| && i !in ran
    requires forall j: nat :: j < i && nodes[j].stream == nodes[i].stream ==> j in ran
    requires forall j: nat, k: nat ::
      j in ran && j < |nodes| && k < j && nodes[k].stream == nodes[j].stream ==> k in ran
    ensures RanText(backend, nodes, nodes[i].stream, ran, n)
      == StreamText(backend, nodes, nodes[i].stream, if n < i then n else i)
  {
    if n > 0 {
      RanIsPrefix(backend, nodes, ran, i, n - 1);
      assert i < n - 1 && nodes[n - 1].stream == nodes[i].stream ==> n - 1 !in ran;
    }
  }

  lemma {:induction false} RanGrows(backend: Backend, nodes: seq<Node>, ran: set<nat>, i: nat, s: StreamId, n: nat)
    requires i < |nodes| && n <= |nodes| && i !in ran
    requires forall j: nat, k: nat ::
      j in ran && j < |nodes| && k < j && nodes[k].stream == nodes[j].stream ==> k in ran
    ensures RanText(backend, nodes, s, ran + {i}, n) ==
      RanText(backend, nodes, s, ran, n) + if i < n && nodes[i].stream == s then Contribution(backend, nodes, i) else ""
  {
    if n > 0 {
      RanGrows(backend, nodes, ran, i, s, n - 1);
      assert i < n - 1 && nodes[n - 1].stream == nodes[i].stream ==> n - 1 !in ran;
    }
  }

  /** What a node writes when it runs is its contribution. */
  lemma WritesContribution(backend: Backend, nodes: seq<Node>, ran: set<nat>, store: Store, i: nat)
    requires WellFormed(nodes) && Consistent(backend, nodes, ran, store) && i < |nodes| && i !in ran
    requires forall j: nat :: j < i && nodes[j].stream == nodes[i].stream ==> j in ran
    requires Execute(backend, store, nodes[i]).Some?
    ensures var store' := Execute(backend, store, nodes[i]).value;
      && store'.texts == Write(store, nodes[i].stream, Contribution(backend, nodes, i)).texts
      && store'.variables == if nodes[i].op.Generate?
         then store.variables[(nodes[i].stream, nodes[i].op.name) := Contribution(backend, nodes, i)]
         else store.variables
  {
    match nodes[i].op
    case Constant(_) =>
    case Generate(_, _) => RanIsPrefix(backend, nodes, ran, i, |nodes|);
    case Read(name, source) =>
      assert (source, name) in store.variables;
      var j: nat :| Generates(nodes, j, source, name) && j in ran;
      var k: nat :| k < i && Generates(nodes, k, source, name);
      assert j == k;
      assert LastGeneration(nodes, source, name, i) == Some(j);
  }

  /** Executing the head of a queue keeps the store determined by what ran. */
  lemma ExecuteKeeps(backend: Backend, nodes: seq<Node>, ran: set<nat>, store: Store, i: nat)
    requires WellFormed(nodes) && Consistent(backend, nodes, ran, store) && i < |nodes| && i !in ran
    requires forall j: nat :: j < i && nodes[j].stream == nodes[i].stream ==> j in ran
    requires Execute(backend, store, nodes[i]).Some?
    ensures Consistent(backend, nodes, ran + {i}, Execute(backend, store, nodes[i]).value)
  {
    WritesContribution(backend, nodes, ran, store, i);
    var store' := Execute(backend, store, nodes[i]).value;
    forall s ensures TextOf(store', s) == RanText(backend, nodes, s, ran + {i}, |nodes|) {
      RanGrows(backend, nodes, ran, i, s, |nodes|);
      assert TextOf(store, s) == RanText(backend, nodes, s, ran, |nodes|);
    }
    VariablesKept(backend, nodes, ran, store, store', i);
  }

  lemma VariablesKept(backend: Backend, nodes: seq<Node>, ran: set<nat>, store: Store, store': Store, i: nat)
    requires WellFormed(nodes) && VariablesAre(backend, nodes, ran, store) && i < |nodes|
    requires store'.variables == if nodes[i].op.Generate?
      then store.variables[(nodes[i].stream, nodes[i].op.name) := Contribution(backend, nodes, i)] else store.variables
    ensures VariablesAre(backend, nodes, ran + {i}, store')
  {
    forall j: nat, s: StreamId, x: string | Generates(nodes, j, s, x) && j in ran + {i}
      ensures (s, x) in store'.variables && store'.variables[(s, x)] == Contribution(backend, nodes, j)
    {
      if nodes[i].op.Generate? && s == nodes[i].stream && x == nodes[i].op.name {
        assert Generates(nodes, i, s, x);
        assert i == j;
      }
    }
    forall v | v in store'.variables ensures exists j: nat :: Generates(nodes, j, v.0, v.1) && j in ran + {i} {
      if v in store.variables {
        var j: nat :| Generates(nodes, j, v.0, v.1) && j in ran;
        assert j in ran + {i};
      } else {
        assert Generates(nodes, i, v.0, v.1) && i in ran + {i};
      }
    }
  }

  lemma {:induction false} NothingRan(backend: Backend, nodes: seq<Node>, s: StreamId, n: nat)
    requires n <= |nodes|
    ensures RanText(backend, nodes, s, {}, n) == ""
  {
    if n > 0 { NothingRan(backend, nodes, s, n - 1); }
  }

  lemma StartsConsistent(backend: Backend, nodes: seq<Node>)
    ensures Consistent(backend, nodes, {}, NOTHING)
  {
    forall s ensures TextOf(NOTHING, s) == RanText(backend, nodes, s, {}, |nodes|) {
      NothingRan(backend, nodes, s, |nodes|);
    }
  }

  /** Whatever the interleaving, the store is determined by which nodes ran. */
  lemma {:induction false} ReachedIsConsistent(backend: Backend, nodes: seq<Node>, trace: seq<System>, sys: System)
    requires WellFormed(nodes) && Reaches(backend, nodes, trace, sys)
    ensures Consistent(backend, nodes, sys.ran, sys.store) && sys.submitted <= |nodes|
    ensures forall i {:trigger i in sys.ran} :: i in sys.ran ==> i < sys.submitted
  {
    if trace == [] {
      StartsConsistent(backend, nodes);
    } else {
      var last := trace[|trace| - 1];
      ReachedIsConsistent(backend, nodes, trace[..|trace| - 1], last);
      if i: nat :| CanRun(backend, nodes, last, i) && sys == Ran(backend, nodes, last, i) {
        ExecuteKeeps(backend, nodes, last.ran, last.store, i);
      }
    }
  }

  /** Whenever a queue is not empty, the head of some queue can run. */
  lemma NoDeadlock(backend: Backend, nodes: seq<Node>, trace: seq<System>, sys: System, waiting: nat) returns (i: nat)
    requires WellFormed(nodes) && Reaches(backend, nodes, trace, sys)
    requires waiting < sys.submitted && waiting !in sys.ran
    ensures CanRun(backend, nodes, sys, i)
  {
    ReachedIsConsistent(backend, nodes, trace, sys);
    i := 0;
    while i in sys.ran
      invariant i <= waiting && forall j: nat :: j < i ==> j in sys.ran
      decreases waiting - i
    {
      i := i + 1;
    }
    NotHeldUp(backend, nodes, sys.ran, sys.store, i);
  }

  /** Once everything before a node has run, the node can. */
  lemma NotHeldUp(backend: Backend, nodes: seq<Node>, ran: set<nat>, store: Store, i: nat)
    requires WellFormed(nodes) && VariablesAre(backend, nodes, ran, store)
    requires i < |nodes| && forall j: nat :: j < i ==> j in ran
    ensures Execute(backend, store, nodes[i]).Some?
  {
    if nodes[i].op.Read? {
      var j: nat :| j < i && Generates(nodes, j, nodes[i].op.source, nodes[i].op.name);
      assert j in ran;
      assert (nodes[i].op.source, nodes[i].op.name) in store.variables;
    }
  }

  /** An executor only ever waits for a variable whose generation has been submitted. */
  lemma WaitsForSubmitted(backend: Backend, nodes: seq<Node>, trace: seq<System>, sys: System, i: nat) returns (j: nat)
    requires WellFormed(nodes) && Reaches(backend, nodes, trace, sys) && AtHead(nodes, sys, i) && nodes[i].op.Read?
    ensures j < sys.submitted && Generates(nodes, j, nodes[i].op.source, nodes[i].op.name)
    ensures Execute(backend, sys.store, nodes[i]).None? ==> j !in sys.ran
  {
    ReachedIsConsistent(backend, nodes, trace, sys);
    var k: nat :| k < i && Generates(nodes, k, nodes[i].op.source, nodes[i].op.name);
    j := k;
  }

  /** The indices below n. */
  function Below(n: nat): (r: set<nat>)
    ensures forall i: nat {:trigger i in r} :: i in r <==> i < n
  {
    if n == 0 then {} else Below(n - 1) + {n - 1}
  }

  ghost function Progress(sys: System): nat
  {
    sys.submitted + |sys.ran|
  }

  /** Every step makes progress, and there is only so much to make: runs end. */
  lemma RunsEnd(backend: Backend, nodes: seq<Node>, trace: seq<System>, sys: System)
    requires WellFormed(nodes) && Reaches(backend, nodes, trace, sys)
    ensures Progress(sys) == |trace| <= 2 * |nodes|
  {
    StepsCount(backend, nodes, trace, sys);
    ReachedIsConsistent(backend, nodes, trace, sys);
    assert sys.ran <= Below(|nodes|);
    BelowSize(|nodes|);
    SubsetSize(sys.ran, Below(|nodes|));
  }

  lemma {:induction false} StepsCount(backend: Backend, nodes: seq<Node>, trace: seq<System>, sys: System)
    requires Reaches(backend, nodes, trace, sys)
    ensures Progress(sys) == |trace|
  {
    if trace != [] {
      StepsCount(backend, nodes, trace[..|trace| - 1], trace[|trace| - 1]);
    }
  }

  lemma {:induction false} BelowSize(n: nat)
    ensures |Below(n)| == n
  {
    if n > 0 { BelowSize(n - 1); }
  }

  lemma {:induction false} AllRan(backend: Backend, nodes: seq<Node>, s: StreamId, ran: set<nat>, n: nat)
    requires n <= |nodes| && forall i: nat :: i < n ==> i in ran
    ensures RanText(backend, nodes, s, ran, n) == StreamText(backend, nodes, s, n)
  {
    if n > 0 { AllRan(backend, nodes, s, ran, n - 1); }
  }

  /** Running the nodes one by one is never held up, and as determined as any interleaving. */
  lemma {:induction false} InOrderIsConsistent(backend: Backend, nodes: seq<Node>, n: nat)
    requires WellFormed(nodes) && n <= |nodes|
    ensures RunInOrder(backend, nodes, n).Some?
    ensures Consistent(backend, nodes, Below(n), RunInOrder(backend, nodes, n).value)
  {
    if n == 0 {
      StartsConsistent(backend, nodes);
    } else {
      InOrderIsConsistent(backend, nodes, n - 1);
      var before, ran := RunInOrder(backend, nodes, n - 1).value, Below(n - 1);
      NotHeldUp(backend, nodes, ran, before, n - 1);
      ExecuteKeeps(backend, nodes, ran, before, n - 1);
    }
  }

  /** Two stores determined by the same nodes agree on all texts and variables. */
  lemma Determined(backend: Backend, nodes: seq<Node>, ran: set<nat>, a: Store, b: Store)
    requires Consistent(backend, nodes, ran, a) && Consistent(backend, nodes, ran, b)
    ensures forall s :: TextOf(a, s) == TextOf(b, s)
    ensures a.variables == b.variables
  {
    forall v ensures v in a.variables ==> v in b.variables && a.variables[v] == b.variables[v] {
      if v in a.variables {
        var j: nat :| Generates(nodes, j, v.0, v.1) && j in ran;
      }
    }
    forall v ensures v in b.variables ==> v in a.variables {
      if v in b.variables {
        var j: nat :| Generates(nodes, j, v.0, v.1) && j in ran;
      }
    }
  }

  /** Confluence: however the executors interleave, a finished run ends as running the sorted nodes one by one. */
  lemma RunsAgree(backend: Backend, nodes: seq<Node>, trace: seq<System>, sys: System)
    requires WellFormed(nodes) && Reaches(backend, nodes, trace, sys) && Finished(nodes, sys)
    ensures var inOrder := RunInOrder(backend, nodes, |nodes|);
      && inOrder.Some?
      && (forall s :: TextOf(sys.store, s) == TextOf(inOrder.value, s))
      && sys.store.variables == inOrder.value.variables
  {
    ReachedIsConsistent(backend, nodes, trace, sys);
    InOrderIsConsistent(backend, nodes, |nodes|);
    assert sys.ran == Below(|nodes|);
    Determined(backend, nodes, sys.ran, sys.store, RunInOrder(backend, nodes, |nodes|).value);
  }

  /** A run that cannot go on has finished. */
  lemma StuckIsFinished(backend: Backend, nodes: seq<Node>, trace: seq<System>, sys: System)
    requires WellFormed(nodes) && Reaches(backend, nodes, trace, sys) && forall sys' :: !Step(backend, nodes, sys, sys')
    ensures Finished(nodes, sys)
  {
    ReachedIsConsistent(backend, nodes, trace, sys);
    if sys.submitted < |nodes| {
      assert Step(backend, nodes, sys, sys.(submitted := sys.submitted + 1));
    }
    forall w: nat | w < |nodes| ensures w in sys.ran {
      if w !in sys.ran {
        var i := NoDeadlock(backend, nodes, trace, sys, w);
        assert Step(backend, nodes, sys, Ran(backend, nodes, sys, i));
      }
    }
  }
}
