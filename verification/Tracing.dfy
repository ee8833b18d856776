/** Extracting the constant prefix of a program by tracing it, against running it. */
module Tracing {
  import opened Options
  import opened Prefixes
  import opened Lang
  import opened Execution

  /** A statement of a program: s += e, a call that goes to the stream executor directly, or s += s[name]. */
  datatype Stmt = Append(e: Expr) | Submit(e: Expr) | Recall(name: string)

  datatype Program = Program(body: seq<Stmt>, argNames: set<string>, bound: map<string, string>)

  datatype Trace = Trace(nodes: seq<Expr>, variables: set<string>, messages: seq<Message>, curRole: Option<string>)

  /** Going on, ended by an exception that extraction catches, or ended by one that it does not. */
  datatype Tracked = Going(trace: Trace) | Stopped(trace: Trace) | Crashed

  const NOTHING: Trace := Trace([], {}, [], None)

  // ----- arguments -----

  /** Known arguments are the strings they stand for. */
  function Bind(e: Expr, args: map<string, string>): Expr
    decreases e
  {
    match e
    case Argument(a) => if a in args then Text(args[a]) else e
    case Exprs(list) => Exprs(BindAll(list, args))
    case _ => e
  }

  function BindAll(list: seq<Expr>, args: map<string, string>): (bound: seq<Expr>)
    ensures |bound| == |list|
    decreases list
  {
    if list == [] then [] else BindAll(list[..|list| - 1], args) + [Bind(list[|list| - 1], args)]
  }

  // ----- running -----

  function RunStmt(session: Session, s: Stream, stmt: Stmt, args: map<string, string>): Outcome
  {
    match stmt
    case Append(e) => Exec(session, s, Bind(e, args))
    case Submit(e) => Exec(session, s, Bind(e, args))
    case Recall(name) =>
      if Some(name) in s.variables && s.variables[Some(name)].Str? then
        Exec(session, s, Text(s.variables[Some(name)].str))
      else Raised(s)
  }

  function RunBody(session: Session, body: seq<Stmt>, args: map<string, string>): Outcome
  {
    if body == [] then Done(EMPTY)
    else
      var o := RunBody(session, body[..|body| - 1], args);
      if o.Done? then RunStmt(session, o.stream, body[|body| - 1], args) else o
  }

  /** The text that running the program writes. */
  function RunText(session: Session, program: Program, args: map<string, string>): string
  {
    RunBody(session, program.body, args + program.bound).stream.text
  }

  // ----- tracing -----

  function Digits(n: nat): string
  {
    if n < 10 then ["0123456789"[n]] else Digits(n / 10) + ["0123456789"[n % 10]]
  }

  /** Generations and choices without a name are numbered. */
  function NameOf(name: Option<string>, kind: string, t: Trace): string
  {
    if name.Some? then name.value else kind + Digits(|t.variables|)
  }

  function AddNode(t: Trace, e: Expr): Trace
  {
    t.(nodes := t.nodes + [e])
  }

  function EnterTrace(template: ChatTemplate, t: Trace, role: string): Trace
  {
    AddNode(t.(curRole := Some(role)), Text(template.PrefixAndSuffix(role, t.messages).0))
  }

  function LeaveTrace(template: ChatTemplate, t: Trace, role: string): Trace
  {
    var t1 := AddNode(t, Text(template.PrefixAndSuffix(role, t.messages).1));
    t1.(messages := t.messages + [Message(role, "")], curRole := None)
  }

  function WithDefaultTrace(template: ChatTemplate, t: Trace, role: string): Trace
  {
    if WantsDefault(template, t.messages, role) then
      LeaveTrace(template, AddNode(EnterTrace(template, t, "system"), Text(template.defaultSystem)), "system")
    else t
  }

  function Track(template: ChatTemplate, t: Trace, e: Expr): Tracked
    decreases e
  {
    match e
    case Text(_) => Going(AddNode(t, e))
    case Gen(name, _) => Going(AddNode(t, e).(variables := t.variables + {NameOf(name, "gen_", t)}))
    case Select(name, _) => Going(AddNode(t, e).(variables := t.variables + {NameOf(name, "select_", t)}))
    case Exprs(list) => TrackList(template, t, list)
    case RoleBegin(role) =>
      if t.curRole.Some? then Crashed
      else Going(EnterTrace(template, WithDefaultTrace(template, t, role), role))
    case RoleEnd(role) => Going(LeaveTrace(template, t, role))
    case ScopeBegin(_) => Stopped(t)
    case ScopeEnd(_) => Crashed
    case Argument(_) => Stopped(t)
  }

  function TrackList(template: ChatTemplate, t: Trace, list: seq<Expr>): Tracked
    decreases list
  {
    if list == [] then Going(t)
    else
      var r := TrackList(template, t, list[..|list| - 1]);
      if r.Going? then Track(template, r.trace, list[|list| - 1]) else r
  }

  function TrackStmt(template: ChatTemplate, t: Trace, stmt: Stmt, program: Program): Tracked
  {
    match stmt
    case Append(e) => Track(template, t, Bind(e, program.bound))
    case Submit(_) => Stopped(t)
    case Recall(name) =>
      if name in program.bound then Track(template, t, Text(program.bound[name]))
      else if name in program.argNames || name in t.variables then Stopped(t)
      else Crashed
  }

  function TrackBody(template: ChatTemplate, body: seq<Stmt>, program: Program): Tracked
  {
    if body == [] then Going(NOTHING)
    else
      var r := TrackBody(template, body[..|body| - 1], program);
      if r.Going? then TrackStmt(template, r.trace, body[|body| - 1], program) else r
  }

  /** The constant text that the nodes start with. */
  function Lead(nodes: seq<Expr>): string
  {
    if nodes != [] && nodes[0].Text? then nodes[0].value + Lead(nodes[1..]) else ""
  }

  /** None stands for an exception that extraction lets through. */
  function Extract(template: ChatTemplate, program: Program): Option<string>
  {
    match TrackBody(template, program.body, program)
    case Crashed => None
    case Going(t) => Some(Lead(t.nodes))
    case Stopped(t) => Some(Lead(t.nodes))
  }

  // ----- the constant prefix of a sequence of nodes -----

  predicate AllText(nodes: seq<Expr>)
  {
    forall i :: 0 <= i < |nodes| ==> nodes[i].Text?
  }

  lemma {:induction false} LeadOfAppend(nodes: seq<Expr>, more: seq<Expr>)
    ensures Lead(nodes + more) == if AllText(nodes) then Lead(nodes) + Lead(more) else Lead(nodes)
  {
    if nodes == [] {
      assert nodes + more == more;
    } else {
      assert (nodes + more)[1..] == nodes[1..] + more;
      LeadOfAppend(nodes[1..], more);
      AllTextHead(nodes);
    }
  }

  lemma AllTextHead(nodes: seq<Expr>)
    requires nodes != []
    ensures AllText(nodes) <==> nodes[0].Text? && AllText(nodes[1..])
  {
    assert forall i :: 1 <= i < |nodes| ==> nodes[i] == nodes[1..][i - 1];
  }

  lemma LeadOfText(nodes: seq<Expr>, value: string)
    requires AllText(nodes)
    ensures AllText(nodes + [Text(value)]) && Lead(nodes + [Text(value)]) == Lead(nodes) + value
  {
    LeadOfAppend(nodes, [Text(value)]);
    assert Lead([Text(value)]) == value;
  }

  // ----- tracing against running -----

  /** While only constant text was met, tracing has collected what running has written. */
  predicate Agree(t: Trace, s: Stream)
  {
    && AllText(t.nodes) && Lead(t.nodes) == s.text && t.curRole == s.curRole && |t.messages| == |s.messages|
    && s.variables == map[]
  }

  predicate Related(t: Trace, s: Stream)
  {
    Lead(t.nodes) <= s.text && (AllText(t.nodes) ==> Agree(t, s))
  }

  predicate After(r: Tracked, o: Outcome)
  {
    match r
    case Going(t) => Related(t, o.stream) && (AllText(t.nodes) ==> o.Done?)
    case Stopped(t) => Lead(t.nodes) <= o.stream.text
    case Crashed => true
  }

  lemma FillAgrees(t: Trace, s: Stream, value: string)
    requires Agree(t, s)
    ensures Agree(AddNode(t, Text(value)), Fill(s, value))
  {
    LeadOfText(t.nodes, value);
  }

  lemma EnterAgrees(template: ChatTemplate, t: Trace, s: Stream, role: string)
    requires Agree(t, s)
    ensures Agree(EnterTrace(template, t, role), Enter(template, s, role))
  {
    template.AffixesByLength(role, t.messages, s.messages);
    FillAgrees(t.(curRole := Some(role)), s.(curRole := Some(role)), template.PrefixAndSuffix(role, t.messages).0);
  }

  lemma LeaveAgrees(template: ChatTemplate, t: Trace, s: Stream, role: string)
    requires Agree(t, s)
    ensures Agree(LeaveTrace(template, t, role), Leave(template, s, role))
  {
    template.AffixesByLength(role, t.messages, s.messages);
    FillAgrees(t.(curRole := None), s.(curRole := None), template.PrefixAndSuffix(role, t.messages).1);
  }

  lemma OpenAgrees(template: ChatTemplate, t: Trace, s: Stream, role: string)
    requires Agree(t, s)
    ensures Agree(EnterTrace(template, WithDefaultTrace(template, t, role), role),
      Enter(template, WithDefault(template, s, role), role))
  {
    if WantsDefault(template, t.messages, role) {
      EnterAgrees(template, t, s, "system");
      FillAgrees(EnterTrace(template, t, "system"), Enter(template, s, "system"), template.defaultSystem);
      LeaveAgrees(template, AddNode(EnterTrace(template, t, "system"), Text(template.defaultSystem)),
        Fill(Enter(template, s, "system"), template.defaultSystem), "system");
    }
    EnterAgrees(template, WithDefaultTrace(template, t, role), WithDefault(template, s, role), role);
  }

  /** Tracing only adds nodes. */
  lemma {:induction false} TrackGrows(template: ChatTemplate, t: Trace, e: Expr)
    ensures !Track(template, t, e).Crashed? ==> t.nodes <= Track(template, t, e).trace.nodes
    decreases e
  {
    if e.Exprs? { TrackListGrows(template, t, e.list); }
  }

  lemma {:induction false} TrackListGrows(template: ChatTemplate, t: Trace, list: seq<Expr>)
    ensures !TrackList(template, t, list).Crashed? ==> t.nodes <= TrackList(template, t, list).trace.nodes
    decreases list
  {
    if list != [] {
      var n := |list| - 1;
      TrackListGrows(template, t, list[..n]);
      var r := TrackList(template, t, list[..n]);
      if r.Going? { TrackGrows(template, r.trace, list[n]); }
    }
  }

  /** After the first node that is not constant text the prefix is fixed, and text keeps growing. */
  lemma PastTheLead(t: Trace, s: Stream, r: Tracked, o: Outcome)
    requires Lead(t.nodes) <= s.text && !AllText(t.nodes) && s.text <= o.stream.text
    requires !r.Crashed? ==> t.nodes <= r.trace.nodes
    ensures After(r, o)
  {
    if !r.Crashed? {
      assert r.trace.nodes == t.nodes + r.trace.nodes[|t.nodes|..];
      LeadOfAppend(t.nodes, r.trace.nodes[|t.nodes|..]);
    }
  }

  lemma DynamicNode(t: Trace, s: Stream, r: Tracked, o: Outcome, e: Expr)
    requires Agree(t, s) && !e.Text? && r.Going? && r.trace.nodes == t.nodes + [e] && s.text <= o.stream.text
    ensures After(r, o)
  {
    LeadOfAppend(t.nodes, [e]);
    assert r.trace.nodes[|t.nodes|] == e;
  }

  /** One expression, traced with some arguments and run with more of them. */
  lemma {:induction false} ExecCovered(session: Session, t: Trace, s: Stream, e: Expr, bound: map<string, string>,
                                       args: map<string, string>)
    requires Related(t, s) && forall a :: a in bound ==> a in args && args[a] == bound[a]
    ensures After(Track(session.template, t, Bind(e, bound)), Exec(session, s, Bind(e, args)))
    decreases e, 0
  {
    var r, o := Track(session.template, t, Bind(e, bound)), Exec(session, s, Bind(e, args));
    TextGrows(session, s, Bind(e, args));
    TrackGrows(session.template, t, Bind(e, bound));
    if !AllText(t.nodes) {
      PastTheLead(t, s, r, o);
    } else {
      match e
      case Text(value) => FillAgrees(t, s, value);
      case Gen(_, _) => DynamicNode(t, s, r, o, e);
      case Select(_, _) => DynamicNode(t, s, r, o, e);
      case Exprs(list) => ListCovered(session, t, s, list, bound, args);
      case RoleBegin(role) => if t.curRole.None? { OpenAgrees(session.template, t, s, role); }
      case RoleEnd(role) => LeaveAgrees(session.template, t, s, role);
      case Argument(a) => if a in bound { FillAgrees(t, s, bound[a]); }
      case _ =>
    }
  }

  lemma {:induction false} ListCovered(session: Session, t: Trace, s: Stream, list: seq<Expr>, bound: map<string,
                                       string>, args: map<string, string>)
    requires Related(t, s) && AllText(t.nodes) && forall a :: a in bound ==> a in args && args[a] == bound[a]
    ensures After(TrackList(session.template, t, BindAll(list, bound)), ExecList(session, s, BindAll(list, args)))
    decreases list
  {
    if list != [] {
      var n := |list| - 1;
      ListCovered(session, t, s, list[..n], bound, args);
      var L, L' := BindAll(list, bound), BindAll(list, args);
      assert L[..n] == BindAll(list[..n], bound) && L'[..n] == BindAll(list[..n], args);
      var r, o := TrackList(session.template, t, L[..n]), ExecList(session, s, L'[..n]);
      Continued(session, r, o, list[n], bound, args);
    }
  }

  /** One more expression after r and o. */
  lemma Continued(session: Session, r: Tracked, o: Outcome, e: Expr, bound: map<string, string>, args: map<string,
                  string>)
    requires After(r, o) && forall a :: a in bound ==> a in args && args[a] == bound[a]
    ensures After(if r.Going? then Track(session.template, r.trace, Bind(e, bound)) else r,
                  if o.Done? then Exec(session, o.stream, Bind(e, args)) else o)
    decreases e, 1
  {
    if o.Done? {
      TextGrows(session, o.stream, Bind(e, args));
      if r.Going? { ExecCovered(session, r.trace, o.stream, e, bound, args); }
    } else if r.Going? {
      TrackGrows(session.template, r.trace, Bind(e, bound));
      PastTheLead(r.trace, o.stream, Track(session.template, r.trace, Bind(e, bound)), o);
    }
  }

  // ----- whole programs -----

  /** How far tracing and running get with the first n statements. */
  function TracedTo(template: ChatTemplate, program: Program, n: nat): Tracked
    requires n <= |program.body|
  {
    TrackBody(template, program.body[..n], program)
  }

  function RunTo(session: Session, program: Program, args: map<string, string>, n: nat): Outcome
    requires n <= |program.body|
  {
    RunBody(session, program.body[..n], args + program.bound)
  }

  /** Tracing has only met constant text in the first n statements. */
  predicate ConstantTo(template: ChatTemplate, program: Program, n: nat)
    requires n <= |program.body|
  {
    var r := TracedTo(template, program, n);
    r.Going? && AllText(r.trace.nodes)
  }

  /** Statement n reads a bound argument as if it were a variable, and tracing gets there with constant text only. */
  predicate BoundRecallAt(template: ChatTemplate, program: Program, n: nat)
  {
    && n < |program.body| && program.body[n].Recall? && program.body[n].name in program.bound
    && ConstantTo(template, program, n)
  }

  lemma OneMore(session: Session, program: Program, args: map<string, string>, n: nat)
    requires n < |program.body|
    ensures TracedTo(session.template, program, n + 1) == (var r := TracedTo(session.template, program, n);
      if r.Going? then TrackStmt(session.template, r.trace, program.body[n], program) else r)
    ensures RunTo(session, program, args, n + 1) == (var o := RunTo(session, program, args, n);
      if o.Done? then RunStmt(session, o.stream, program.body[n], args + program.bound) else o)
  {
    assert program.body[..n + 1][..n] == program.body[..n];
  }

  lemma AllOfIt(session: Session, program: Program, args: map<string, string>)
    ensures TracedTo(session.template, program, |program.body|) == TrackBody(session.template, program.body, program)
    ensures RunTo(session, program, args, |program.body|).stream.text == RunText(session, program, args)
  {
    assert program.body[..|program.body|] == program.body;
  }

  lemma StmtGrows(session: Session, s: Stream, stmt: Stmt, args: map<string, string>)
    ensures s.text <= RunStmt(session, s, stmt, args).stream.text
  {
    if !stmt.Recall? { TextGrows(session, s, Bind(stmt.e, args)); }
  }

  lemma TrackStmtGrows(template: ChatTemplate, t: Trace, stmt: Stmt, program: Program)
    ensures !TrackStmt(template, t, stmt, program).Crashed? ==>
      t.nodes <= TrackStmt(template, t, stmt, program).trace.nodes
  {
    match stmt
    case Append(e) => TrackGrows(template, t, Bind(e, program.bound));
    case _ =>
  }

  lemma StmtCovered(session: Session, t: Trace, s: Stream, stmt: Stmt, program: Program, args: map<string, string>)
    requires Related(t, s) && !(stmt.Recall? && stmt.name in program.bound && AllText(t.nodes))
    ensures After(TrackStmt(session.template, t, stmt, program), RunStmt(session, s, stmt, args + program.bound))
  {
    var r, o := TrackStmt(session.template, t, stmt, program), RunStmt(session, s, stmt, args + program.bound);
    StmtGrows(session, s, stmt, args + program.bound);
    TrackStmtGrows(session.template, t, stmt, program);
    if !AllText(t.nodes) {
      PastTheLead(t, s, r, o);
    } else if stmt.Append? {
      ExecCovered(session, t, s, stmt.e, program.bound, args + program.bound);
    }
  }

  /** Up to the first such reading, running keeps up with tracing. */
  lemma {:induction false} BodyCovered(session: Session, program: Program, args: map<string, string>, n: nat)
    requires n <= |program.body| && forall i :: 0 <= i < n ==> !BoundRecallAt(session.template, program, i)
    ensures After(TracedTo(session.template, program, n), RunTo(session, program, args, n))
  {
    if n > 0 {
      var m := n - 1;
      BodyCovered(session, program, args, m);
      OneMore(session, program, args, m);
      var r, o := TracedTo(session.template, program, m), RunTo(session, program, args, m);
      if o.Done? {
        StmtGrows(session, o.stream, program.body[m], args + program.bound);
        if r.Going? {
          assert !BoundRecallAt(session.template, program, m);
          StmtCovered(session, r.trace, o.stream, program.body[m], program, args);
        }
      } else if r.Going? {
        TrackStmtGrows(session.template, r.trace, program.body[m], program);
        PastTheLead(r.trace, o.stream, TracedTo(session.template, program, n), o);
      }
    }
  }

  lemma {:induction false} RunExtends(session: Session, program: Program, args: map<string, string>, n: nat, m: nat)
    requires n <= m <= |program.body|
    ensures RunTo(session, program, args, n).stream.text <= RunTo(session, program, args, m).stream.text
    ensures RunTo(session, program, args, n).Raised? ==>
      RunTo(session, program, args, m) == RunTo(session, program, args, n)
    decreases m
  {
    if n < m {
      RunExtends(session, program, args, n, m - 1);
      RunOneMore(session, program, args, m - 1);
      PrefixOfLonger(RunTo(session, program, args, n).stream.text, RunTo(session, program, args, m - 1).stream.text,
        RunTo(session, program, args, m).stream.text);
    }
  }

  lemma RunOneMore(session: Session, program: Program, args: map<string, string>, n: nat)
    requires n < |program.body|
    ensures RunTo(session, program, args, n).stream.text <= RunTo(session, program, args, n + 1).stream.text
    ensures RunTo(session, program, args, n).Raised? ==>
      RunTo(session, program, args, n + 1) == RunTo(session, program, args, n)
  {
    OneMore(session, program, args, n);
    var o := RunTo(session, program, args, n);
    if o.Done? { StmtGrows(session, o.stream, program.body[n], args + program.bound); }
  }

  lemma PrefixOfLonger(a: string, b: string, c: string)
    requires a <= b <= c
    ensures a <= c
  {
  }

  /** Tracing further only adds to the constant prefix, and nothing once it is complete. */
  lemma {:induction false} TraceExtends(session: Session, program: Program, n: nat, m: nat)
    requires n <= m <= |program.body| && !TracedTo(session.template, program, m).Crashed?
    ensures !TracedTo(session.template, program, n).Crashed?
    ensures var r, r' := TracedTo(session.template, program, n), TracedTo(session.template, program, m);
      && Lead(r.trace.nodes) <= Lead(r'.trace.nodes)
      && (ConstantTo(session.template, program, m) ==> ConstantTo(session.template, program, n))
      && (!ConstantTo(session.template, program, n) ==> Lead(r'.trace.nodes) == Lead(r.trace.nodes))
    decreases m
  {
    if n < m {
      OneMore(session, program, map[], m - 1);
      TraceExtends(session, program, n, m - 1);
      var r1, r' := TracedTo(session.template, program, m - 1), TracedTo(session.template, program, m);
      if r1.Going? {
        TrackStmtGrows(session.template, r1.trace, program.body[m - 1], program);
        assert r'.trace.nodes == r1.trace.nodes + r'.trace.nodes[|r1.trace.nodes|..];
        LeadOfAppend(r1.trace.nodes, r'.trace.nodes[|r1.trace.nodes|..]);
        assert AllText(r'.trace.nodes) ==> AllText(r1.trace.nodes);
      }
    }
  }

  /** The first reading of a bound argument as a variable ends every run, right where tracing still agrees with it. */
  lemma RunEndsThere(session: Session, program: Program, args: map<string, string>, n: nat)
    requires BoundRecallAt(session.template, program, n)
    requires forall i :: 0 <= i < n ==> !BoundRecallAt(session.template, program, i)
    ensures RunText(session, program, args) == Lead(TracedTo(session.template, program, n).trace.nodes)
  {
    BodyCovered(session, program, args, n);
    OneMore(session, program, args, n);
    RunExtends(session, program, args, n + 1, |program.body|);
    AllOfIt(session, program, args);
  }

  /** Statement i writes constant text, and so do all statements before it, if anything. */
  predicate AddsText(template: ChatTemplate, program: Program, i: nat)
  {
    && i < |program.body| && ConstantTo(template, program, i) && !TracedTo(template, program, i + 1).Crashed?
    && LeadTo(template, program, i + 1) != LeadTo(template, program, i)
  }

  /** The constant prefix of the first n statements. */
  function LeadTo(template: ChatTemplate, program: Program, n: nat): string
    requires n <= |program.body|
  {
    var r := TracedTo(template, program, n);
    if r.Crashed? then "" else Lead(r.trace.nodes)
  }

  lemma AddsIfLonger(session: Session, program: Program, i: nat)
    requires i < |program.body| && !TracedTo(session.template, program, i + 1).Crashed?
    ensures !TracedTo(session.template, program, i).Crashed?
    ensures LeadTo(session.template, program, i) <= LeadTo(session.template, program, i + 1)
    ensures LeadTo(session.template, program, i) == LeadTo(session.template, program, i + 1)
      <==> !AddsText(session.template, program, i)
  {
    TraceExtends(session, program, i, i + 1);
  }

  /** Between n and m the constant prefix grows exactly when some statement adds to it. */
  lemma {:induction false} GrowsByAdding(session: Session, program: Program, n: nat, m: nat)
    requires n <= m <= |program.body| && !TracedTo(session.template, program, m).Crashed?
    ensures LeadTo(session.template, program, n) <= LeadTo(session.template, program, m)
    ensures LeadTo(session.template, program, n) == LeadTo(session.template, program, m)
      <==> forall i :: n <= i < m ==> !AddsText(session.template, program, i)
    decreases m
  {
    if n < m {
      AddsIfLonger(session, program, m - 1);
      GrowsByAdding(session, program, n, m - 1);
      OnlyLonger(LeadTo(session.template, program, n), LeadTo(session.template, program, m - 1),
        LeadTo(session.template, program, m));
    }
  }

  lemma OnlyLonger(a: string, b: string, c: string)
    requires a <= b <= c
    ensures a == c <==> a == b && b == c
  {
  }

  /** The traced prefix starts the text of a run, for any arguments and any backend, exactly when
      no statement from the first reading of a bound argument as a variable on adds constant text to the trace. */
  lemma PrefixIsShared(session: Session, program: Program, args: map<string, string>)
    requires Extract(session.template, program).Some?
    ensures Extract(session.template, program).value <= RunText(session, program, args) <==>
      forall n: nat, i: nat ::
        BoundRecallAt(session.template, program, n) && n <= i ==> !AddsText(session.template, program, i)
  {
    var prefix, m := Extract(session.template, program).value, |program.body|;
    AllOfIt(session, program, args);
    if exists n: nat :: BoundRecallAt(session.template, program, n) {
      var n := FirstBoundRecall(session.template, program);
      RunEndsThere(session, program, args, n);
      TraceExtends(session, program, n, m);
      GrowsByAdding(session, program, n, m);
    } else {
      BodyCovered(session, program, args, m);
    }
  }

  /** A program that reads a bound argument as a variable: the traced prefix is text that no run writes. */
  lemma BoundRecallBreaks(session: Session, args: map<string, string>)
    ensures var program := Program([Recall("x")], {"x"}, map["x" := "hi"]);
      Extract(session.template, program) == Some("hi") && RunText(session, program, args) == ""
  {
    var program := Program([Recall("x")], {"x"}, map["x" := "hi"]);
    OneMore(session, program, args, 0);
    AllOfIt(session, program, args);
    assert TracedTo(session.template, program, 0) == Going(NOTHING) && RunTo(session, program, args, 0) == Done(EMPTY);
    assert TracedTo(session.template, program, 1) == Going(AddNode(NOTHING, Text("hi")));
    LeadOfText([], "hi");
    assert Lead([]) + "hi" == "hi";
  }

  lemma FirstBoundRecall(template: ChatTemplate, program: Program) returns (n: nat)
    requires exists k: nat :: BoundRecallAt(template, program, k)
    ensures BoundRecallAt(template, program, n) && forall i :: 0 <= i < n ==> !BoundRecallAt(template, program, i)
  {
    var k: nat :| BoundRecallAt(template, program, k);
    n := 0;
    while !BoundRecallAt(template, program, n)
      invariant n <= k && forall i :: 0 <= i < n ==> !BoundRecallAt(template, program, i)
      decreases k - n
    {
      n := n + 1;
    }
  }

  /** A program that is traced to its end as constant text writes exactly that text. */
  lemma ConstantProgramsAgree(session: Session, program: Program, args: map<string, string>)
    requires ConstantTo(session.template, program, |program.body|)
    requires forall n: nat :: !BoundRecallAt(session.template, program, n)
    ensures Extract(session.template, program) == Some(RunText(session, program, args))
  {
    BodyCovered(session, program, args, |program.body|);
    AllOfIt(session, program, args);
  }

  // ----- nothing more could be shared -----

  /** A backend that answers everything with the same text. */
  function Saying(answer: string): Backend
  {
    Backend((_, _) => Some(answer), (_, _) => Some(answer))
  }

  lemma Diverging(q: string, p: string, a: string, b: string)
    requires q <= a && q <= b && p + "x" <= a && p + "y" <= b
    ensures q <= p
  {
    assert a[|p|] == (p + "x")[|p|] && b[|p|] == (p + "y")[|p|];
    MeetUnique(a, b, p);
    MeetIsGreatest(a, b, q);
  }

  /** Statement n generates, and everything before it is constant text. */
  predicate FirstGenerates(session: Session, program: Program, n: nat)
  {
    && n < |program.body| && ConstantTo(session.template, program, n)
    && (forall i :: 0 <= i < n ==> !BoundRecallAt(session.template, program, i))
    && program.body[n].Append? && program.body[n].e.Gen? && Resolve(session, program.body[n].e.overrides).Some?
    && session.speculation.None?
  }

  /** With a generation as its first unknown, no longer text starts every run. */
  lemma PrefixIsLongest(session: Session, program: Program, args: map<string, string>, n: nat, q: string)
    requires FirstGenerates(session, program, n) && Extract(session.template, program).Some?
    requires forall backend :: q <= RunText(session.(backend := backend), program, args)
    ensures q <= Extract(session.template, program).value
  {
    var t := TracedTo(session.template, program, n).trace;
    GenerationWrites(session, program, args, n, "x");
    GenerationWrites(session, program, args, n, "y");
    Diverging(q, Lead(t.nodes), RunText(session.(backend := Saying("x")), program, args),
      RunText(session.(backend := Saying("y")), program, args));
    AllOfIt(session, program, args);
    TraceExtends(session, program, n, |program.body|);
  }

  lemma GenerationWrites(session: Session, program: Program, args: map<string, string>, n: nat, answer: string)
    requires FirstGenerates(session, program, n)
    ensures Lead(TracedTo(session.template, program, n).trace.nodes) + answer
      <= RunText(session.(backend := Saying(answer)), program, args)
  {
    var session' := session.(backend := Saying(answer));
    forall i | 0 <= i < n ensures !BoundRecallAt(session'.template, program, i) {
      assert !BoundRecallAt(session.template, program, i);
    }
    BodyCovered(session', program, args, n);
    OneMore(session', program, args, n);
    RunExtends(session', program, args, n + 1, |program.body|);
    AllOfIt(session', program, args);
  }
}
