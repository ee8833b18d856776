/** The tracer: it collects nodes instead of executing them. */
module Tracer {
  import opened Options
  import opened Lang
  import opened Execution
  import opened Tracing
  import TracingLaws

  /** How a traced expression ends: normally, by an exception that ends the tracing, or by one that ends the
      extraction. */
  datatype Ending = Normal | Stop | Crash

  class TracerProgramState {
    const template: ChatTemplate
    var nodes: seq<Expr>
    var variables: set<string>
    var messages: seq<Message>
    var curRole: Option<string>

    constructor (template: ChatTemplate)
      ensures this.template == template && State() == NOTHING
    {
      this.template := template;
      nodes, variables, messages, curRole := [], {}, [], None;
    }

    ghost function State(): Trace
      reads this
    {
      Trace(nodes, variables, messages, curRole)
    }

    ghost function Ended(ending: Ending): Tracked
      reads this
    {
      match ending
      case Normal => Going(State())
      case Stop => Stopped(State())
      case Crash => Crashed
    }

    method AppendNode(e: Expr)
      modifies `nodes
      ensures State() == AddNode(old(State()), e)
    {
      nodes := nodes + [e];
    }

    method Remember(name: Option<string>, kind: string)
      modifies `variables
      ensures variables == old(variables) + {NameOf(name, kind, old(State()))}
    {
      var n := if name.Some? then name.value else kind + Digits(|variables|);
      variables := variables + {n};
    }

    method Begin(role: string)
      modifies this
      ensures State() == EnterTrace(template, old(State()), role)
    {
      curRole := Some(role);
      var affixes := template.PrefixAndSuffix(role, messages);
      AppendNode(Text(affixes.0));
    }

    method ExecuteRoleEnd(role: string)
      modifies this
      ensures State() == LeaveTrace(template, old(State()), role)
    {
      var affixes := template.PrefixAndSuffix(role, messages);
      AppendNode(Text(affixes.1));
      messages := messages + [Message(role, "")];
      curRole := None;
    }

    method ExecuteRoleBegin(role: string) returns (ending: Ending)
      modifies this
      ensures Ended(ending) == Track(template, old(State()), RoleBegin(role))
    {
      if curRole.Some? {
        return Crash;
      }
      if messages == [] && role != "system" && template.defaultSystem != "" {
        Begin("system");
        AppendNode(Text(template.defaultSystem));
        ExecuteRoleEnd("system");
      }
      Begin(role);
      return Normal;
    }

    /** _execute while only the prefix is traced. */
    method Execute(e: Expr) returns (ending: Ending)
      modifies this
      ensures Ended(ending) == Track(template, old(State()), e)
      decreases e
    {
      ending := Normal;
      match e
      case Text(_) => AppendNode(e);
      case Gen(name, _) =>
        Remember(name, "gen_");
        AppendNode(e);
      case Select(name, _) =>
        Remember(name, "select_");
        AppendNode(e);
      case Exprs(list) => ending := ExecuteAll(list);
      case RoleBegin(role) => ending := ExecuteRoleBegin(role);
      case RoleEnd(role) => ExecuteRoleEnd(role);
      case ScopeBegin(_) => ending := Stop;
      case ScopeEnd(_) => ending := Crash;
      case Argument(_) => ending := Stop;
    }

    method ExecuteAll(list: seq<Expr>) returns (ending: Ending)
      modifies this
      ensures Ended(ending) == TrackList(template, old(State()), list)
      decreases list
    {
      for i := 0 to |list|
        invariant Going(State()) == TrackList(template, old(State()), list[..i])
      {
        assert list[..i + 1][..i] == list[..i];
        ending := Execute(list[i]);
        if ending != Normal {
          EndedEarly(template, old(State()), list, i + 1);
          return;
        }
      }
      assert list[..|list|] == list;
      ending := Normal;
    }

    /** One statement of the traced program. */
    method Perform(stmt: Stmt, program: Program) returns (ending: Ending)
      modifies this
      ensures Ended(ending) == TrackStmt(template, old(State()), stmt, program)
    {
      match stmt
      case Append(e) => ending := Execute(Bind(e, program.bound));
      case Submit(_) => ending := Stop;
      case Recall(name) =>
        if name in program.bound {
          ending := Execute(Text(program.bound[name]));
        } else if name in program.argNames || name in variables {
          ending := Stop;
        } else {
          ending := Crash;
        }
    }

    /** The traced program, until it ends or an exception ends it. */
    method Run(program: Program) returns (ending: Ending)
      requires State() == NOTHING
      modifies this
      ensures Ended(ending) == TrackBody(template, program.body, program)
    {
      for i := 0 to |program.body|
        invariant Going(State()) == TrackBody(template, program.body[..i], program)
      {
        assert program.body[..i + 1][..i] == program.body[..i];
        ending := Perform(program.body[i], program);
        if ending != Normal {
          BodyEndedEarly(template, program, i + 1);
          return;
        }
      }
      assert program.body[..|program.body|] == program.body;
      ending := Normal;
    }

    /** The text of the leading constant nodes. */
    method Prefix() returns (prefix: string)
      ensures prefix == Lead(nodes)
    {
      prefix := "";
      var i := 0;
      while i < |nodes| && nodes[i].Text?
        invariant i <= |nodes| && Lead(nodes) == prefix + Lead(nodes[i..])
      {
        assert nodes[i..][1..] == nodes[i + 1..];
        prefix := prefix + nodes[i].value;
        i := i + 1;
      }
    }
  }

  lemma {:induction false} EndedEarly(template: ChatTemplate, t: Trace, list: seq<Expr>, n: nat)
    requires n <= |list| && !TrackList(template, t, list[..n]).Going?
    ensures TrackList(template, t, list) == TrackList(template, t, list[..n])
    decreases |list|
  {
    if n < |list| {
      var init := list[..|list| - 1];
      assert init[..n] == list[..n];
      EndedEarly(template, t, init, n);
    } else {
      assert list[..n] == list;
    }
  }

  lemma BodyEndedEarly(template: ChatTemplate, program: Program, n: nat)
    requires n <= |program.body| && !TracedTo(template, program, n).Going?
    ensures TrackBody(template, program.body, program) == TracedTo(template, program, n)
  {
    var m := n;
    assert program.body[..|program.body|] == program.body;
    while m < |program.body|
      invariant n <= m <= |program.body| && TracedTo(template, program, m) == TracedTo(template, program, n)
    {
      assert program.body[..m + 1][..m] == program.body[..m];
      m := m + 1;
    }
  }

  /** extract_prefix_by_tracing. */
  method ExtractPrefix(template: ChatTemplate, program: Program) returns (prefix: Option<string>)
    ensures prefix == Extract(template, program)
    ensures var c := TracingLaws.CodeOf(program);
      prefix.Some? <==> forall i :: 0 <= i < |c.stmts| && c.IsWrong(i) ==> exists j :: 0 <= j < i && c.LeadsOut(j)
    ensures prefix.Some? && (forall n: nat :: !BoundRecallAt(template, program, n)) ==>
      forall session: Session, args :: session.template == template ==> prefix.value <= RunText(session, program, args)
  {
    TracingLaws.ExtractsExactly(template, program);
    var tracer := new TracerProgramState(template);
    var ending := tracer.Run(program);
    if ending == Crash {
      return None;
    }
    var text := tracer.Prefix();
    prefix := Some(text);
    forall session: Session, args | session.template == template
      && (forall n: nat :: !BoundRecallAt(template, program, n))
      ensures prefix.value <= RunText(session, program, args)
    {
      PrefixIsShared(session, program, args);
    }
  }
}
