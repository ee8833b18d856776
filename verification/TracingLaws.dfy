/** When extracting a prefix succeeds, and with what, told by the statements of the program alone. */
module TracingLaws {
  import opened Options
  import opened Lang
  import opened Execution
  import opened ExecutionLaws
  import opened Tracing

  // ----- statements without lists -----

  /** The expressions in a list are appended one by one. */
  function Single(e: Expr): seq<Stmt>
    decreases e
  {
    if e.Exprs? then Singles(e.list) else [Append(e)]
  }

  function Singles(list: seq<Expr>): seq<Stmt>
    decreases list
  {
    if list == [] then [] else Singles(list[..|list| - 1]) + Single(list[|list| - 1])
  }

  function Flat(body: seq<Stmt>): (flat: seq<Stmt>)
  {
    if body == [] then []
    else
      var last := body[|body| - 1];
      Flat(body[..|body| - 1]) + if last.Append? then Single(last.e) else [last]
  }

  predicate IsSimple(stmt: Stmt)
  {
    stmt.Append? ==> !stmt.e.Exprs?
  }

  lemma {:induction false} SingleIsSimple(e: Expr)
    ensures forall i :: 0 <= i < |Single(e)| ==> IsSimple(Single(e)[i])
    decreases e
  {
    if e.Exprs? { SinglesAreSimple(e.list); }
  }

  lemma {:induction false} SinglesAreSimple(list: seq<Expr>)
    ensures forall i :: 0 <= i < |Singles(list)| ==> IsSimple(Singles(list)[i])
    decreases list
  {
    if list != [] {
      SinglesAreSimple(list[..|list| - 1]);
      SingleIsSimple(list[|list| - 1]);
    }
  }

  lemma {:induction false} FlatIsSimple(body: seq<Stmt>)
    ensures forall i :: 0 <= i < |Flat(body)| ==> IsSimple(Flat(body)[i])
  {
    if body != [] {
      FlatIsSimple(body[..|body| - 1]);
      var last := body[|body| - 1];
      if last.Append? { SingleIsSimple(last.e); }
    }
  }

  /** Tracing goes on with more statements. */
  function TrackOn(template: ChatTemplate, r: Tracked, stmts: seq<Stmt>, program: Program): Tracked
  {
    if stmts == [] then r
    else
      var before := TrackOn(template, r, stmts[..|stmts| - 1], program);
      if before.Going? then TrackStmt(template, before.trace, stmts[|stmts| - 1], program) else before
  }

  lemma {:induction false} TrackOnSplits(template: ChatTemplate, r: Tracked, a: seq<Stmt>, b: seq<Stmt>,
                                         program: Program)
    ensures TrackOn(template, r, a + b, program) == TrackOn(template, TrackOn(template, r, a, program), b, program)
    decreases |b|
  {
    if b == [] {
      assert a + b == a;
    } else {
      var n := |b| - 1;
      TrackOnSplits(template, r, a, b[..n], program);
      assert (a + b)[..|a + b| - 1] == a + b[..n];
    }
  }

  lemma {:induction false} TrackOnEnded(template: ChatTemplate, r: Tracked, stmts: seq<Stmt>, program: Program)
    requires !r.Going?
    ensures TrackOn(template, r, stmts, program) == r
  {
    if stmts != [] { TrackOnEnded(template, r, stmts[..|stmts| - 1], program); }
  }

  lemma TrackOnOne(template: ChatTemplate, t: Trace, stmt: Stmt, program: Program)
    ensures TrackOn(template, Going(t), [stmt], program) == TrackStmt(template, t, stmt, program)
  {
    assert [stmt][..0] == [];
  }

  lemma {:induction false} SingleTracked(template: ChatTemplate, t: Trace, e: Expr, program: Program)
    ensures TrackOn(template, Going(t), Single(e), program) == Track(template, t, Bind(e, program.bound))
    decreases e
  {
    if e.Exprs? { SinglesTracked(template, t, e.list, program); } else { TrackOnOne(template, t, Append(e), program); }
  }

  lemma {:induction false} SinglesTracked(template: ChatTemplate, t: Trace, list: seq<Expr>, program: Program)
    ensures TrackOn(template, Going(t), Singles(list), program)
      == TrackList(template, t, BindAll(list, program.bound))
    decreases list
  {
    if list != [] {
      var n := |list| - 1;
      var bound := BindAll(list, program.bound);
      SinglesTracked(template, t, list[..n], program);
      TrackOnSplits(template, Going(t), Singles(list[..n]), Single(list[n]), program);
      assert bound[..n] == BindAll(list[..n], program.bound);
      var r := TrackList(template, t, bound[..n]);
      if r.Going? {
        SingleTracked(template, r.trace, list[n], program);
      } else {
        TrackOnEnded(template, r, Single(list[n]), program);
      }
    }
  }

  /** Tracing a program is tracing its single statements. */
  lemma {:induction false} FlatTracked(template: ChatTemplate, body: seq<Stmt>, program: Program)
    ensures TrackBody(template, body, program) == TrackOn(template, Going(NOTHING), Flat(body), program)
  {
    if body != [] {
      var n := |body| - 1;
      var more := if body[n].Append? then Single(body[n].e) else [body[n]];
      FlatTracked(template, body[..n], program);
      TrackOnSplits(template, Going(NOTHING), Flat(body[..n]), more, program);
      var r := TrackBody(template, body[..n], program);
      if !r.Going? {
        TrackOnEnded(template, r, more, program);
      } else if body[n].Append? {
        SingleTracked(template, r.trace, body[n].e, program);
      } else {
        TrackOnOne(template, r.trace, body[n], program);
      }
    }
  }

  // ----- what single statements do to the tracing -----

  /** The single statements of a program, and what is known before it runs. */
  datatype Code = Code(stmts: seq<Stmt>, argNames: set<string>, bound: map<string, string>)
  {
    predicate Appends(i: nat)
    {
      i < |stmts| && stmts[i].Append?
    }

    /** A generation or a choice. */
    predicate Asks(i: nat)
    {
      Appends(i) && (stmts[i].e.Gen? || stmts[i].e.Select?)
    }

    predicate Begins(i: nat)
    {
      Appends(i) && stmts[i].e.RoleBegin?
    }

    predicate Ends(i: nat)
    {
      Appends(i) && stmts[i].e.RoleEnd?
    }

    /** The names of the generations and choices among the first n statements; those without a name are numbered by how
        many names there are. */
    function Named(n: nat): set<string>
      requires n <= |stmts|
    {
      if n == 0 then {}
      else
        var before := Named(n - 1);
        if !Asks(n - 1) then before
        else
          match stmts[n - 1].e
          case Gen(Some(name), _) => before + {name}
          case Gen(None, _) => before + {"gen_" + Digits(|before|)}
          case Select(Some(name), _) => before + {name}
          case _ => before + {"select_" + Digits(|before|)}
    }

    /** A role has begun before statement n and has not ended since. */
    predicate RoleIsOpen(n: nat)
    {
      exists i: nat :: i < n && Begins(i) && forall k: nat :: i < k < n ==> !Ends(k)
    }

    /** Statement i leads out of what is known: it goes to the stream executor, begins a scope, needs an argument
        that is not known, or reads an argument or the answer of the backend. */
    predicate LeadsOut(i: nat)
      requires i < |stmts|
    {
      match stmts[i]
      case Submit(_) => true
      case Append(e) => e.ScopeBegin? || (e.Argument? && e.arg !in bound)
      case Recall(name) => name !in bound && (name in argNames || name in Named(i))
    }

    /** Statement i is wrong: it ends a scope, begins a role inside a role, or reads a name that means nothing. */
    predicate IsWrong(i: nat)
      requires i < |stmts|
    {
      match stmts[i]
      case Submit(_) => false
      case Append(e) => e.ScopeEnd? || (e.RoleBegin? && RoleIsOpen(i))
      case Recall(name) => name !in bound && name !in argNames && name !in Named(i)
    }

    /** Statement i appends text that is known before the program runs. */
    predicate IsConstant(i: nat)
      requires i < |stmts|
    {
      match stmts[i]
      case Submit(_) => false
      case Append(e) => e.Text? || e.RoleBegin? || e.RoleEnd? || (e.Argument? && e.arg in bound)
      case Recall(name) => name in bound
    }

    /** That text, as an expression. */
    function Constant(i: nat): Expr
      requires i < |stmts| && IsConstant(i)
    {
      match stmts[i]
      case Recall(name) => Text(bound[name])
      case Append(Argument(a)) => Text(bound[a])
      case _ => stmts[i].e
    }

    /** The constant statements before statement n. */
    function Constants(n: nat): (list: seq<Expr>)
      requires n <= |stmts| && forall i :: 0 <= i < n ==> IsConstant(i)
      ensures |list| == n
    {
      if n == 0 then [] else Constants(n - 1) + [Constant(n - 1)]
    }

    /** Nothing before statement n ends the tracing. */
    predicate GoesOn(n: nat)
      requires n <= |stmts|
    {
      forall i :: 0 <= i < n ==> !LeadsOut(i) && !IsWrong(i)
    }
  }

  function CodeOf(program: Program): Code
  {
    Code(Flat(program.body), program.argNames, program.bound)
  }

  // ----- when there is a prefix -----

  /** The state of the tracing before statement n. */
  function At(template: ChatTemplate, program: Program, n: nat): Tracked
    requires n <= |Flat(program.body)|
  {
    TrackOn(template, Going(NOTHING), Flat(program.body)[..n], program)
  }

  lemma AtNext(template: ChatTemplate, program: Program, n: nat)
    requires n < |Flat(program.body)|
    ensures At(template, program, n + 1) == (var r := At(template, program, n);
      if r.Going? then TrackStmt(template, r.trace, Flat(program.body)[n], program) else r)
  {
    var flat := Flat(program.body);
    assert flat[..n + 1][..n] == flat[..n];
  }

  lemma AtEnd(template: ChatTemplate, program: Program)
    ensures At(template, program, |Flat(program.body)|) == TrackBody(template, program.body, program)
  {
    var flat := Flat(program.body);
    assert flat[..|flat|] == flat;
    FlatTracked(template, program.body, program);
  }

  lemma RoleStaysOpen(c: Code, n: nat)
    requires n < |c.stmts|
    ensures c.RoleIsOpen(n + 1) <==> c.Begins(n) || (c.RoleIsOpen(n) && !c.Ends(n))
  {
    if c.RoleIsOpen(n + 1) && !c.Begins(n) {
      var i: nat :| i < n + 1 && c.Begins(i) && forall k: nat :: i < k < n + 1 ==> !c.Ends(k);
      assert i < n;
    }
    if c.RoleIsOpen(n) && !c.Ends(n) {
      var i: nat :| i < n && c.Begins(i) && forall k: nat :: i < k < n ==> !c.Ends(k);
      assert forall k: nat :: i < k < n + 1 ==> !c.Ends(k);
    }
  }

  /** What tracing knows before statement n. */
  predicate Knows(r: Tracked, c: Code, n: nat)
    requires n <= |c.stmts|
  {
    r.Going? && r.trace.variables == c.Named(n) && (r.trace.curRole.Some? <==> c.RoleIsOpen(n))
  }

  lemma OneStatement(template: ChatTemplate, t: Trace, program: Program, n: nat)
    requires n < |Flat(program.body)| && Knows(Going(t), CodeOf(program), n)
    ensures var c, r := CodeOf(program), TrackStmt(template, t, Flat(program.body)[n], program);
      && (c.LeadsOut(n) ==> r == Stopped(t))
      && (c.IsWrong(n) ==> r == Crashed)
      && (!c.LeadsOut(n) && !c.IsWrong(n) ==> Knows(r, c, n + 1))
  {
    FlatIsSimple(program.body);
    assert IsSimple(Flat(program.body)[n]);
    RoleStaysOpen(CodeOf(program), n);
  }

  lemma {:induction false} KnowsBefore(template: ChatTemplate, program: Program, n: nat)
    requires n <= |Flat(program.body)| && CodeOf(program).GoesOn(n)
    ensures Knows(At(template, program, n), CodeOf(program), n)
  {
    if n > 0 {
      KnowsBefore(template, program, n - 1);
      AtNext(template, program, n - 1);
      OneStatement(template, At(template, program, n - 1).trace, program, n - 1);
    }
  }

  lemma {:induction false} StaysEnded(template: ChatTemplate, program: Program, n: nat, m: nat)
    requires n <= m <= |Flat(program.body)| && !At(template, program, n).Going?
    ensures At(template, program, m) == At(template, program, n)
    decreases m
  {
    if n < m {
      StaysEnded(template, program, n, m - 1);
      AtNext(template, program, m - 1);
    }
  }

  /** The first statement that leads out or is wrong decides how the tracing ends. */
  lemma FirstDecides(template: ChatTemplate, program: Program, n: nat)
    requires n < |Flat(program.body)| && CodeOf(program).GoesOn(n)
    requires CodeOf(program).LeadsOut(n) || CodeOf(program).IsWrong(n)
    ensures At(template, program, n).Going?
    ensures TrackBody(template, program.body, program)
      == if CodeOf(program).LeadsOut(n) then Stopped(At(template, program, n).trace) else Crashed
  {
    KnowsBefore(template, program, n);
    AtNext(template, program, n);
    OneStatement(template, At(template, program, n).trace, program, n);
    StaysEnded(template, program, n + 1, |Flat(program.body)|);
    AtEnd(template, program);
  }

  lemma FirstEnding(c: Code) returns (n: nat)
    ensures n <= |c.stmts| && c.GoesOn(n) && (n < |c.stmts| ==> c.LeadsOut(n) || c.IsWrong(n))
  {
    n := 0;
    while n < |c.stmts| && !c.LeadsOut(n) && !c.IsWrong(n)
      invariant n <= |c.stmts| && c.GoesOn(n)
    {
      n := n + 1;
    }
  }

  /** Extraction gives a prefix exactly when every wrong statement comes after one that leads out. */
  lemma ExtractsExactly(template: ChatTemplate, program: Program)
    ensures var c := CodeOf(program);
      Extract(template, program).Some? <==>
      forall i :: 0 <= i < |c.stmts| && c.IsWrong(i) ==> exists j :: 0 <= j < i && c.LeadsOut(j)
  {
    var c := CodeOf(program);
    var n := FirstEnding(c);
    if n < |c.stmts| {
      FirstDecides(template, program, n);
    } else {
      KnowsBefore(template, program, n);
      AtEnd(template, program);
    }
  }

  /** A program whose roles are not nested, that ends no scopes and reads only known arguments, other arguments, and
      generations and choices appended before, has a prefix. */
  lemma ReadableHasPrefix(template: ChatTemplate, program: Program)
    requires var c := CodeOf(program); forall i :: 0 <= i < |c.stmts| ==> !c.IsWrong(i)
    ensures Extract(template, program).Some?
  {
    ExtractsExactly(template, program);
  }

  /** A generation or choice gives its name to all later readings. */
  lemma {:induction false} NamesStay(c: Code, i: nat, n: nat, name: string)
    requires i < n <= |c.stmts| && c.Asks(i)
    requires c.stmts[i].e.name == Some(name)
    ensures name in c.Named(n)
    decreases n
  {
    if i < n - 1 { NamesStay(c, i, n - 1, name); }
  }

  // ----- the prefix -----

  /** Statements 0 to n - 1 are constant and statement n is not, or there is none. */
  predicate ConstantUpTo(c: Code, n: nat)
  {
    n <= |c.stmts| && (forall i :: 0 <= i < n ==> c.IsConstant(i)) && (n < |c.stmts| ==> !c.IsConstant(n))
  }

  lemma TheNextConstant(session: Session, t: Trace, s: Stream, program: Program, n: nat)
    requires n < |Flat(program.body)| && CodeOf(program).IsConstant(n) && Agree(t, s)
    ensures var r := TrackStmt(session.template, t, Flat(program.body)[n], program);
      r.Going? ==> var o := Exec(session, s, CodeOf(program).Constant(n)); o.Done? && Agree(r.trace, o.stream)
  {
    match Flat(program.body)[n]
    case Recall(name) => FillAgrees(t, s, program.bound[name]);
    case Append(Text(value)) => FillAgrees(t, s, value);
    case Append(Argument(a)) => FillAgrees(t, s, program.bound[a]);
    case Append(RoleBegin(role)) => if t.curRole.None? { OpenAgrees(session.template, t, s, role); }
    case Append(RoleEnd(role)) => LeaveAgrees(session.template, t, s, role);
    case _ =>
  }

  /** Tracing constant statements collects what executing them writes. */
  lemma {:induction false} ConstantsAgree(session: Session, program: Program, n: nat)
    requires n <= |Flat(program.body)| && forall i :: 0 <= i < n ==> CodeOf(program).IsConstant(i)
    requires At(session.template, program, n).Going?
    ensures var o := ExecList(session, EMPTY, CodeOf(program).Constants(n));
      o.Done? && Agree(At(session.template, program, n).trace, o.stream)
  {
    if n > 0 {
      AtNext(session.template, program, n - 1);
      ConstantsAgree(session, program, n - 1);
      var o := ExecList(session, EMPTY, CodeOf(program).Constants(n - 1));
      TheNextConstant(session, At(session.template, program, n - 1).trace, o.stream, program, n - 1);
      ListOneMore(session, EMPTY, CodeOf(program).Constants(n - 1), CodeOf(program).Constant(n - 1));
    }
  }

  lemma ConstantsGoOn(template: ChatTemplate, program: Program, n: nat)
    requires n <= |Flat(program.body)| && forall i :: 0 <= i < n ==> CodeOf(program).IsConstant(i)
    requires !TrackBody(template, program.body, program).Crashed?
    ensures At(template, program, n).Going? && CodeOf(program).GoesOn(n)
  {
    var c := CodeOf(program);
    var m := FirstEnding(c);
    if m < |c.stmts| { FirstDecides(template, program, m); }
    assert m < n ==> c.IsConstant(m);
    KnowsBefore(template, program, n);
  }

  lemma {:induction false} NodesStay(template: ChatTemplate, program: Program, n: nat, m: nat)
    requires n <= m <= |Flat(program.body)| && !At(template, program, m).Crashed?
    ensures !At(template, program, n).Crashed?
    ensures At(template, program, n).trace.nodes <= At(template, program, m).trace.nodes
    decreases m
  {
    if n < m {
      AtNext(template, program, m - 1);
      NodesStay(template, program, n, m - 1);
      var r := At(template, program, m - 1);
      if r.Going? {
        TrackStmtGrows(template, r.trace, Flat(program.body)[m - 1], program);
        Longer(At(template, program, n).trace.nodes, r.trace.nodes, At(template, program, m).trace.nodes);
      }
    }
  }

  lemma Longer(a: seq<Expr>, b: seq<Expr>, c: seq<Expr>)
    requires a <= b <= c
    ensures a <= c
  {
  }

  /** Once tracing has asked the backend, its prefix is fixed. */
  lemma FixedByAsking(template: ChatTemplate, program: Program, n: nat)
    requires n < |Flat(program.body)| && !TrackBody(template, program.body, program).Crashed?
    requires At(template, program, n).Going? && AllText(At(template, program, n).trace.nodes)
    requires var c := CodeOf(program); !c.IsConstant(n) && !c.LeadsOut(n) && !c.IsWrong(n)
    ensures Lead(TrackBody(template, program.body, program).trace.nodes) == Lead(At(template, program, n).trace.nodes)
  {
    var t := At(template, program, n).trace;
    AtEnd(template, program);
    AsksNext(template, t, program, n);
    AtNext(template, program, n);
    NodesStay(template, program, n + 1, |Flat(program.body)|);
    LeadEnds(t.nodes, Flat(program.body)[n].e, TrackBody(template, program.body, program).trace.nodes);
  }

  /** The first statement that is not constant fixes the prefix. */
  lemma FixedThere(template: ChatTemplate, program: Program, n: nat)
    requires ConstantUpTo(CodeOf(program), n) && !TrackBody(template, program.body, program).Crashed?
    requires At(template, program, n).Going? && AllText(At(template, program, n).trace.nodes)
    requires CodeOf(program).GoesOn(n)
    ensures Lead(TrackBody(template, program.body, program).trace.nodes) == Lead(At(template, program, n).trace.nodes)
  {
    var c := CodeOf(program);
    if n == |c.stmts| {
      AtEnd(template, program);
    } else if c.LeadsOut(n) || c.IsWrong(n) {
      FirstDecides(template, program, n);
    } else {
      FixedByAsking(template, program, n);
    }
  }

  /** A prefix is exactly what executing the leading constant statements of the program writes. */
  lemma PrefixIsConstantText(session: Session, program: Program, n: nat)
    requires Extract(session.template, program).Some? && ConstantUpTo(CodeOf(program), n)
    ensures var o := ExecList(session, EMPTY, CodeOf(program).Constants(n));
      o.Done? && Extract(session.template, program) == Some(o.stream.text)
  {
    ConstantsGoOn(session.template, program, n);
    ConstantsAgree(session, program, n);
    FixedThere(session.template, program, n);
  }

  lemma AsksNext(template: ChatTemplate, t: Trace, program: Program, n: nat)
    requires n < |Flat(program.body)|
    requires var c := CodeOf(program); !c.IsConstant(n) && !c.LeadsOut(n) && !c.IsWrong(n)
    ensures var stmt := Flat(program.body)[n];
      && stmt.Append? && (stmt.e.Gen? || stmt.e.Select?)
      && TrackStmt(template, t, stmt, program).Going?
      && TrackStmt(template, t, stmt, program).trace.nodes == t.nodes + [stmt.e]
  {
    FlatIsSimple(program.body);
    assert IsSimple(Flat(program.body)[n]);
  }

  lemma LeadEnds(nodes: seq<Expr>, e: Expr, more: seq<Expr>)
    requires AllText(nodes) && !e.Text? && nodes + [e] <= more
    ensures Lead(more) == Lead(nodes)
  {
    var rest := more[|nodes|..];
    assert more == nodes + rest && rest[0] == e;
    LeadOfAppend(nodes, rest);
    assert Lead(nodes) + "" == Lead(nodes);
  }

  /** The text of expressions that are texts. */
  function Joined(list: seq<Expr>): string
  {
    if list == [] then ""
    else Joined(list[..|list| - 1]) + (if list[|list| - 1].Text? then list[|list| - 1].value else "")
  }

  lemma {:induction false} TextsAreJoined(session: Session, list: seq<Expr>)
    requires forall i :: 0 <= i < |list| ==> list[i].Text?
    ensures var o := ExecList(session, EMPTY, list); o.Done? && o.stream.text == Joined(list)
  {
    if list != [] { TextsAreJoined(session, list[..|list| - 1]); }
  }

  /** Without roles the prefix is the constant text before the first other statement. */
  lemma PrefixIsJoined(template: ChatTemplate, program: Program, n: nat)
    requires Extract(template, program).Some? && ConstantUpTo(CodeOf(program), n)
    requires forall i :: 0 <= i < n ==> CodeOf(program).Constant(i).Text?
    ensures Extract(template, program) == Some(Joined(CodeOf(program).Constants(n)))
  {
    var session := Session(Saying(""), template, None, SamplingParams(0, None));
    PrefixIsConstantText(session, program, n);
    TextsOnly(CodeOf(program), n);
    TextsAreJoined(session, CodeOf(program).Constants(n));
  }

  lemma {:induction false} TextsOnly(c: Code, n: nat)
    requires n <= |c.stmts| && forall i :: 0 <= i < n ==> c.IsConstant(i)
    requires forall i :: 0 <= i < n ==> c.Constant(i).Text?
    ensures forall i :: 0 <= i < n ==> c.Constants(n)[i].Text?
  {
    if n > 0 { TextsOnly(c, n - 1); }
  }

  // ----- names -----

  /** The number that decimal digits denote. */
  function Number(digits: string): int
  {
    if digits == "" then 0
    else 10 * Number(digits[..|digits| - 1]) + (digits[|digits| - 1] as int - '0' as int)
  }

  lemma DigitDenotes(d: nat)
    requires d < 10
    ensures "0123456789"[d] as int == '0' as int + d
  {
  }

  /** The usual digits of a number. */
  predicate Denotes(digits: string, n: nat)
  {
    digits != "" && Number(digits) == n && (n > 0 ==> digits[0] != '0')
  }

  lemma OneMoreDigit(digits: string, q: nat, d: nat)
    requires (digits == "" && q == 0) || (Denotes(digits, q) && q > 0)
    requires d < 10
    ensures Denotes(digits + ["0123456789"[d]], 10 * q + d)
  {
    DigitDenotes(d);
    assert (digits + ["0123456789"[d]])[..|digits|] == digits;
  }

  lemma {:induction false} DigitsDenote(n: nat)
    ensures Denotes(Digits(n), n)
  {
    if n < 10 {
      OneMoreDigit("", 0, n);
      assert "" + ["0123456789"[n]] == ["0123456789"[n]];
    } else {
      DigitsDenote(n / 10);
      OneMoreDigit(Digits(n / 10), n / 10, n % 10);
    }
  }

  /** A generation without a name is read back by its number, and only by that. */
  lemma UnnamedIsNumbered(template: ChatTemplate, x: string, o: Overrides, name: string)
    ensures var program := Program([Append(Text(x)), Append(Gen(None, o)), Recall(name)], {}, map[]);
      Extract(template, program) == if name == "gen_0" then Some(x) else None
  {
    var program := Program([Append(Text(x)), Append(Gen(None, o)), Recall(name)], {}, map[]);
    var body := program.body;
    assert body[..3] == body && body[..3][..2] == body[..2] && body[..2][..1] == body[..1] && body[..1][..0] == [];
    assert TrackBody(template, body[..1], program) == Going(AddNode(NOTHING, Text(x)));
    assert Digits(0) == "0" && "gen_" + "0" == "gen_0";
    var t := TrackBody(template, body[..2], program).trace;
    assert t.variables == {"gen_0"} && t.nodes == [Text(x)] + [Gen(None, o)];
    LeadOfText([], x);
    assert [] + [Text(x)] == [Text(x)] && Lead([]) + x == x;
    LeadEnds([Text(x)], Gen(None, o), t.nodes);
  }

  // ----- running statements -----

  /** Reading back a generation writes what the generation wrote once more. */
  lemma ReadingRepeats(session: Session, s: Stream, x: string, o: Overrides, args: map<string, string>)
    requires RunStmt(session, s, Append(Gen(Some(x), o)), args).Done?
    ensures var s1 := RunStmt(session, s, Append(Gen(Some(x), o)), args).stream;
      var r := RunStmt(session, s1, Recall(x), args);
      s.text <= s1.text && r.Done? && r.stream.text == s1.text + Written(s, s1)
  {
    GenStoresItsText(session, s, Some(x), o);
  }

  /** An argument is written where it is appended, exactly when it is given. */
  lemma ArgumentIsWritten(session: Session, s: Stream, a: string, args: map<string, string>)
    ensures var r := RunStmt(session, s, Append(Argument(a)), args);
      && (a in args ==> r.Done? && r.stream.text == s.text + args[a])
      && (a !in args ==> r == Raised(s))
  {
  }
}
