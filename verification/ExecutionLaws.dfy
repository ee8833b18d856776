/** What streams hold after roles, scopes and generations, told by texts alone. */
module ExecutionLaws {
  import opened Options
  import opened Lang
  import opened Execution

  // ----- what an expression leaves alone -----

  /** Nothing in e opens or closes a role. */
  predicate NoRoles(e: Expr)
    decreases e
  {
    match e
    case RoleBegin(_) => false
    case RoleEnd(_) => false
    case Exprs(list) => forall i :: 0 <= i < |list| ==> NoRoles(list[i])
    case _ => true
  }

  /** Nothing in e assigns the variable. */
  predicate Spares(e: Expr, name: string)
    decreases e
  {
    match e
    case Gen(n, _) => n != Some(name)
    case Select(n, _) => n != Some(name)
    case ScopeBegin(n) => n != name
    case ScopeEnd(n) => n != name
    case Exprs(list) => forall i :: 0 <= i < |list| ==> Spares(list[i], name)
    case _ => true
  }

  /** The same roles and messages. */
  predicate SameRole(s: Stream, s': Stream)
  {
    s'.curRole == s.curRole && s'.roleStart == s.roleStart && s'.messages == s.messages
  }

  predicate SameVariable(s: Stream, s': Stream, name: string)
  {
    && (Some(name) in s'.variables <==> Some(name) in s.variables)
    && (Some(name) in s.variables ==> s'.variables[Some(name)] == s.variables[Some(name)])
  }

  lemma {:induction false} RolesKept(session: Session, s: Stream, e: Expr)
    requires NoRoles(e)
    ensures SameRole(s, Exec(session, s, e).stream)
    decreases e
  {
    if e.Exprs? { ListKeepsRoles(session, s, e.list); }
  }

  lemma {:induction false} ListKeepsRoles(session: Session, s: Stream, list: seq<Expr>)
    requires forall i :: 0 <= i < |list| ==> NoRoles(list[i])
    ensures SameRole(s, ExecList(session, s, list).stream)
    decreases list
  {
    if list != [] {
      var n := |list| - 1;
      ListKeepsRoles(session, s, list[..n]);
      var o := ExecList(session, s, list[..n]);
      if o.Done? { RolesKept(session, o.stream, list[n]); }
    }
  }

  lemma OpenRoleKeepsVariables(template: ChatTemplate, s: Stream, role: string)
    ensures OpenRole(template, s, role).stream.variables == s.variables
  {
  }

  lemma {:induction false} VariableKept(session: Session, s: Stream, e: Expr, name: string)
    requires Spares(e, name)
    ensures SameVariable(s, Exec(session, s, e).stream, name)
    decreases e
  {
    match e
    case Exprs(list) => ListKeepsVariable(session, s, list, name);
    case RoleBegin(role) => OpenRoleKeepsVariables(session.template, s, role);
    case _ =>
  }

  lemma {:induction false} ListKeepsVariable(session: Session, s: Stream, list: seq<Expr>, name: string)
    requires forall i :: 0 <= i < |list| ==> Spares(list[i], name)
    ensures SameVariable(s, ExecList(session, s, list).stream, name)
    decreases list
  {
    if list != [] {
      var n := |list| - 1;
      ListKeepsVariable(session, s, list[..n], name);
      var o := ExecList(session, s, list[..n]);
      if o.Done? { VariableKept(session, o.stream, list[n], name); }
    }
  }

  /** What was written from s to s'. */
  function Written(s: Stream, s': Stream): string
    requires s.text <= s'.text
  {
    s'.text[|s.text|..]
  }

  // ----- scopes -----

  /** A scope ends with its variable holding exactly the text that was written since it began. */
  lemma ScopeHoldsItsText(session: Session, s: Stream, name: string, body: Expr)
    requires Spares(body, name)
    ensures var o := Exec(session, OpenScope(s, name), body);
      var e := ExecList(session, s, [ScopeBegin(name), body, ScopeEnd(name)]);
      if o.Done? then
        && s.text <= o.stream.text
        && e == Done(o.stream.(variables := o.stream.variables[Some(name) := Str(Written(s, o.stream))]))
      else e == o
  {
    ThreeInARow(session, s, ScopeBegin(name), body, ScopeEnd(name));
    TextGrows(session, OpenScope(s, name), body);
    VariableKept(session, OpenScope(s, name), body, name);
  }

  /** Ending a scope that was not begun, or that has ended, raises. */
  lemma OnlyOpenScopesEnd(session: Session, s: Stream, name: string)
    ensures Exec(session, s, ScopeEnd(name)).Done? <==>
      Some(name) in s.variables && s.variables[Some(name)].Start?
    ensures ExecList(session, s, [ScopeBegin(name), ScopeEnd(name), ScopeEnd(name)]).Raised?
  {
    ThreeInARow(session, s, ScopeBegin(name), ScopeEnd(name), ScopeEnd(name));
  }

  lemma ThreeInARow(session: Session, s: Stream, a: Expr, b: Expr, c: Expr)
    ensures ExecList(session, s, [a, b, c]) == (var o1 := Exec(session, s, a);
      if o1.Raised? then o1 else (var o2 := Exec(session, o1.stream, b);
        if o2.Raised? then o2 else Exec(session, o2.stream, c)))
  {
    ListOneMore(session, s, [], a);
    ListOneMore(session, s, [a], b);
    ListOneMore(session, s, [a, b], c);
    assert [] + [a] == [a] && [a] + [b] == [a, b] && [a, b] + [c] == [a, b, c];
  }

  // ----- roles -----

  lemma Regroup(a: string, b: string, c: string, d: string)
    ensures a + (b + c + d) == a + b + c + d
  {
  }

  lemma EnterWrites(template: ChatTemplate, s: Stream, role: string)
    ensures var s1 := Enter(template, s, role);
      && s1.text == s.text + template.PrefixAndSuffix(role, s.messages).0 && s1.roleStart == Some(|s1.text|)
      && s1.messages == s.messages && s1.curRole == Some(role) && s1.variables == s.variables
  {
  }

  lemma LeaveWrites(template: ChatTemplate, s: Stream, role: string, start: nat)
    requires s.roleStart == Some(start) && start <= |s.text|
    ensures var s1 := Leave(template, s, role);
      && s1.text == s.text + template.PrefixAndSuffix(role, s.messages).1
      && s1.messages == s.messages + [Message(role, LStrip(s.text[start..]))]
      && s1.curRole.None? && s1.variables == s.variables
  {
  }

  /** From s to e a role has said w: it stands between the two texts of the role, and a message records it without
      leading spaces. */
  predicate HasTakenTurn(template: ChatTemplate, s: Stream, e: Stream, role: string, w: string)
  {
    var affixes := template.PrefixAndSuffix(role, s.messages);
    && e.text == s.text + (affixes.0 + w + affixes.1)
    && e.messages == s.messages + [Message(role, LStrip(w))] && e.curRole.None?
  }

  lemma LeftTurn(template: ChatTemplate, s: Stream, s1: Stream, s2: Stream, role: string)
    requires s1.text == s.text + template.PrefixAndSuffix(role, s.messages).0 && s1.text <= s2.text
    requires s2.roleStart == Some(|s1.text|) && s2.messages == s.messages
    ensures HasTakenTurn(template, s, Leave(template, s2, role), role, Written(s1, s2))
  {
    LeaveWrites(template, s2, role, |s1.text|);
    var affixes := template.PrefixAndSuffix(role, s.messages);
    assert s2.text == s1.text + Written(s1, s2);
    Regroup(s.text, affixes.0, Written(s1, s2), affixes.1);
  }

  lemma Opens(session: Session, s: Stream, role: string)
    requires s.curRole.None?
    ensures Exec(session, s, RoleBegin(role))
      == Done(Enter(session.template, WithDefault(session.template, s, role), role))
  {
  }

  lemma Closes(session: Session, s: Stream, role: string)
    ensures Exec(session, s, RoleEnd(role)) == Done(Leave(session.template, s, role))
  {
  }

  /** The three steps of a turn. */
  lemma TurnRuns(session: Session, s: Stream, role: string, body: Expr)
    requires s.curRole.None?
    ensures var o := Exec(session, Enter(session.template, WithDefault(session.template, s, role), role), body);
      ExecList(session, s, [RoleBegin(role), body, RoleEnd(role)])
      == if o.Done? then Done(Leave(session.template, o.stream, role)) else o
  {
    Opens(session, s, role);
    TurnRunsFrom(session, s, Exec(session, s, RoleBegin(role)).stream, role, body);
  }

  lemma TurnRunsFrom(session: Session, s: Stream, s1: Stream, role: string, body: Expr)
    requires Exec(session, s, RoleBegin(role)) == Done(s1)
    ensures var o := Exec(session, s1, body);
      ExecList(session, s, [RoleBegin(role), body, RoleEnd(role)])
      == if o.Done? then Done(Leave(session.template, o.stream, role)) else o
  {
    ThreeInARow(session, s, RoleBegin(role), body, RoleEnd(role));
    Closes(session, Exec(session, s1, body).stream, role);
  }

  /** A turn around any expression without roles says what the expression writes. */
  lemma TurnSaysItsText(session: Session, s: Stream, role: string, body: Expr)
    requires s.curRole.None? && !WantsDefault(session.template, s.messages, role) && NoRoles(body)
    ensures var s1 := Enter(session.template, s, role);
      var o := Exec(session, s1, body);
      var e := ExecList(session, s, [RoleBegin(role), body, RoleEnd(role)]);
      && s1.text <= o.stream.text
      && (o.Raised? ==> e == o)
      && (o.Done? ==> e.Done? && HasTakenTurn(session.template, s, e.stream, role, Written(s1, o.stream)))
  {
    TurnRuns(session, s, role, body);
    var s1 := Enter(session.template, s, role);
    EnterWrites(session.template, s, role);
    TextGrows(session, s1, body);
    RolesKept(session, s1, body);
    var o := Exec(session, s1, body);
    LeftTurn(session.template, s, s1, o.stream, role);
  }

  /** Roles do not nest. */
  lemma NestedRoleRaises(session: Session, s: Stream, role: string, body: Expr, inner: string)
    requires s.curRole.None? && NoRoles(body)
    ensures var s1 := Exec(session, s, RoleBegin(role)).stream;
      ExecList(session, s, [RoleBegin(role), body, RoleBegin(inner)]) == Raised(Exec(session, s1, body).stream)
  {
    ThreeInARow(session, s, RoleBegin(role), body, RoleBegin(inner));
    RolesKept(session, Exec(session, s, RoleBegin(role)).stream, body);
  }

  /** A turn of constant text. */
  function Turn(m: Message): seq<Expr>
  {
    [RoleBegin(m.role), Text(m.content), RoleEnd(m.role)]
  }

  function Conversation(turns: seq<Message>): seq<Expr>
  {
    if turns == [] then [] else Conversation(turns[..|turns| - 1]) + Turn(turns[|turns| - 1])
  }

  /** get_prompt, for messages that all have a content. */
  function Prompt(template: ChatTemplate, messages: seq<Message>): string
  {
    if messages == [] then ""
    else
      var n := |messages| - 1;
      var affixes := template.PrefixAndSuffix(messages[n].role, messages[..n]);
      Prompt(template, messages[..n]) + (affixes.0 + messages[n].content + affixes.1)
  }

  lemma PromptOneMore(template: ChatTemplate, messages: seq<Message>, m: Message)
    ensures var affixes := template.PrefixAndSuffix(m.role, messages);
      Prompt(template, messages + [m]) == Prompt(template, messages) + (affixes.0 + m.content + affixes.1)
  {
    assert (messages + [m])[..|messages|] == messages;
  }

  lemma Unadorned(x: string)
    ensures "" + x + "" == x
  {
  }

  /** Every ordinary turn is its text between the two texts of its role. */
  lemma OrdinaryTurn(template: ChatTemplate, messages: seq<Message>, m: Message)
    requires template.style.Plain? || |messages| >= 2 ||
      if messages == [] then m.role != "system" else m.role != "user"
    ensures Prompt(template, messages + [m]) == Prompt(template, messages) +
      if m.role in template.roles then template.roles[m.role].0 + m.content + template.roles[m.role].1 else m.content
  {
    PromptOneMore(template, messages, m);
    Unadorned(m.content);
  }

  /** In the style of Llama 2 a user message that comes second has no opening text. */
  lemma SecondIsUser(template: ChatTemplate, first: Message, usr: string)
    requires template.style.Llama2? && "user" in template.roles
    ensures Prompt(template, [first] + [Message("user", usr)])
      == Prompt(template, [first]) + usr + template.roles["user"].1
  {
    PromptOneMore(template, [first], Message("user", usr));
    Trailing(Prompt(template, [first]), usr, template.roles["user"].1);
  }

  lemma Trailing(a: string, b: string, c: string)
    ensures a + ("" + b + c) == a + b + c
  {
  }

  /** In the style of Llama 2 the opening text of the user comes before the system message. */
  lemma SystemInsideUser(template: ChatTemplate, sys: string, usr: string)
    requires template.style.Llama2? && "system" in template.roles && "user" in template.roles
    ensures var user, system := template.roles["user"], template.roles["system"];
      && Prompt(template, [Message("system", sys)]) == user.0 + system.0 + sys + system.1
      && Prompt(template, [Message("system", sys), Message("user", usr)])
          == user.0 + system.0 + sys + system.1 + usr + user.1
  {
    var first, second := Message("system", sys), Message("user", usr);
    PromptOneMore(template, [], first);
    PromptOneMore(template, [first], second);
    assert [] + [first] == [first] && [first] + [second] == [first, second];
  }

  /** The conversation with the default system message in front, if it is wanted. */
  function Started(template: ChatTemplate, turns: seq<Message>): seq<Message>
  {
    if turns != [] && turns[0].role != "system" && template.defaultSystem != "" then
      [Message("system", template.defaultSystem)] + turns
    else turns
  }

  function Stripped(turns: seq<Message>): (messages: seq<Message>)
    ensures |messages| == |turns|
    ensures forall i :: 0 <= i < |turns| ==> messages[i] == Message(turns[i].role, LStrip(turns[i].content))
  {
    seq(|turns|, i requires 0 <= i < |turns| => Message(turns[i].role, LStrip(turns[i].content)))
  }

  /** A stream that holds a conversation and has no open role. */
  predicate HasSaid(template: ChatTemplate, s: Stream, turns: seq<Message>)
  {
    s.curRole.None? && s.text == Prompt(template, turns) && s.messages == Stripped(turns)
  }

  lemma OneMoreTurn(session: Session, s: Stream, turns: seq<Message>, m: Message)
    requires HasSaid(session.template, s, turns)
    requires turns != [] || m.role == "system" || session.template.defaultSystem == ""
    ensures var o := ExecList(session, s, Turn(m));
      o.Done? && HasSaid(session.template, o.stream, turns + [m])
  {
    TurnSaysItsText(session, s, m.role, Text(m.content));
    EnterThenText(session.template, s, m);
    session.template.AffixesByLength(m.role, s.messages, turns);
    PromptOneMore(session.template, turns, m);
    StrippedOneMore(turns, m);
  }

  lemma EnterThenText(template: ChatTemplate, s: Stream, m: Message)
    ensures var s1 := Enter(template, s, m.role);
      s1.text <= Fill(s1, m.content).text && Written(s1, Fill(s1, m.content)) == m.content
  {
  }

  lemma StrippedOneMore(turns: seq<Message>, m: Message)
    ensures Stripped(turns + [m]) == Stripped(turns) + [Message(m.role, LStrip(m.content))]
  {
    var more := Stripped(turns) + [Message(m.role, LStrip(m.content))];
    forall i | 0 <= i < |turns| + 1 ensures Stripped(turns + [m])[i] == more[i] {
      assert (turns + [m])[i] == if i < |turns| then turns[i] else m;
    }
  }

  lemma ListSplits(session: Session, s: Stream, a: seq<Expr>, b: seq<Expr>)
    ensures ExecList(session, s, a + b) == (var o := ExecList(session, s, a);
      if o.Done? then ExecList(session, o.stream, b) else o)
    decreases |b|
  {
    if b == [] {
      assert a + b == a;
    } else {
      var n := |b| - 1;
      ListSplits(session, s, a, b[..n]);
      assert (a + b)[..|a + b| - 1] == a + b[..n];
    }
  }

  /** The default system message is a system turn in front of the first turn of another role. */
  lemma DefaultIsATurn(session: Session, s: Stream, m: Message)
    requires s.curRole.None? && WantsDefault(session.template, s.messages, m.role)
    ensures ExecList(session, s, Turn(m))
      == ExecList(session, s, Turn(Message("system", session.template.defaultSystem)) + Turn(m))
  {
    var sys := Message("system", session.template.defaultSystem);
    ListSplits(session, s, Turn(sys), Turn(m));
    SystemTurn(session, s, m.role);
    TurnRuns(session, s, m.role, Text(m.content));
    TurnRuns(session, WithDefault(session.template, s, m.role), m.role, Text(m.content));
  }

  lemma SystemTurn(session: Session, s: Stream, role: string)
    requires s.curRole.None? && WantsDefault(session.template, s.messages, role)
    ensures ExecList(session, s, Turn(Message("system", session.template.defaultSystem)))
      == Done(WithDefault(session.template, s, role))
  {
    TurnRuns(session, s, "system", Text(session.template.defaultSystem));
  }

  /** The first turn, with the default system message in front if it is wanted. */
  lemma FirstTurn(session: Session, m: Message)
    ensures var o := ExecList(session, EMPTY, Turn(m));
      o.Done? && HasSaid(session.template, o.stream, Started(session.template, [m]))
  {
    if WantsDefault(session.template, [], m.role) {
      var sys := Message("system", session.template.defaultSystem);
      DefaultIsATurn(session, EMPTY, m);
      ListSplits(session, EMPTY, Turn(sys), Turn(m));
      OneMoreTurn(session, EMPTY, [], sys);
      OneMoreTurn(session, ExecList(session, EMPTY, Turn(sys)).stream, [sys], m);
      assert [] + [sys] == [sys];
    } else {
      OneMoreTurn(session, EMPTY, [], m);
      assert [] + [m] == [m];
    }
  }

  lemma StartedOneMore(template: ChatTemplate, turns: seq<Message>, m: Message)
    requires turns != []
    ensures Started(template, turns + [m]) == Started(template, turns) + [m]
  {
  }

  /** Executing a conversation turn by turn writes the prompt that the template makes of the whole conversation, with
      the default system message in front, and records its messages. */
  lemma {:induction false} ConversationWritesPrompt(session: Session, turns: seq<Message>)
    ensures var o := ExecList(session, EMPTY, Conversation(turns));
      o.Done? && HasSaid(session.template, o.stream, Started(session.template, turns))
  {
    if turns == [] {
      NothingSaid(session.template);
    } else {
      var n := |turns| - 1;
      ConversationWritesPrompt(session, turns[..n]);
      LastApart(turns);
      TurnAdded(session, turns[..n], turns[n]);
    }
  }

  lemma LastApart(turns: seq<Message>)
    requires turns != []
    ensures turns == turns[..|turns| - 1] + [turns[|turns| - 1]]
  {
  }

  lemma NothingSaid(template: ChatTemplate)
    ensures HasSaid(template, EMPTY, [])
  {
  }

  lemma TurnAdded(session: Session, turns: seq<Message>, m: Message)
    requires var o := ExecList(session, EMPTY, Conversation(turns));
      o.Done? && HasSaid(session.template, o.stream, Started(session.template, turns))
    ensures var o := ExecList(session, EMPTY, Conversation(turns + [m]));
      o.Done? && HasSaid(session.template, o.stream, Started(session.template, turns + [m]))
  {
    assert (turns + [m])[..|turns|] == turns;
    ListSplits(session, EMPTY, Conversation(turns), Turn(m));
    if turns == [] {
      FirstTurn(session, m);
      assert turns + [m] == [m];
    } else {
      OneMoreTurn(session, ExecList(session, EMPTY, Conversation(turns)).stream, Started(session.template, turns), m);
      StartedOneMore(session.template, turns, m);
    }
  }

  /** One role of a template without a default system message. */
  lemma RoleWrites(session: Session, role: string, x: string)
    requires session.template.style.Plain? && session.template.defaultSystem == "" && role in session.template.roles
    ensures var o := ExecList(session, EMPTY, [RoleBegin(role), Text(x), RoleEnd(role)]);
      && o.Done? && o.stream.text == session.template.roles[role].0 + x + session.template.roles[role].1
      && o.stream.messages == [Message(role, LStrip(x))]
  {
    var m := Message(role, x);
    FirstTurn(session, m);
    OrdinaryTurn(session.template, [], m);
    assert [] + [m] == [m];
  }

  /** The first role of a template with a default system message. */
  lemma DefaultComesFirst(session: Session, role: string, x: string)
    requires session.template.style.Plain? && session.template.defaultSystem != "" && role != "system"
    requires "system" in session.template.roles && role in session.template.roles
    ensures var o := ExecList(session, EMPTY, [RoleBegin(role), Text(x), RoleEnd(role)]);
      var system, own := session.template.roles["system"], session.template.roles[role];
      && o.Done? && o.stream.text == system.0 + session.template.defaultSystem + system.1 + (own.0 + x + own.1)
      && o.stream.messages == [Message("system", LStrip(session.template.defaultSystem)), Message(role, LStrip(x))]
  {
    var sys, m := Message("system", session.template.defaultSystem), Message(role, x);
    FirstTurn(session, m);
    TwoOrdinaryTurns(session.template, sys, m);
  }

  lemma TwoOrdinaryTurns(template: ChatTemplate, a: Message, b: Message)
    requires template.style.Plain? && a.role in template.roles && b.role in template.roles
    ensures var first, second := template.roles[a.role], template.roles[b.role];
      Prompt(template, [a] + [b]) == first.0 + a.content + first.1 + (second.0 + b.content + second.1)
  {
    OrdinaryTurn(template, [], a);
    OrdinaryTurn(template, [a], b);
    assert [] + [a] == [a];
  }

  /** A system and a user turn in the style of Llama 2. */
  lemma SystemInsideUserWrites(session: Session, sys: string, usr: string)
    requires session.template.style.Llama2?
    requires "system" in session.template.roles && "user" in session.template.roles
    ensures var o := ExecList(session, EMPTY, Conversation([Message("system", sys), Message("user", usr)]));
      var user, system := session.template.roles["user"], session.template.roles["system"];
      o.Done? && o.stream.text == user.0 + system.0 + sys + system.1 + usr + user.1
  {
    ConversationWritesPrompt(session, [Message("system", sys), Message("user", usr)]);
    SystemInsideUser(session.template, sys, usr);
  }

  // ----- the speculation buffer -----

  /** Constant text that the buffer starts with is taken from it; any other text empties it. */
  lemma FillTakes(s: Stream, value: string, rest: string)
    ensures s.speculated == value + rest ==> Fill(s, value) == s.(text := s.text + value, speculated := rest)
    ensures !(value <= s.speculated) ==> Fill(s, value) == s.(text := s.text + value, speculated := "")
  {
    assert (value + rest)[|value|..] == rest;
  }

  /** Overrides win, and the stop strings of the template come on top; they cannot without any to add to. */
  lemma ResolveOverrides(session: Session, o: Overrides)
    ensures var p := Resolve(session, o);
      var stop := if o.stop.Some? then o.stop else session.defaults.stop;
      && (p.None? <==> session.template.stops != [] && stop.None?)
      && (p.Some? ==>
        && p.value.maxNewTokens
          == (if o.maxNewTokens.Some? then o.maxNewTokens.value else session.defaults.maxNewTokens)
        && p.value.stop.Some? == stop.Some?
        && (stop.Some? ==> forall x :: x in p.value.stop.value <==> x in stop.value || x in session.template.stops))
  {
  }

  /** A backend that answers nothing. */
  const SILENT := Backend((_, _) => None, (_, _) => None)

  /** Speculation spares the backend exactly when the buffer is long enough, or not empty if there are stop strings. */
  lemma BufferSparesBackend(session: Session, s: Stream, name: Option<string>, o: Overrides)
    requires session.speculation.Some? && Resolve(session, o).Some?
    ensures var p := Resolve(session, o).value;
      ExecGen(session.(backend := SILENT), s, name, o).Done? <==>
        if p.stop.None? then p.maxNewTokens <= |s.speculated| else s.speculated != ""
    ensures ExecGen(session.(backend := SILENT), s, name, o).Done? ==>
      ExecGen(session, s, name, o) == ExecGen(session.(backend := SILENT), s, name, o)
  {
  }

  /** A generation depends on the answer to one request only: for the text so far, with the resolved parameters, or
      under speculation without stop strings and for at least the speculated amount. */
  lemma OnlyOneRequest(session: Session, backend: Backend, s: Stream, name: Option<string>, o: Overrides)
    requires Resolve(session, o).Some?
    requires var p := Resolve(session, o).value;
      var k := if session.speculation.Some? then session.speculation.value else 0;
      var q := if session.speculation.None? then p
        else SamplingParams(if k < p.maxNewTokens then p.maxNewTokens else k, None);
      backend.generate(s.text, q) == session.backend.generate(s.text, q)
    ensures ExecGen(session.(backend := backend), s, name, o) == ExecGen(session, s, name, o)
  {
  }

  /** Without stop strings, speculation writes exactly as many characters as were asked for, or all there are. */
  lemma LimitIsReached(session: Session, s: Stream, name: Option<string>, o: Overrides)
    requires session.speculation.Some? && ExecGen(session, s, name, o).Done?
    requires Resolve(session, o).value.stop.None?
    ensures var p, r := Resolve(session, o).value, ExecGen(session, s, name, o).stream;
      && s.text <= r.text
      && if r.speculated != "" then |Written(s, r)| == p.maxNewTokens else |Written(s, r)| <= p.maxNewTokens
  {
    TextGrows(session, s, Gen(name, o));
  }

  /** No stop string begins in what a speculative generation writes, and what is left of the reply begins with one
      if any occurred in it. */
  lemma StopsAreRespected(session: Session, s: Stream, name: Option<string>, o: Overrides, stop: string)
    requires session.speculation.Some? && ExecGen(session, s, name, o).Done? && Resolve(session, o).value.stop.Some?
    requires stop in session.template.stops || (o.stop.Some? && stop in o.stop.value)
    ensures var r := ExecGen(session, s, name, o).stream;
      && s.text <= r.text
      && (forall i :: 0 <= i < |Written(s, r)| ==> !OccursAt(Written(s, r) + r.speculated, stop, i))
      && (forall i: nat {:trigger OccursAt(Written(s, r) + r.speculated, stop, i)} ::
        OccursAt(Written(s, r) + r.speculated, stop, i) ==>
        exists sub :: sub in Resolve(session, o).value.stop.value && OccursAt(r.speculated, sub, 0))
  {
    var p := Resolve(session, o).value;
    TextGrows(session, s, Gen(name, o));
    var buffer := BufferOf(session, s, p).value;
    var r := ExecGen(session, s, name, o).stream;
    var max := if NeedsBackend(s, p) then Regenerating(p, session.speculation.value).maxNewTokens else p.maxNewTokens;
    assert stop in p.stop.value;
    CutIsEarliest(buffer, p, max);
    CutApart(buffer, Cut(buffer, p, max), s.text);
  }

  lemma CutApart(buffer: string, cut: nat, text: string)
    requires cut <= |buffer|
    ensures (text + buffer[..cut])[|text|..] == buffer[..cut] && buffer[..cut] + buffer[cut..] == buffer
    ensures forall sub :: OccursAt(buffer, sub, cut) ==> OccursAt(buffer[cut..], sub, 0)
  {
    assert buffer[cut..][0..] == buffer[cut..];
  }

  /** A generation appends exactly what it stores, and touches nothing else but the buffer. */
  lemma GenStoresItsText(session: Session, s: Stream, name: Option<string>, o: Overrides)
    ensures var r := ExecGen(session, s, name, o);
      && (r.Raised? ==> r.stream == s)
      && (r.Done? ==>
        && s.text <= r.stream.text
        && r.stream == s.(text := r.stream.text, speculated := r.stream.speculated,
                          variables := s.variables[name := Str(Written(s, r.stream))]))
  {
    var r := ExecGen(session, s, name, o);
    if r.Done? {
      TextGrows(session, s, Gen(name, o));
      assert forall w: string :: (s.text + w)[|s.text|..] == w;
    }
  }

  /** So does a choice, if it has a name; it does not look at the buffer. */
  lemma ChoiceStoresItsText(session: Session, s: Stream, name: Option<string>, choices: seq<string>)
    ensures var r, answer := ExecSelect(session, s, name, choices), session.backend.choose(s.text, choices);
      && (answer.None? ==> r == Raised(s))
      && (answer.Some? ==>
        && r.Done? && r.stream.text == s.text + answer.value && r.stream.speculated == s.speculated
        && SameRole(s, r.stream)
        && r.stream.variables == if name.Some? then s.variables[name := Str(answer.value)] else s.variables)
  {
  }
}
