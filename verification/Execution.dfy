/** What executing an expression does to the state of a stream. */
module Execution {
  import opened Options
  import opened Lang

  /** A variable holds a string, or the start of a scope that is still open. */
  datatype Value = Str(str: string) | Start(pos: nat)

  datatype Stream = Stream(
    text: string,
    variables: map<Option<string>, Value>,
    messages: seq<Message>,
    curRole: Option<string>,
    roleStart: Option<nat>,
    speculated: string)

  /** An exception leaves the stream as it was when it was raised. */
  datatype Outcome = Done(stream: Stream) | Raised(stream: Stream)

  const EMPTY: Stream := Stream("", map[], [], None, None, "")

  /** The slice s[start:]. */
  function From(s: string, start: nat): string
  {
    if start <= |s| then s[start..] else ""
  }

  /** Constant text: a buffer that starts with it stays in use, any other buffer is dropped. */
  function Fill(s: Stream, value: string): Stream
  {
    s.(speculated := if value <= s.speculated then s.speculated[|value|..] else "", text := s.text + value)
  }

  function Enter(template: ChatTemplate, s: Stream, role: string): Stream
  {
    var s1 := Fill(s.(curRole := Some(role)), template.PrefixAndSuffix(role, s.messages).0);
    s1.(roleStart := Some(|s1.text|))
  }

  function Leave(template: ChatTemplate, s: Stream, role: string): Stream
  {
    var start := if s.roleStart.Some? then s.roleStart.value else 0;
    var s1 := Fill(s.(curRole := None), template.PrefixAndSuffix(role, s.messages).1);
    s1.(messages := s.messages + [Message(role, LStrip(From(s.text, start)))])
  }

  /** The first message other than a system message is preceded by the default system message. */
  predicate WantsDefault(template: ChatTemplate, messages: seq<Message>, role: string)
  {
    messages == [] && role != "system" && template.defaultSystem != ""
  }

  function WithDefault(template: ChatTemplate, s: Stream, role: string): Stream
  {
    if WantsDefault(template, s.messages, role) then
      Leave(template, Fill(Enter(template, s, "system"), template.defaultSystem), "system")
    else s
  }

  function OpenRole(template: ChatTemplate, s: Stream, role: string): Outcome
  {
    if s.curRole.Some? then Raised(s)
    else Done(Enter(template, WithDefault(template, s, role), role))
  }

  /** The parameters of a generation: defaults, overrides, and the stop strings of the template. */
  function Resolve(session: Session, o: Overrides): Option<SamplingParams>
  {
    var max := if o.maxNewTokens.Some? then o.maxNewTokens.value else session.defaults.maxNewTokens;
    var stop := if o.stop.Some? then o.stop else session.defaults.stop;
    if session.template.stops == [] then Some(SamplingParams(max, stop))
    else if stop.None? then None
    else Some(SamplingParams(max, Some(stop.value + session.template.stops)))
  }

  /** The parameters of a speculative backend call. */
  function Regenerating(p: SamplingParams, speculation: nat): SamplingParams
  {
    SamplingParams(if p.maxNewTokens < speculation then speculation else p.maxNewTokens, None)
  }

  /** The buffer has to be filled by the backend first. */
  predicate NeedsBackend(s: Stream, p: SamplingParams)
  {
    if p.stop.None? then |s.speculated| < p.maxNewTokens else s.speculated == ""
  }

  /** How much of the buffer completes the generation; max is the token limit in force. */
  function Cut(buffer: string, p: SamplingParams, max: nat): (cut: nat)
    ensures cut <= |buffer|
  {
    var limit := if max < |buffer| then max else |buffer|;
    if p.stop.None? then (if p.maxNewTokens < |buffer| then p.maxNewTokens else |buffer|)
    else
      var pos := FirstStop(buffer, p.stop.value);
      if pos.Some? then pos.value else limit
  }

  function Complete(s: Stream, name: Option<string>, buffer: string, cut: nat): Stream
    requires cut <= |buffer|
  {
    s.(text := s.text + buffer[..cut], speculated := buffer[cut..],
      variables := s.variables[name := Str(buffer[..cut])])
  }

  function ExecGen(session: Session, s: Stream, name: Option<string>, overrides: Overrides): Outcome
  {
    match Resolve(session, overrides)
    case None => Raised(s)
    case Some(p) =>
      if session.speculation.None? then
        match session.backend.generate(s.text, p)
        case None => Raised(s)
        case Some(reply) => Done(s.(text := s.text + reply, variables := s.variables[name := Str(reply)]))
      else if !NeedsBackend(s, p) then
        Done(Complete(s, name, s.speculated, Cut(s.speculated, p, p.maxNewTokens)))
      else
        var q := Regenerating(p, session.speculation.value);
        match session.backend.generate(s.text, q)
        case None => Raised(s)
        case Some(reply) => Done(Complete(s, name, reply, Cut(reply, p, q.maxNewTokens)))
  }

  function ExecSelect(session: Session, s: Stream, name: Option<string>, choices: seq<string>): Outcome
  {
    match session.backend.choose(s.text, choices)
    case None => Raised(s)
    case Some(decision) =>
      Done(s.(text := s.text + decision,
        variables := if name.Some? then s.variables[name := Str(decision)] else s.variables))
  }

  function OpenScope(s: Stream, name: string): Stream
  {
    s.(variables := s.variables[Some(name) := Start(|s.text|)])
  }

  function CloseScope(s: Stream, name: string): Outcome
  {
    if Some(name) in s.variables && s.variables[Some(name)].Start? then
      Done(s.(variables := s.variables[Some(name) := Str(From(s.text, s.variables[Some(name)].pos))]))
    else Raised(s)
  }

  function Exec(session: Session, s: Stream, e: Expr): Outcome
    decreases e
  {
    match e
    case Text(value) => Done(Fill(s, value))
    case Gen(name, overrides) => ExecGen(session, s, name, overrides)
    case Select(name, choices) => ExecSelect(session, s, name, choices)
    case Exprs(list) => ExecList(session, s, list)
    case RoleBegin(role) => OpenRole(session.template, s, role)
    case RoleEnd(role) => Done(Leave(session.template, s, role))
    case ScopeBegin(name) => Done(OpenScope(s, name))
    case ScopeEnd(name) => CloseScope(s, name)
    case Argument(_) => Raised(s)
  }

  function ExecList(session: Session, s: Stream, list: seq<Expr>): Outcome
    decreases list
  {
    if list == [] then Done(s)
    else
      var o := ExecList(session, s, list[..|list| - 1]);
      if o.Done? then Exec(session, o.stream, list[|list| - 1]) else o
  }

  lemma ListOneMore(session: Session, s: Stream, list: seq<Expr>, e: Expr)
    ensures ExecList(session, s, list + [e]) == (var o := ExecList(session, s, list);
      if o.Done? then Exec(session, o.stream, e) else o)
  {
    assert (list + [e])[..|list|] == list;
  }

  /** An exception in a list ends it. */
  lemma {:induction false} RaisedEarly(session: Session, s: Stream, list: seq<Expr>, n: nat)
    requires n <= |list| && ExecList(session, s, list[..n]).Raised?
    ensures ExecList(session, s, list) == ExecList(session, s, list[..n])
    decreases |list|
  {
    if n < |list| {
      var init := list[..|list| - 1];
      assert init[..n] == list[..n];
      RaisedEarly(session, s, init, n);
    } else {
      assert list[..n] == list;
    }
  }

  // ----- text only grows -----

  lemma RolesGrow(template: ChatTemplate, s: Stream, role: string)
    ensures s.text <= Enter(template, s, role).text
    ensures s.text <= Leave(template, s, role).text
    ensures s.text <= OpenRole(template, s, role).stream.text
  {
  }

  /** Whatever happens, nothing that was written is taken back. */
  lemma {:induction false} TextGrows(session: Session, s: Stream, e: Expr)
    ensures s.text <= Exec(session, s, e).stream.text
    decreases e
  {
    match e
    case Exprs(list) => ListGrows(session, s, list);
    case RoleBegin(role) => RolesGrow(session.template, s, role);
    case _ =>
  }

  lemma {:induction false} ListGrows(session: Session, s: Stream, list: seq<Expr>)
    ensures s.text <= ExecList(session, s, list).stream.text
    decreases list
  {
    if list != [] {
      var n := |list| - 1;
      ListGrows(session, s, list[..n]);
      var o := ExecList(session, s, list[..n]);
      if o.Done? { TextGrows(session, o.stream, list[n]); }
    }
  }

  // ----- speculation -----

  /** Text and buffer continue something the backend has written: reply, when it was asked at asked. */
  predicate Speculating(s: Stream, asked: string, reply: string)
  {
    s.speculated == "" || s.text + s.speculated == asked + reply
  }

  lemma Consumed(text: string, value: string, buffer: string)
    requires value <= buffer
    ensures text + value + buffer[|value|..] == text + buffer
  {
    assert buffer == value + buffer[|value|..];
  }

  lemma FillSpeculates(s: Stream, value: string, asked: string, reply: string)
    requires Speculating(s, asked, reply)
    ensures Speculating(Fill(s, value), asked, reply)
  {
    if value <= s.speculated { Consumed(s.text, value, s.speculated); }
  }

  lemma RolesSpeculate(template: ChatTemplate, s: Stream, role: string, asked: string, reply: string)
    requires Speculating(s, asked, reply)
    ensures Speculating(Enter(template, s, role), asked, reply)
    ensures Speculating(Leave(template, s, role), asked, reply)
  {
    var affixes := template.PrefixAndSuffix(role, s.messages);
    FillSpeculates(s.(curRole := Some(role)), affixes.0, asked, reply);
    FillSpeculates(s.(curRole := None), affixes.1, asked, reply);
  }

  lemma DefaultSpeculates(template: ChatTemplate, s: Stream, role: string, asked: string, reply: string)
    requires Speculating(s, asked, reply)
    ensures Speculating(WithDefault(template, s, role), asked, reply)
  {
    if WantsDefault(template, s.messages, role) {
      var s1 := Enter(template, s, "system");
      assert Speculating(s1, asked, reply) by { RolesSpeculate(template, s, "system", asked, reply); }
      var s2 := Fill(s1, template.defaultSystem);
      assert Speculating(s2, asked, reply) by { FillSpeculates(s1, template.defaultSystem, asked, reply); }
      RolesSpeculate(template, s2, "system", asked, reply);
    }
  }

  /** A completion and the buffer left behind are the buffer it was cut from. */
  lemma CutSpeculates(s: Stream, name: Option<string>, buffer: string, cut: nat, asked: string, reply: string)
    requires cut <= |buffer| && s.text + buffer == asked + reply
    ensures Speculating(Complete(s, name, buffer, cut), asked, reply)
    ensures Complete(s, name, buffer, cut).text <= asked + reply
  {
    Consumed(s.text, buffer[..cut], buffer);
  }

  lemma GenSpeculates(session: Session, s: Stream, name: Option<string>, o: Overrides, asked: string, reply: string)
    requires session.speculation.Some? && Speculating(s, asked, reply)
    ensures var p := Resolve(session, o);
      var r := ExecGen(session, s, name, o);
      if p.None? || r.Raised? then r.stream == s
      else if NeedsBackend(s, p.value) then
        var answer := session.backend.generate(s.text, Regenerating(p.value, session.speculation.value));
        answer.Some? && Speculating(r.stream, s.text, answer.value) && r.stream.text <= s.text + answer.value
      else Speculating(r.stream, asked, reply) && (s.speculated != "" ==> r.stream.text <= asked + reply)
  {
    var p := Resolve(session, o);
    if p.Some? {
      if NeedsBackend(s, p.value) {
        var q := Regenerating(p.value, session.speculation.value);
        var answer := session.backend.generate(s.text, q);
        if answer.Some? {
          CutSpeculates(s, name, answer.value, Cut(answer.value, p.value, q.maxNewTokens), s.text, answer.value);
        }
      } else if s.speculated != "" {
        CutSpeculates(s, name, s.speculated, Cut(s.speculated, p.value, p.value.maxNewTokens), asked, reply);
      }
    }
  }

  /** A choice bypasses the buffer: it stays valid exactly when it is empty or nothing is chosen. */
  lemma SelectSpeculates(session: Session, s: Stream, name: Option<string>, choices: seq<string>, asked: string,
                         reply: string)
    requires Speculating(s, asked, reply)
    ensures var decision := session.backend.choose(s.text, choices);
      Speculating(ExecSelect(session, s, name, choices).stream, asked, reply) <==>
      s.speculated == "" || decision.None? || decision.value == ""
  {
    var decision := session.backend.choose(s.text, choices);
    if decision.Some? && s.speculated != "" {
      assert |s.text + decision.value + s.speculated| == |asked + reply| + |decision.value|;
      assert decision.value == "" ==> s.text + decision.value == s.text;
    }
  }

  /** A generation, a choice and a generation: the second generation writes what was left of a reply to another text. */
  lemma ChoiceGoesStale(session: Session, name: Option<string>)
    requires session == Session(Backend((_, _) => Some("abcd"), (_, _) => Some("Z")),
      ChatTemplate("", map[], [], Plain), Some(4), SamplingParams(2, None))
    ensures var gen, choice := Gen(name, Overrides(None, None)), Select(name, ["Z"]);
      var s := ExecList(session, EMPTY, [gen, choice]).stream;
      && !Speculating(s, "", "abcd")
      && ExecList(session, EMPTY, [gen, choice, gen]).stream.text == "abZcd"
  {
    var gen, choice := Gen(name, Overrides(None, None)), Select(name, ["Z"]);
    assert "abcd"[..2] == "ab" && "abcd"[2..] == "cd" && "cd"[..2] == "cd";
    var s1 := Exec(session, EMPTY, gen).stream;
    assert s1.text == "ab" && s1.speculated == "cd";
    var s2 := Exec(session, s1, choice).stream;
    assert s2.text == "abZ" && s2.speculated == "cd";
    ListOneMore(session, EMPTY, [], gen);
    ListOneMore(session, EMPTY, [gen], choice);
    ListOneMore(session, EMPTY, [gen, choice], gen);
    assert [] + [gen] == [gen] && [gen] + [choice] == [gen, choice] && [gen, choice] + [gen] == [gen, choice, gen];
  }

  /** A completion ends where the first stop string begins, and contains none; without stop strings it ends at the
      limit that was asked for. */
  lemma CutIsEarliest(buffer: string, p: SamplingParams, max: nat)
    ensures var cut := Cut(buffer, p, max);
      if p.stop.None? then cut <= p.maxNewTokens && (cut < p.maxNewTokens ==> cut == |buffer|)
      else if exists sub, i: nat :: sub in p.stop.value && OccursAt(buffer, sub, i) then
        && (exists sub :: sub in p.stop.value && OccursAt(buffer, sub, cut))
        && forall sub, i: nat :: sub in p.stop.value && OccursAt(buffer, sub, i) ==> cut <= i
      else cut == if max < |buffer| then max else |buffer|
  {
    assert p.stop.Some? ==> Earliest(buffer, p.stop.value, FirstStop(buffer, p.stop.value));
  }

  /** The buffer that a generation is cut from: the backend's reply if it is asked, and what was left otherwise. */
  function BufferOf(session: Session, s: Stream, p: SamplingParams): Option<string>
    requires session.speculation.Some?
  {
    if NeedsBackend(s, p) then session.backend.generate(s.text, Regenerating(p, session.speculation.value))
    else Some(s.speculated)
  }

  /** No stop strings were asked for, or the first one comes in time, or there is none and the buffer is short enough
      or was cut at the requested limit. */
  predicate EndsInTime(s: Stream, p: SamplingParams, speculation: nat, buffer: string)
  {
    p.stop.None? ||
      match FirstStop(buffer, p.stop.value)
      case Some(pos) => pos <= p.maxNewTokens
      case None => !NeedsBackend(s, p) || |buffer| <= p.maxNewTokens || speculation <= p.maxNewTokens
  }

  /** A speculative generation keeps the requested limit, counted in characters, exactly when its buffer ends in
      time. */
  lemma LimitIsKept(session: Session, s: Stream, name: Option<string>, o: Overrides)
    requires session.speculation.Some? && ExecGen(session, s, name, o).Done?
    ensures var p := Resolve(session, o);
      && p.Some? && BufferOf(session, s, p.value).Some?
      && (|ExecGen(session, s, name, o).stream.text| <= |s.text| + p.value.maxNewTokens <==>
          EndsInTime(s, p.value, session.speculation.value, BufferOf(session, s, p.value).value))
  {
    var p := Resolve(session, o).value;
    var buffer := BufferOf(session, s, p).value;
    var max := if NeedsBackend(s, p) then Regenerating(p, session.speculation.value).maxNewTokens else p.maxNewTokens;
    var cut := Cut(buffer, p, max);
    assert ExecGen(session, s, name, o).stream == Complete(s, name, buffer, cut);
    assert cut <= p.maxNewTokens <==> EndsInTime(s, p, session.speculation.value, buffer);
  }

  /** A backend that always says the same, asked for at most one token up to "S". */
  function OneTokenUpToS(answer: string, speculation: nat): Session
  {
    Session(Backend((_, _) => Some(answer), (_, _) => None), ChatTemplate("", map[], [], Plain), Some(speculation),
      SamplingParams(1, Some(["S"])))
  }

  lemma WhereSOccurs(buffer: string, i: nat)
    ensures OccursAt(buffer, "S", i) <==> i < |buffer| && buffer[i] == 'S'
  {
    assert i < |buffer| ==> buffer[i..][0] == buffer[i];
    assert i < |buffer| && buffer[i] == 'S' ==> buffer[i..][..1] == "S";
  }

  /** The first stop string is the first 'S'. */
  lemma FirstS(buffer: string, pos: nat)
    requires pos <= |buffer| && (pos < |buffer| ==> buffer[pos] == 'S') && forall i :: 0 <= i < pos ==> buffer[i] != 'S'
    ensures FirstStop(buffer, ["S"]) == if pos < |buffer| then Some(pos) else None
  {
    var first := if pos < |buffer| then Some(pos) else None;
    assert Earliest(buffer, ["S"], first) by {
      WhereSOccurs(buffer, pos);
      assert pos < |buffer| ==> "S" in ["S"] && OccursAt(buffer, "S", pos);
      forall sub, i: nat | sub in ["S"] && OccursAt(buffer, sub, i) ensures first.Some? && first.value <= i {
        WhereSOccurs(buffer, i);
      }
    }
    EarliestIsUnique(buffer, ["S"], first, FirstStop(buffer, ["S"]));
  }

  lemma EarliestIsUnique(s: string, subs: seq<string>, a: Option<nat>, b: Option<nat>)
    requires Earliest(s, subs, a) && Earliest(s, subs, b)
    ensures a == b
  {
  }

  /** Limits that are not kept: a reply, or what was left of one, goes beyond the limit before it stops. */
  lemma LimitIsExceeded(s: Stream, name: Option<string>)
    ensures var session, o := OneTokenUpToS("abcS", 1), Overrides(None, None);
      && (s.speculated == "" ==> ExecGen(session, s, name, o).stream.text == s.text + "abc")
      && (s.speculated == "abcS" ==> ExecGen(session, s, name, o).stream.text == s.text + "abc")
  {
    FirstS("abcS", 3);
    assert "abcS"[..3] == "abc";
  }

  /** The limit is raised to the speculated amount when the reply has no stop string. */
  lemma LimitIsRaised(s: Stream, name: Option<string>)
    requires s.speculated == ""
    ensures ExecGen(OneTokenUpToS("abc", 3), s, name, Overrides(None, None)).stream.text == s.text + "abc"
  {
    FirstS("abc", 3);
    assert "abc"[..3] == "abc";
  }

  predicate NoSelect(e: Expr)
    decreases e
  {
    match e
    case Select(_, _) => false
    case Exprs(list) => forall i :: 0 <= i < |list| ==> NoSelect(list[i])
    case _ => true
  }

  /** A speculative backend call. */
  datatype Call = Call(asked: string, reply: string)

  /** The last call when a generation has been executed; c is the last one before it. */
  function GenCall(session: Session, s: Stream, o: Overrides, c: Call): Call
    requires session.speculation.Some?
  {
    var p := Resolve(session, o);
    if p.Some? && NeedsBackend(s, p.value) then
      var answer := session.backend.generate(s.text, Regenerating(p.value, session.speculation.value));
      if answer.Some? then Call(s.text, answer.value) else c
    else c
  }

  /** The last call when e has been executed. */
  function LastCall(session: Session, s: Stream, e: Expr, c: Call): Call
    requires session.speculation.Some?
    decreases e
  {
    match e
    case Gen(_, overrides) => GenCall(session, s, overrides, c)
    case Exprs(list) => LastCallOf(session, s, list, c)
    case _ => c
  }

  function LastCallOf(session: Session, s: Stream, list: seq<Expr>, c: Call): Call
    requires session.speculation.Some?
    decreases list
  {
    if list == [] then c
    else
      var n := |list| - 1;
      var o := ExecList(session, s, list[..n]);
      var c1 := LastCallOf(session, s, list[..n], c);
      if o.Done? then LastCall(session, o.stream, list[n], c1) else c1
  }

  /** After an exception nothing in a list calls the backend. */
  lemma {:induction false} NoCallAfter(session: Session, s: Stream, list: seq<Expr>, n: nat, c: Call)
    requires session.speculation.Some? && n <= |list| && ExecList(session, s, list[..n]).Raised?
    ensures LastCallOf(session, s, list, c) == LastCallOf(session, s, list[..n], c)
    decreases |list|
  {
    if n < |list| {
      var init := list[..|list| - 1];
      assert init[..n] == list[..n];
      NoCallAfter(session, s, init, n, c);
      RaisedEarly(session, s, init, n);
    } else {
      assert list[..n] == list;
    }
  }

  /** The buffer continues the reply to c. */
  predicate Continues(s: Stream, c: Call)
  {
    Speculating(s, c.asked, c.reply)
  }

  lemma OpenRoleSpeculates(template: ChatTemplate, s: Stream, role: string, asked: string, reply: string)
    requires Speculating(s, asked, reply)
    ensures Speculating(OpenRole(template, s, role).stream, asked, reply)
  {
    if s.curRole.None? {
      DefaultSpeculates(template, s, role, asked, reply);
      RolesSpeculate(template, WithDefault(template, s, role), role, asked, reply);
    }
  }

  lemma SameTextSpeculates(s: Stream, s': Stream, asked: string, reply: string)
    requires Speculating(s, asked, reply) && s'.text == s.text && s'.speculated == s.speculated
    ensures Speculating(s', asked, reply)
  {
  }

  lemma ScopesSpeculate(session: Session, s: Stream, e: Expr, asked: string, reply: string)
    requires Speculating(s, asked, reply) && (e.ScopeBegin? || e.ScopeEnd? || e.Argument?)
    ensures Speculating(Exec(session, s, e).stream, asked, reply)
  {
    SameTextSpeculates(s, Exec(session, s, e).stream, asked, reply);
  }

  /** Constant text, roles and scopes. */
  lemma PlainSpeculates(session: Session, s: Stream, e: Expr, asked: string, reply: string)
    requires Speculating(s, asked, reply) && !e.Gen? && !e.Select? && !e.Exprs?
    ensures Speculating(Exec(session, s, e).stream, asked, reply)
  {
    if e.Text? {
      FillSpeculates(s, e.value, asked, reply);
    } else if e.RoleBegin? {
      OpenRoleSpeculates(session.template, s, e.role, asked, reply);
    } else if e.RoleEnd? {
      RolesSpeculate(session.template, s, e.role, asked, reply);
    } else {
      ScopesSpeculate(session, s, e, asked, reply);
    }
  }

  /** Through any expression without choices, text and buffer remain the text at the last backend call and its reply. */
  lemma {:induction false} ExecContinues(session: Session, s: Stream, e: Expr, c: Call)
    requires session.speculation.Some? && NoSelect(e) && Continues(s, c)
    ensures Continues(Exec(session, s, e).stream, LastCall(session, s, e, c))
    decreases e
  {
    if e.Gen? {
      GenSpeculates(session, s, e.name, e.overrides, c.asked, c.reply);
    } else if e.Exprs? {
      ListContinues(session, s, e.list, c);
    } else {
      PlainSpeculates(session, s, e, c.asked, c.reply);
    }
  }

  lemma {:induction false} ListContinues(session: Session, s: Stream, list: seq<Expr>, c: Call)
    requires session.speculation.Some? && Continues(s, c) && forall i :: 0 <= i < |list| ==> NoSelect(list[i])
    ensures Continues(ExecList(session, s, list).stream, LastCallOf(session, s, list, c))
    decreases list
  {
    if list != [] {
      var n := |list| - 1;
      ListContinues(session, s, list[..n], c);
      var o := ExecList(session, s, list[..n]);
      if o.Done? { ExecContinues(session, o.stream, list[n], LastCallOf(session, s, list[..n], c)); }
    }
  }
}
