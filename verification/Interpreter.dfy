/** The stream executor. */
module Interpreter {
  import opened Options
  import opened Lang
  import opened Execution

  class StreamExecutor {
    const session: Session
    var text: string
    var variables: map<Option<string>, Value>
    var messages: seq<Message>
    var curRole: Option<string>
    var roleStart: Option<nat>
    var speculated: string
    /** The text at the last speculative backend call, and the reply. */
    ghost var asked: string
    ghost var reply: string

    constructor (session: Session)
      ensures this.session == session && State() == EMPTY && Consistent()
    {
      this.session := session;
      text, variables, messages, curRole, roleStart, speculated := "", map[], [], None, None, "";
      asked, reply := "", "";
    }

    ghost function State(): Stream
      reads this
    {
      Stream(text, variables, messages, curRole, roleStart, speculated)
    }

    ghost function Last(): Call
      reads this
    {
      Call(asked, reply)
    }

    /** The buffer continues the text as the backend did when it was last asked. */
    ghost predicate Consistent()
      reads this
    {
      Speculating(State(), asked, reply)
    }

    method ExecuteFill(value: string)
      modifies `text, `speculated
      ensures State() == Fill(old(State()), value)
      ensures old(Consistent()) ==> Consistent()
    {
      if Consistent() { FillSpeculates(State(), value, asked, reply); }
      if value <= speculated {
        speculated := speculated[|value|..];
      } else {
        speculated := "";
      }
      text := text + value;
    }

    method Begin(role: string)
      modifies this
      ensures State() == Enter(session.template, old(State()), role)
      ensures old(Consistent()) ==> Consistent()
      ensures asked == old(asked) && reply == old(reply)
    {
      curRole := Some(role);
      var affixes := session.template.PrefixAndSuffix(role, messages);
      ExecuteFill(affixes.0);
      roleStart := Some(|text|);
    }

    method ExecuteRoleEnd(role: string)
      modifies this
      ensures State() == Leave(session.template, old(State()), role)
      ensures old(Consistent()) ==> Consistent()
      ensures asked == old(asked) && reply == old(reply)
    {
      curRole := None;
      var content := LStrip(From(text, if roleStart.Some? then roleStart.value else 0));
      var affixes := session.template.PrefixAndSuffix(role, messages);
      ghost var s := State();
      ExecuteFill(affixes.1);
      assert State() == Fill(s, affixes.1);
      messages := messages + [Message(role, content)];
    }

    /** Opening a role inside another one raises. */
    method ExecuteRoleBegin(role: string) returns (ok: bool)
      modifies this
      ensures OpenRole(session.template, old(State()), role) == if ok then Done(State()) else Raised(State())
      ensures old(Consistent()) ==> Consistent()
      ensures asked == old(asked) && reply == old(reply)
    {
      if curRole.Some? {
        return false;
      }
      if messages == [] && role != "system" && session.template.defaultSystem != "" {
        Begin("system");
        ExecuteFill(session.template.defaultSystem);
        ExecuteRoleEnd("system");
      }
      Begin(role);
      return true;
    }

    /** find_stop: the earliest stop string in the buffer. */
    method FindStop(stops: seq<string>) returns (pos: Option<nat>)
      ensures pos == FirstStop(speculated, stops)
    {
      pos := None;
      for i := 0 to |stops|
        invariant pos == FirstStop(speculated, stops[..i])
      {
        assert stops[..i + 1][..i] == stops[..i];
        var stopPos := Find(speculated, stops[i]);
        if stopPos.Some? && (pos.None? || stopPos.value < pos.value) {
          pos := stopPos;
        }
      }
      assert stops[..|stops|] == stops;
    }

    /** regen: the buffer becomes a new reply of the backend. */
    method Regenerate(p: SamplingParams) returns (ok: bool, max: nat)
      requires session.speculation.Some?
      modifies `speculated, `asked, `reply
      ensures var q := Regenerating(p, session.speculation.value);
        var answer := session.backend.generate(text, q);
        && max == q.maxNewTokens && (ok <==> answer.Some?)
        && (ok ==> speculated == answer.value && asked == text && reply == answer.value)
        && (!ok ==> speculated == old(speculated) && asked == old(asked) && reply == old(reply))
    {
      max := if p.maxNewTokens < session.speculation.value then session.speculation.value else p.maxNewTokens;
      var answer := session.backend.generate(text, SamplingParams(max, None));
      ok := answer.Some?;
      if ok {
        speculated := answer.value;
        asked, reply := text, answer.value;
      }
    }

    /** _spec_gen: the completion is cut from the buffer, which the backend fills first if need be. */
    method SpecGen(p: SamplingParams) returns (ok: bool, completion: string)
      requires session.speculation.Some?
      modifies `speculated, `asked, `reply
      ensures ok <==>
        !(old(NeedsBackend(State(), p)) &&
          session.backend.generate(text, Regenerating(p, session.speculation.value)).None?)
      ensures !ok ==> State() == old(State())
      ensures Last() == if ok && old(NeedsBackend(State(), p))
        then Call(text, session.backend.generate(text, Regenerating(p, session.speculation.value)).value)
        else old(Last())
      ensures ok ==> completion + speculated == CutFrom(old(State()), p).0 && |completion| == CutFrom(old(State()), p).1
      ensures ok && old(Consistent()) ==>
        text + completion + speculated == asked + reply || completion + speculated == ""
    {
      var max := p.maxNewTokens;
      if (if p.stop.None? then |speculated| < p.maxNewTokens else speculated == "") {
        ok, max := Regenerate(p);
        if !ok {
          return false, "";
        }
      }
      var cut := WhereToCut(p, max);
      ok := true;
      completion := TakeFromBuffer(cut);
    }

    /** Where the buffer is cut: at the token limit, or at the first stop string if there is one. */
    method WhereToCut(p: SamplingParams, max: nat) returns (cut: nat)
      ensures cut == Cut(speculated, p, max)
    {
      if p.stop.None? {
        cut := if p.maxNewTokens < |speculated| then p.maxNewTokens else |speculated|;
      } else {
        var pos := FindStop(p.stop.value);
        cut := if pos.Some? then pos.value else if max < |speculated| then max else |speculated|;
      }
    }

    method TakeFromBuffer(cut: nat) returns (completion: string)
      requires cut <= |speculated|
      modifies `speculated
      ensures completion + speculated == old(speculated) && |completion| == cut
      ensures text + completion + speculated == text + old(speculated)
    {
      completion := speculated[..cut];
      assert speculated == speculated[..cut] + speculated[cut..];
      assert text + speculated[..cut] + speculated[cut..] == text + speculated;
      speculated := speculated[cut..];
    }

    /** The buffer that a speculative generation cuts from, and where. */
    ghost function CutFrom(s: Stream, p: SamplingParams): (string, nat)
      requires session.speculation.Some?
    {
      if NeedsBackend(s, p) then
        var q := Regenerating(p, session.speculation.value);
        var answer := session.backend.generate(s.text, q);
        if answer.Some? then (answer.value, Cut(answer.value, p, q.maxNewTokens)) else ("", 0)
      else (s.speculated, Cut(s.speculated, p, p.maxNewTokens))
    }

    method ExecuteGen(name: Option<string>, overrides: Overrides) returns (ok: bool)
      modifies this
      ensures ExecGen(session, old(State()), name, overrides) == if ok then Done(State()) else Raised(State())
      ensures session.speculation.Some? ==> Last() == GenCall(session, old(State()), overrides, old(Last()))
      ensures session.speculation.Some? && old(Consistent()) ==> Consistent()
    {
      var params := Resolve(session, overrides);
      if params.None? {
        return false;
      }
      var completion;
      if session.speculation.None? {
        var answer := session.backend.generate(text, params.value);
        if answer.None? {
          return false;
        }
        completion := answer.value;
      } else {
        ok, completion := SpecGen(params.value);
        if !ok {
          return;
        }
        assert (completion + speculated)[..|completion|] == completion;
        assert (completion + speculated)[|completion|..] == speculated;
      }
      text := text + completion;
      variables := variables[name := Str(completion)];
      ok := true;
    }

    method ExecuteSelect(name: Option<string>, choices: seq<string>) returns (ok: bool)
      modifies this
      ensures ExecSelect(session, old(State()), name, choices) == if ok then Done(State()) else Raised(State())
      ensures asked == old(asked) && reply == old(reply)
    {
      var decision := session.backend.choose(text, choices);
      if decision.None? {
        return false;
      }
      if name.Some? {
        variables := variables[name := Str(decision.value)];
      }
      text := text + decision.value;
      ok := true;
    }

    method ExecuteScopeBegin(name: string)
      modifies `variables
      ensures State() == OpenScope(old(State()), name)
    {
      variables := variables[Some(name) := Start(|text|)];
    }

    method ExecuteScopeEnd(name: string) returns (ok: bool)
      modifies `variables
      ensures CloseScope(old(State()), name) == if ok then Done(State()) else Raised(State())
    {
      ok := Some(name) in variables && variables[Some(name)].Start?;
      if ok {
        variables := variables[Some(name) := Str(From(text, variables[Some(name)].pos))];
      }
    }

    /** _execute: ok is false when an exception was raised. */
    method Execute(e: Expr) returns (ok: bool)
      modifies this
      ensures Exec(session, old(State()), e) == if ok then Done(State()) else Raised(State())
      ensures session.speculation.Some? ==> Last() == LastCall(session, old(State()), e, old(Last()))
      ensures session.speculation.Some? && NoSelect(e) && old(Consistent()) ==> Consistent()
      decreases e
    {
      ok := true;
      match e
      case Text(value) => ExecuteFill(value);
      case Gen(name, overrides) => ok := ExecuteGen(name, overrides);
      case Select(name, choices) => ok := ExecuteSelect(name, choices);
      case Exprs(list) => ok := ExecuteAll(list);
      case RoleBegin(role) => ok := ExecuteRoleBegin(role);
      case RoleEnd(role) => ExecuteRoleEnd(role);
      case ScopeBegin(name) => ExecuteScopeBegin(name);
      case ScopeEnd(name) => ok := ExecuteScopeEnd(name);
      case Argument(_) => ok := false;
    }

    method ExecuteAll(list: seq<Expr>) returns (ok: bool)
      modifies this
      ensures ExecList(session, old(State()), list) == if ok then Done(State()) else Raised(State())
      ensures session.speculation.Some? ==> Last() == LastCallOf(session, old(State()), list, old(Last()))
      ensures session.speculation.Some? && NoSelect(Exprs(list)) && old(Consistent()) ==> Consistent()
      decreases list
    {
      for i := 0 to |list|
        invariant ExecList(session, old(State()), list[..i]) == Done(State())
        invariant session.speculation.Some? ==> Last() == LastCallOf(session, old(State()), list[..i], old(Last()))
        invariant session.speculation.Some? && NoSelect(Exprs(list)) && old(Consistent()) ==> Consistent()
      {
        assert list[..i + 1][..i] == list[..i];
        ok := Execute(list[i]);
        if !ok {
          RaisedEarly(session, old(State()), list, i + 1);
          if session.speculation.Some? { NoCallAfter(session, old(State()), list, i + 1, old(Last())); }
          return;
        }
      }
      assert list[..|list|] == list;
      ok := true;
    }
  }
}
