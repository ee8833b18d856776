/** Expressions of the front end, chat templates, and what a backend is asked for. */
module Lang {
  import opened Options

  /** stop lists the strings that end a completion. */
  datatype SamplingParams = SamplingParams(maxNewTokens: nat, stop: Option<seq<string>>)

  /** What a single generation overrides. */
  datatype Overrides = Overrides(maxNewTokens: Option<nat>, stop: Option<seq<string>>)

  datatype Expr =
    | Text(value: string)
    | Gen(name: Option<string>, overrides: Overrides)
    | Select(name: Option<string>, choices: seq<string>)
    | Exprs(list: seq<Expr>)
    | RoleBegin(role: string)
    | RoleEnd(role: string)
    | ScopeBegin(scope: string)
    | ScopeEnd(scope: string)
    | Argument(arg: string)

  datatype Message = Message(role: string, content: string)

  datatype Style = Plain | Llama2

  /** An empty default system prompt means that there is none. */
  datatype ChatTemplate = ChatTemplate(
    defaultSystem: string,
    roles: map<string, (string, string)>,
    stops: seq<string>,
    style: Style)
  {
    function Affixes(role: string): (string, string)
    {
      if role in roles then roles[role] else ("", "")
    }

    /** get_prefix_and_suffix, for histories whose messages all have a content. */
    function PrefixAndSuffix(role: string, history: seq<Message>): (string, string)
    {
      if style == Llama2 && role == "system" && history == [] then
        (Affixes("user").0 + Affixes("system").0, Affixes("system").1)
      else if style == Llama2 && role == "user" && |history| == 1 then
        ("", Affixes(role).1)
      else
        Affixes(role)
    }

    /** Only how many messages came before matters. */
    lemma AffixesByLength(role: string, h: seq<Message>, h': seq<Message>)
      requires |h| == |h'|
      ensures PrefixAndSuffix(role, h) == PrefixAndSuffix(role, h')
    {
    }
  }

  /** A backend answers from the text of the stream; None stands for an exception. */
  datatype Backend = Backend(
    generate: (string, SamplingParams) -> Option<string>,
    choose: (string, seq<string>) -> Option<string>)

  datatype Session = Session(
    backend: Backend,
    template: ChatTemplate,
    speculation: Option<nat>,
    defaults: SamplingParams)

  // ----- strings -----

  /** The characters that Python's str.lstrip removes. */
  predicate IsSpace(c: char)
  {
    || '\t' <= c <= '\r' || '\U{1C}' <= c <= ' ' || c == '\U{85}' || c == '\U{A0}' || c == '\U{1680}'
    || '\U{2000}' <= c <= '\U{200A}' || c == '\U{2028}' || c == '\U{2029}' || c == '\U{202F}'
    || c == '\U{205F}' || c == '\U{3000}'
  }

  function LStrip(s: string): string
  {
    if s != "" && IsSpace(s[0]) then LStrip(s[1..]) else s
  }

  /** Exactly the leading spaces are removed. */
  lemma {:induction false} LStripStrips(s: string)
    ensures |LStrip(s)| <= |s| && LStrip(s) == s[|s| - |LStrip(s)|..]
    ensures forall i :: 0 <= i < |s| - |LStrip(s)| ==> IsSpace(s[i])
    ensures LStrip(s) != "" ==> !IsSpace(LStrip(s)[0])
  {
    if s != "" && IsSpace(s[0]) {
      LStripStrips(s[1..]);
      assert forall i :: 1 <= i < |s| ==> s[i] == s[1..][i - 1];
    }
  }

  predicate OccursAt(s: string, sub: string, i: nat)
  {
    i <= |s| && sub <= s[i..]
  }

  /** str.find: the first place at or after from where sub occurs. */
  function FindFrom(s: string, sub: string, from: nat): (pos: Option<nat>)
    requires from <= |s|
    ensures pos.Some? ==> from <= pos.value <= |s| && OccursAt(s, sub, pos.value)
    ensures pos.Some? ==> forall i :: from <= i < pos.value ==> !OccursAt(s, sub, i)
    ensures pos.None? ==> forall i :: from <= i <= |s| ==> !OccursAt(s, sub, i)
    decreases |s| - from
  {
    if OccursAt(s, sub, from) then Some(from)
    else if from == |s| then None
    else FindFrom(s, sub, from + 1)
  }

  function Find(s: string, sub: string): Option<nat>
  {
    FindFrom(s, sub, 0)
  }

  /** pos is the earliest place where one of subs occurs; None when none of them does. */
  ghost predicate Earliest(s: string, subs: seq<string>, pos: Option<nat>)
  {
    && (pos.Some? ==> pos.value <= |s| && exists sub :: sub in subs && OccursAt(s, sub, pos.value))
    && forall sub, i: nat :: sub in subs && OccursAt(s, sub, i) ==> pos.Some? && pos.value <= i
  }

  function EarlierOf(a: Option<nat>, b: Option<nat>): Option<nat>
  {
    if b.Some? && (a.None? || b.value < a.value) then b else a
  }

  function FirstStop(s: string, subs: seq<string>): (pos: Option<nat>)
    ensures Earliest(s, subs, pos)
  {
    if subs == [] then None
    else
      var n := |subs| - 1;
      assert subs == subs[..n] + [subs[n]];
      StopSoFar(s, subs[..n], FirstStop(s, subs[..n]), subs[n]);
      EarlierOf(FirstStop(s, subs[..n]), Find(s, subs[n]))
  }

  lemma StopSoFar(s: string, subs: seq<string>, pos: Option<nat>, sub: string)
    requires Earliest(s, subs, pos)
    ensures Earliest(s, subs + [sub], EarlierOf(pos, Find(s, sub)))
  {
    var best := EarlierOf(pos, Find(s, sub));
    if best.Some? {
      if best == pos {
        var x :| x in subs && OccursAt(s, x, pos.value);
        assert x in subs + [sub];
      } else {
        assert sub in subs + [sub];
      }
    }
    forall x, i: nat | x in subs + [sub] && OccursAt(s, x, i) ensures best.Some? && best.value <= i {
      assert x in subs || x == sub;
    }
  }
}
