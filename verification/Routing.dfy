/** Which worker a request is sent to, in terms of what the tree and the counters say. */
module Routing {
  import opened Collections
  import opened Prefixes
  import opened RadixSpec
  import opened RadixSteps
  import opened RadixRuns
  import opened LoadBound

  /** The share of text that was found exceeds the threshold; nothing is found of an empty text. */
  predicate Above(found: nat, text: nat, threshold: real)
  {
    found as real > threshold * text as real
  }

  /** w is chosen by the contents of the tree. */
  ghost predicate CacheChoice(M: Nodes, C: map<Tenant, nat>, text: string, threshold: real, w: string)
  {
    exists found, path :: ByMatch(M, C, text, threshold, w, found, path)
  }

  /** The longest match decides when it is long enough, and the smallest share of the tree otherwise. */
  ghost predicate ByMatch(M: Nodes, C: map<Tenant, nat>, text: string, threshold: real, w: string, found: string,
                          path: string)
  {
    && LongestSpelled(M.Keys, text, found) && Covers(M.Keys, path, found)
    && if Above(|found|, |text|, threshold) then (if M[path] == map[] then w == "empty" else w in M[path])
       else Smallest(C, w)
  }

  /** Enough of text is in the tree to follow the match. */
  ghost predicate CloseMatch(M: Nodes, text: string, threshold: real)
  {
    exists found :: LongestSpelled(M.Keys, text, found) && Above(|found|, |text|, threshold)
  }

  /** When a choice by the tree is a known worker. */
  ghost predicate Choosable(M: Nodes, C: map<Tenant, nat>, text: string, threshold: real)
  {
    C != map[] && (CloseMatch(M, text, threshold) || (exists u :: u in C && C[u] < USIZE_MAX) || "empty" in C)
  }

  /** w now holds every prefix of text, and nothing else differs in who holds what. */
  ghost predicate NowHolds(M: Nodes, M': Nodes, w: string, text: string)
  {
    && Branching(M.Keys) && Branching(M'.Keys)
    && forall u, s :: u in View(M', s) <==> u in View(M, s) || (u == w && s <= text)
  }

  lemma InsertedHolds(M: Nodes, text: string, w: string, now: Time, M': Nodes)
    requires Owned(M) && Step(M, Insert(text, w, now), M')
    ensures NowHolds(M, M', w, text)
  {
    forall u, s ensures u in View(M', s) <==> u in View(M, s) || (u == w && s <= text) {
      StepHolders(M, Insert(text, w, now), M', u, s);
    }
  }

  /** The known workers hold the empty text, and nobody holds anything else. */
  ghost predicate OnlyKnown(M: Nodes, known: set<string>)
  {
    Branching(M.Keys) && forall u, s :: u in View(M, s) <==> u in known && s == ""
  }

  lemma NobodyKnown()
    ensures OnlyKnown(map["" := map[]], {})
  {
    var M: Nodes := map["" := map[]];
    MeetUnique("", "", "");
    forall u, s ensures u !in View(M, s) {
      var c := CoverOrNone(M, s);
      if Spelled(M.Keys, s) { ViewIs(M, c, s); }
    }
  }

  lemma OneMoreKnown(M: Nodes, known: set<string>, w: string, M': Nodes)
    requires OnlyKnown(M, known) && NowHolds(M, M', w, "")
    ensures OnlyKnown(M', known + {w})
  {
    forall u, s ensures u in View(M', s) <==> u in known + {w} && s == "" {
      assert u in View(M', s) <==> u in View(M, s) || (u == w && s <= "");
      assert u in View(M, s) <==> u in known && s == "";
      assert s <= "" <==> s == "";
    }
  }

  ghost predicate SameHolders(M: Nodes, M': Nodes)
  {
    && Branching(M.Keys) && Branching(M'.Keys)
    && forall u, s :: u in View(M', s) <==> u in View(M, s)
  }

  lemma MatchMovesNobody(M: Nodes, text: string, now: Time, M': Nodes)
    requires Owned(M) && Step(M, Match(text, now), M')
    ensures SameHolders(M, M')
  {
    StepKeeps(M, Match(text, now), M');
    forall u, s ensures u in View(M', s) <==> u in View(M, s) {
      StepHolders(M, Match(text, now), M', u, s);
    }
  }

  lemma NobodyMoved(M: Nodes)
    requires Owned(M)
    ensures SameHolders(M, M)
  {
  }

  lemma HoldsAfterAll(M: Nodes, M1: Nodes, M2: Nodes, w: string, text: string)
    requires SameHolders(M, M1) && NowHolds(M1, M2, w, text)
    ensures NowHolds(M, M2, w, text)
  {
  }

  lemma IsChoice(M: Nodes, C: map<Tenant, nat>, text: string, threshold: real, w: string, found: string, path: string)
    requires ByMatch(M, C, text, threshold, w, found, path)
    ensures CacheChoice(M, C, text, threshold, w)
  {
  }

  lemma LongestIsUnique(K: set<string>, text: string, a: string, b: string)
    requires LongestSpelled(K, text, a) && LongestSpelled(K, text, b)
    ensures a == b
  {
  }

  lemma MatchOwnersAreKnown(M: Nodes, C: map<Tenant, nat>, path: string, w: string)
    requires Sound(M, C) && C != map[] && path in M
    requires if M[path] == map[] then w == "empty" else w in M[path]
    ensures w in C
  {
    var t :| t in C;
    assert t in M[""];
    assert "" <= path;
  }

  /** A choice by the tree is a known worker exactly when there are workers and a match or an unspent counter
      decides. */
  lemma ChoiceIsKnown(M: Nodes, C: map<Tenant, nat>, text: string, threshold: real, w: string)
    requires Sound(M, C) && CacheChoice(M, C, text, threshold, w)
    ensures w in C <==> Choosable(M, C, text, threshold)
  {
    var found, path :| ByMatch(M, C, text, threshold, w, found, path);
    if Above(|found|, |text|, threshold) {
      if C != map[] { MatchOwnersAreKnown(M, C, path, w); }
    } else if f :| LongestSpelled(M.Keys, text, f) && Above(|f|, |text|, threshold) {
      LongestIsUnique(M.Keys, text, found, f);
    }
  }

  lemma WholeIsAbove(n: nat, threshold: real)
    requires 0 < n && threshold < 1.0
    ensures Above(n, n, threshold)
  {
    assert 0.0 < (1.0 - threshold) * n as real;
  }

  /** Requests with the same text are sent to workers that hold all of it, while the loads are balanced. */
  lemma RepeatGoesToHolder(M: Nodes, C: map<Tenant, nat>, text: string, threshold: real, w: string, v: string)
    requires Sound(M, C) && w in View(M, text) && text != "" && threshold < 1.0
    requires CacheChoice(M, C, text, threshold, v)
    ensures v in View(M, text)
  {
    var found, path :| ByMatch(M, C, text, threshold, v, found, path);
    var c := CoverOrNone(M, text);
    assert Spelled(M.Keys, text);
    assert text <= found;
    assert found == text;
    WholeIsAbove(|text|, threshold);
    ViewIs(M, path, text);
  }

  /** What the threshold decides: a held prefix that makes up more of text is held by the choice too; when no held
      prefix does, the choice has the smallest count. */
  ghost predicate DecidedByThreshold(M: Nodes, C: map<Tenant, nat>, text: string, threshold: real, v: string)
    requires Branching(M.Keys)
  {
    && (forall w, s :: w in View(M, s) && s <= text && |s| as real > threshold * |text| as real ==> v in View(M, s))
    && ((forall w, s :: w in View(M, s) && s <= text ==> |s| as real <= threshold * |text| as real) ==> Smallest(C, v))
  }

  lemma ChoiceIsDecided(M: Nodes, C: map<Tenant, nat>, text: string, threshold: real, v: string)
    requires Sound(M, C) && C != map[] && CacheChoice(M, C, text, threshold, v)
    ensures DecidedByThreshold(M, C, text, threshold, v)
  {
    var found, path :| ByMatch(M, C, text, threshold, v, found, path);
    FoundIsOwned(M, C, found, path);
    forall w, s | w in View(M, s) && s <= text && |s| as real > threshold * |text| as real ensures v in View(M, s) {
      HeldIsFound(M, w, s, text, found);
      MatchedIsHeld(M, path, v, found, s);
    }
  }

  lemma HeldIsFound(M: Nodes, w: string, s: string, text: string, found: string)
    requires Branching(M.Keys) && w in View(M, s) && s <= text && LongestSpelled(M.Keys, text, found)
    ensures s <= found
  {
    assert Spelled(M.Keys, s);
  }

  lemma MatchedIsHeld(M: Nodes, path: string, v: string, found: string, s: string)
    requires Owned(M) && Covers(M.Keys, path, found) && v in M[path] && s <= found
    ensures v in View(M, s)
  {
    ViewAtNode(M, path);
    assert s <= path;
    ViewOrdered(M, s, path, v);
  }

  /** With workers, whatever is found is held by somebody. */
  lemma FoundIsOwned(M: Nodes, C: map<Tenant, nat>, found: string, path: string)
    requires Sound(M, C) && C != map[] && Covers(M.Keys, path, found)
    ensures M[path] != map[] && exists w :: w in View(M, found)
  {
    ViewIs(M, path, found);
    if path == "" {
      var t :| t in C;
      assert t in M[""];
    }
    var w :| w in M[path];
    assert w in View(M, found);
  }

  // ----- the history of a router -----

  datatype History =
    | Nothing
    | Added(before: History, worker: string)
    | Removed(before: History, worker: string)
    | Selected(before: History, worker: string)

  ghost function Additions(workers: seq<string>): History
  {
    if workers == [] then Nothing else Added(Additions(workers[..|workers| - 1]), workers[|workers| - 1])
  }

  /** How often w was selected since it was last added or removed. */
  ghost function SelectionsSince(log: History, w: string): nat
  {
    match log
    case Nothing => 0
    case Selected(before, v) => SelectionsSince(before, w) + if v == w then 1 else 0
    case Added(before, v) => if v == w then 0 else SelectionsSince(before, w)
    case Removed(before, v) => if v == w then 0 else SelectionsSince(before, w)
  }

  /** Every counter is the number of selections since its worker was added. */
  ghost predicate Tallied(processed: Loads, log: History)
  {
    forall w {:trigger processed[w]} :: w in processed ==> processed[w] == SelectionsSince(log, w)
  }

  /** What the router counts, and the history behind it. */
  datatype Counters = Counters(running: Loads, processed: Loads, log: History)
  {
    /** The counters are about the known workers and add up. */
    ghost predicate Agree(known: set<string>)
    {
      running.Keys == processed.Keys == known && Tallied(processed, log)
    }

    /** Nothing has been sent to anybody yet. */
    ghost predicate Idle()
    {
      forall w :: w in running ==> running[w] == 0 && w in processed && processed[w] == 0
    }

    /** url has been added. */
    function With(url: string): Counters
    {
      Counters(running[url := 0], processed[url := 0], Added(log, url))
    }

    /** url has been removed. */
    function Without(url: string): Counters
    {
      Counters(running - {url}, processed - {url}, Removed(log, url))
    }

    /** One more request is counted for url. */
    function Selecting(url: string): Counters
      requires url in running && url in processed
    {
      Counters(running[url := running[url] + 1], processed[url := processed[url] + 1], Selected(log, url))
    }

    lemma WithAgrees(known: set<string>, url: string)
      requires Agree(known)
      ensures With(url).Agree(known + {url})
      ensures Idle() ==> With(url).Idle()
    {
    }

    lemma WithoutAgrees(known: set<string>, url: string)
      requires Agree(known)
      ensures Without(url).Agree(known - {url})
    {
    }

    lemma SelectingAgrees(known: set<string>, url: string)
      requires Agree(known) && url in known
      ensures Selecting(url).Agree(known)
    {
    }

    /** The first n of the initial workers have been added, and nobody else. */
    ghost predicate Initial(workers: seq<string>, n: nat)
      requires n <= |workers|
    {
      running.Keys == Elements(workers[..n]) && Idle() && log == Additions(workers[..n])
    }

    lemma InitialAll(workers: seq<string>)
      requires Initial(workers, |workers|)
      ensures running.Keys == Elements(workers) && Idle() && log == Additions(workers)
    {
      assert workers[..|workers|] == workers;
    }

    lemma NextElement(workers: seq<string>, n: nat)
      requires n < |workers|
      ensures Elements(workers[..n + 1]) == Elements(workers[..n]) + {workers[n]}
    {
      assert workers[..n + 1] == workers[..n] + [workers[n]];
    }

    lemma InitialNext(workers: seq<string>, n: nat)
      requires n < |workers| && Initial(workers, n) && Agree(running.Keys)
      ensures With(workers[n]).Initial(workers, n + 1)
    {
      assert workers[..n + 1] == workers[..n] + [workers[n]];
      assert workers[..n + 1][..n] == workers[..n];
      WithAgrees(running.Keys, workers[n]);
    }
  }

  // ----- the list of workers -----

  /** Taking out the entry at i: another entry of the same name stays. */
  ghost function Without(workers: seq<string>, i: nat): seq<string>
    requires i < |workers|
  {
    workers[..i] + workers[i + 1..]
  }

  /** The first entry named w has been taken out. */
  ghost predicate FirstTakenOut(workers: seq<string>, w: string, workers': seq<string>)
  {
    exists i :: 0 <= i < |workers| && workers[i] == w && w !in workers[..i] && workers' == Without(workers, i)
  }

  lemma WithoutElements(workers: seq<string>, i: nat)
    requires i < |workers|
    ensures Elements(workers) - {workers[i]} <= Elements(Without(workers, i)) <= Elements(workers)
    ensures NoRepeats(workers) ==> NoRepeats(Without(workers, i)) && workers[i] !in Without(workers, i)
  {
    var w := workers[i];
    forall v | v in Elements(workers) - {w} ensures v in Without(workers, i) {
      var j :| 0 <= j < |workers| && workers[j] == v;
      assert Without(workers, i)[if j < i then j else j - 1] == v;
    }
    forall v | v in Without(workers, i) ensures v in workers {
      var j :| 0 <= j < |workers| - 1 && Without(workers, i)[j] == v;
      assert workers[if j < i then j else j + 1] == v;
    }
    if NoRepeats(workers) {
      forall j | 0 <= j < |workers| - 1 ensures Without(workers, i)[j] == workers[if j < i then j else j + 1] {
      }
    }
  }

  /** After an entry and its counter go, list and counters still agree exactly when the name was listed once. */
  lemma Departed(workers: seq<string>, i: nat, known: set<string>)
    requires i < |workers| && workers[i] !in workers[..i]
    ensures FirstTakenOut(workers, workers[i], Without(workers, i))
    ensures NoRepeats(workers) ==> NoRepeats(Without(workers, i)) && multiset(workers)[workers[i]] == 1
    ensures Elements(workers) == known ==>
      (Elements(Without(workers, i)) == known - {workers[i]} <==> multiset(workers)[workers[i]] == 1)
  {
    WithoutElements(workers, i);
    OneFewer(workers, i);
  }

  lemma OneFewer(workers: seq<string>, i: nat)
    requires i < |workers|
    ensures multiset(workers)[workers[i]] == multiset(Without(workers, i))[workers[i]] + 1
    ensures workers[i] in Without(workers, i) <==> multiset(Without(workers, i))[workers[i]] > 0
  {
    assert workers == workers[..i] + ([workers[i]] + workers[i + 1..]);
  }
}
