/** Two idle workers, and texts that load the router up to every point of the bound on its counts. */
module TightBound {
  import opened Collections
  import opened Options
  import opened RadixSpec
  import opened RadixSteps
  import opened RadixTree
  import opened LoadBound
  import opened Routing
  import opened CacheAwareRouter

  const WORKERS: seq<string> := ["a", "b"]

  /** Nothing but selections since the two workers were added. */
  ghost predicate OnlySelections(log: History)
  {
    match log
    case Selected(before, _) => OnlySelections(before)
    case _ => log == Additions(WORKERS)
  }

  /** Both hold the empty text; p holds "x" once it has been selected, and q holds "y". */
  ghost predicate Shares(M: Nodes, p: string, q: string, n: nat, m: nat)
  {
    && Branching(M.Keys)
    && forall u, s :: u in View(M, s) <==>
      (u == p && (s == "" || (s == "x" && n > 0))) || (u == q && (s == "" || (s == "y" && m > 0)))
  }

  /** n requests went to p, and m to q. */
  ghost predicate Loaded(k: Counters, p: string, q: string, n: nat, m: nat)
  {
    && {p, q} == {"a", "b"}
    && k.running == map[p := n, q := m] && k.processed == k.running && OnlySelections(k.log)
  }

  ghost predicate Duo(was: Snapshot, p: string, q: string, n: nat, m: nat)
  {
    Sound(was.value, was.counts) && Shares(was.value, p, q, n, m) && Loaded(was.counters, p, q, n, m)
  }

  // ----- who is chosen -----

  lemma HeldTexts(M: Nodes, p: string, q: string, n: nat, m: nat)
    requires Owned(M) && Shares(M, p, q, n, m) && p != q
    ensures Held(M, p) == {""} + if n > 0 then {"x"} else {}
    ensures Held(M, q) == {""} + if m > 0 then {"y"} else {}
  {
    forall s ensures s in Held(M, p) <==> s == "" || (s == "x" && n > 0) {
      HeldIsViewed(M, p, s);
    }
    forall s ensures s in Held(M, q) <==> s == "" || (s == "y" && m > 0) {
      HeldIsViewed(M, q, s);
    }
  }

  lemma KnownWorkers(M: Nodes, C: map<Tenant, nat>, p: string, q: string, n: nat, m: nat)
    requires Sound(M, C) && Shares(M, p, q, n, m)
    ensures C.Keys == {p, q}
  {
    ViewAtNode(M, "");
    forall u ensures u in M[""] <==> u == p || u == q {
      assert u in View(M, "") <==> u == p || u == q;
    }
  }

  lemma CountIs(M: Nodes, C: map<Tenant, nat>, t: Tenant, holds: bool, text: string)
    requires Sound(M, C) && t in C && text != "" && Held(M, t) == {""} + if holds then {text} else {}
    ensures C[t] == if holds then 1 else 0
  {
    assert C[t] + 1 == |Held(M, t)|;
    assert |{"", text}| == 2 && {"", text} == {""} + {text};
    assert |{""}| == 1 && {""} == {""} + {};
  }

  lemma KnownCounts(M: Nodes, C: map<Tenant, nat>, p: string, q: string, n: nat, m: nat)
    requires Sound(M, C) && Shares(M, p, q, n, m) && p != q
    ensures C.Keys == {p, q} && C[p] == (if n > 0 then 1 else 0) && C[q] == (if m > 0 then 1 else 0)
  {
    HeldTexts(M, p, q, n, m);
    KnownWorkers(M, C, p, q, n, m);
    CountIs(M, C, p, n > 0, "x");
    CountIs(M, C, q, m > 0, "y");
  }

  lemma SpelledIsHeld(M: Nodes, text: string)
    requires Owned(M) && text != ""
    ensures Spelled(M.Keys, text) ==> exists u :: u in View(M, text)
  {
    if Spelled(M.Keys, text) {
      var c := CoverOrNone(M, text);
      ViewIs(M, c, text);
      var u :| u in M[c];
    }
  }

  /** A one-character text that nobody holds matches nothing. */
  lemma NothingFound(M: Nodes, text: string, found: string)
    requires Owned(M) && |text| == 1 && LongestSpelled(M.Keys, text, found)
    requires forall u :: u !in View(M, text)
    ensures found == ""
  {
    SpelledIsHeld(M, text);
    OneCharacter(found, text);
  }

  /** A text that nobody holds goes to a worker with the fewest characters. */
  lemma NewTextGoesToSmallest(M: Nodes, C: map<Tenant, nat>, text: string, threshold: real, url: string)
    requires Sound(M, C) && |text| == 1 && (forall u :: u !in View(M, text)) && 0.0 <= threshold
    requires CacheChoice(M, C, text, threshold, url)
    ensures Smallest(C, url)
  {
    var found, path :| ByMatch(M, C, text, threshold, url, found, path);
    NothingFound(M, text, found);
  }

  lemma HolderIsClose(M: Nodes, text: string, threshold: real, w: string)
    requires Branching(M.Keys) && w in View(M, text) && text != "" && threshold < 1.0
    ensures CloseMatch(M, text, threshold)
  {
    assert Spelled(M.Keys, text);
    assert LongestSpelled(M.Keys, text, text);
    WholeIsAbove(|text|, threshold);
  }

  /** The next selection for text goes to w. */
  ghost predicate GoesTo(r: Router, was: Snapshot, text: string, w: string)
  {
    && (Tilted(was.counters.running, r.balanceAbs, r.balanceRel)
        || Choosable(was.value, was.counts, text, r.cacheThreshold))
    && forall url :: r.Choice(was, text, url) ==> url == w
  }

  ghost predicate Sensible(r: Router)
  {
    0.0 <= r.cacheThreshold < 1.0
  }

  /** While the loads are balanced, "x" goes to the busier worker, who holds it. */
  lemma HeldGoesBack(r: Router, was: Snapshot, p: string, q: string, n: nat, m: nat)
    requires Sensible(r) && Duo(was, p, q, n, m) && 0 < n && m <= n && !Imbalanced(n, m, r.balanceAbs, r.balanceRel)
    ensures GoesTo(r, was, "x", p)
  {
    NotTilted(p, q, n, m, r.balanceAbs, r.balanceRel);
    KnownCounts(was.value, was.counts, p, q, n, m);
    assert p in View(was.value, "x");
    HolderIsClose(was.value, "x", r.cacheThreshold, p);
    forall url | r.Choice(was, "x", url) ensures url == p {
      RepeatGoesToHolder(was.value, was.counts, "x", r.cacheThreshold, p, url);
    }
  }

  lemma NotTilted(p: string, q: string, n: nat, m: nat, abs: nat, rel: real)
    requires p != q && m <= n && !Imbalanced(n, m, abs, rel)
    ensures !Tilted(map[p := n, q := m], abs, rel)
  {
    var loads := map[p := n, q := m];
    assert p in loads && q in loads;
    TiltIsDecided(loads, abs, rel, n, m);
  }

  /** "y" goes to the idler worker, balanced or not: who is new to it, or holds it, or has the lowest load. */
  lemma OtherGoesToIdler(r: Router, was: Snapshot, p: string, q: string, n: nat, m: nat)
    requires Sensible(r) && Duo(was, p, q, n, m) && m < n
    ensures GoesTo(r, was, "y", q)
  {
    KnownCounts(was.value, was.counts, p, q, n, m);
    assert q in was.counts && was.counts[q] < USIZE_MAX;
    forall url | r.Choice(was, "y", url) ensures url == q {
      if Tilted(was.counters.running, r.balanceAbs, r.balanceRel) {
        assert was.counters.running[url] <= was.counters.running[q];
      } else if m > 0 {
        assert q in View(was.value, "y");
        RepeatGoesToHolder(was.value, was.counts, "y", r.cacheThreshold, q, url);
      } else {
        NewTextGoesToSmallest(was.value, was.counts, "y", r.cacheThreshold, url);
      }
    }
  }

  lemma SharesMore(M: Nodes, M': Nodes, p: string, q: string, n: nat, m: nat, toP: bool)
    requires Shares(M, p, q, n, m) && p != q
    requires NowHolds(M, M', if toP then p else q, if toP then "x" else "y")
    ensures if toP then Shares(M', p, q, n + 1, m) else Shares(M', p, q, n, m + 1)
  {
    var w, text := if toP then p else q, if toP then "x" else "y";
    forall u, s ensures u in View(M', s) <==> u in View(M, s) || (u == w && (s == "" || s == text)) {
      assert u in View(M', s) <==> u in View(M, s) || (u == w && s <= text);
      OneCharacter(s, text);
    }
  }

  lemma OneCharacter(s: string, text: string)
    requires |text| == 1
    ensures s <= text <==> s == "" || s == text
  {
    if s <= text && s != "" { assert s == text[..1]; }
  }

  // ----- sending -----

  /** A request with a text that can only go to w. */
  method SendTo(r: Router, text: string, w: string, ghost was: Snapshot)
    requires r.Valid() && was == r.Seen() && GoesTo(r, was, text, w)
    modifies r`running, r`processed, r`log, r.tree, r.tree.at.Values
    ensures r.Valid() && fresh(r.tree.at.Values - was.nodes)
    ensures w in was.counters.running && w in was.counters.processed && r.Counts() == was.counters.Selecting(w)
    ensures NowHolds(was.value, r.tree.Abs(), w, text)
  {
    var url;
    ghost var M;
    url, M := r.SelectWorker(text, 0, 0, was);
  }

  ghost predicate At(r: Router, p: string, q: string, n: nat, m: nat)
    reads r, r.tree, r.tree.at.Values
  {
    r.Valid() && Sensible(r) && Duo(r.Seen(), p, q, n, m)
  }

  lemma DuoMore(was: Snapshot, now: Snapshot, p: string, q: string, n: nat, m: nat, toP: bool)
    requires Duo(was, p, q, n, m) && Sound(now.value, now.counts)
    requires NowHolds(was.value, now.value, if toP then p else q, if toP then "x" else "y")
    requires now.counters == was.counters.Selecting(if toP then p else q)
    ensures if toP then Duo(now, p, q, n + 1, m) else Duo(now, p, q, n, m + 1)
  {
    assert p != q;
    SharesMore(was.value, now.value, p, q, n, m, toP);
    LoadedMore(was.counters, p, q, n, m, toP);
  }

  lemma LoadedMore(k: Counters, p: string, q: string, n: nat, m: nat, toP: bool)
    requires Loaded(k, p, q, n, m)
    ensures if toP then Loaded(k.Selecting(p), p, q, n + 1, m) else Loaded(k.Selecting(q), p, q, n, m + 1)
  {
    assert p != q;
    assert k.running[p := n + 1] == map[p := n + 1, q := m];
    assert k.running[q := m + 1] == map[p := n, q := m + 1];
  }

  /** The next request goes to the busier worker. */
  method SendToBusier(r: Router, p: string, q: string, n: nat, m: nat)
    requires At(r, p, q, n, m) && 0 < n && m <= n && !Imbalanced(n, m, r.balanceAbs, r.balanceRel)
    modifies r`running, r`processed, r`log, r.tree, r.tree.at.Values
    ensures At(r, p, q, n + 1, m) && fresh(r.tree.at.Values - old(r.tree.at.Values))
  {
    ghost var was := r.Seen();
    HeldGoesBack(r, was, p, q, n, m);
    SendTo(r, "x", p, was);
    DuoMore(was, r.Seen(), p, q, n, m, true);
  }

  /** The next request goes to the idler worker. */
  method SendToIdler(r: Router, p: string, q: string, n: nat, m: nat)
    requires At(r, p, q, n, m) && m < n
    modifies r`running, r`processed, r`log, r.tree, r.tree.at.Values
    ensures At(r, p, q, n, m + 1) && fresh(r.tree.at.Values - old(r.tree.at.Values))
  {
    ghost var was := r.Seen();
    OtherGoesToIdler(r, was, p, q, n, m);
    SendTo(r, "y", q, was);
    DuoMore(was, r.Seen(), p, q, n, m, false);
  }

  lemma Swapped(was: Snapshot)
    requires Duo(was, "a", "b", 0, 0)
    ensures Duo(was, "b", "a", 0, 0)
  {
    assert {"b", "a"} == {"a", "b"};
    assert map["a" := 0, "b" := 0] == map["b" := 0, "a" := 0];
  }

  /** Whoever gets the first request is the busier worker. */
  lemma FirstGoesToOne(r: Router, was: Snapshot)
    requires Sensible(r) && Duo(was, "a", "b", 0, 0)
    ensures Tilted(was.counters.running, r.balanceAbs, r.balanceRel)
      || Choosable(was.value, was.counts, "x", r.cacheThreshold)
    ensures forall url :: r.Choice(was, "x", url) ==> url == "a" || url == "b"
  {
    NotTilted("a", "b", 0, 0, r.balanceAbs, r.balanceRel);
    KnownCounts(was.value, was.counts, "a", "b", 0, 0);
    assert "a" in was.counts && was.counts["a"] < USIZE_MAX;
    forall url | r.Choice(was, "x", url) ensures url == "a" || url == "b" {
      NewTextGoesToSmallest(was.value, was.counts, "x", r.cacheThreshold, url);
    }
  }

  method SendFirst(r: Router) returns (p: string, q: string)
    requires At(r, "a", "b", 0, 0)
    modifies r`running, r`processed, r`log, r.tree, r.tree.at.Values
    ensures At(r, p, q, 1, 0) && fresh(r.tree.at.Values - old(r.tree.at.Values))
  {
    ghost var was := r.Seen();
    FirstGoesToOne(r, was);
    Swapped(was);
    var url;
    ghost var M;
    url, M := r.SelectWorker("x", 0, 0, was);
    p, q := url.value, if url.value == "a" then "b" else "a";
    DuoMore(was, r.Seen(), p, q, 0, 0, true);
  }

  method Start(cacheThreshold: real, balanceAbs: nat, balanceRel: real) returns (r: Router)
    requires 0.0 <= cacheThreshold < 1.0
    ensures fresh(r) && fresh(r.tree) && fresh(r.tree.at.Values) && At(r, "a", "b", 0, 0)
    ensures r.cacheThreshold == cacheThreshold && r.balanceAbs == balanceAbs && r.balanceRel == balanceRel
  {
    r := new Router(WORKERS, cacheThreshold, balanceAbs, balanceRel, 0);
    StartsIdle(r.Seen());
  }

  lemma StartsIdle(was: Snapshot)
    requires Sound(was.value, was.counts) && OnlyKnown(was.value, Elements(WORKERS))
    requires was.counters.Idle() && was.counters.running.Keys == was.counters.processed.Keys == Elements(WORKERS)
    requires was.counters.log == Additions(WORKERS)
    ensures Duo(was, "a", "b", 0, 0)
  {
    assert Elements(WORKERS) == {"a", "b"};
    IdleLoads(was.counters);
    OnlyKnownShares(was.value, Elements(WORKERS));
  }

  lemma IdleLoads(k: Counters)
    requires k.Idle() && k.running.Keys == k.processed.Keys == {"a", "b"} && k.log == Additions(WORKERS)
    ensures Loaded(k, "a", "b", 0, 0)
  {
    assert "a" in k.running && "b" in k.running;
    assert k.running == map["a" := 0, "b" := 0] && k.processed == k.running;
    assert Additions(WORKERS).Added?;
  }

  lemma OnlyKnownShares(M: Nodes, known: set<string>)
    requires OnlyKnown(M, known) && known == {"a", "b"}
    ensures Shares(M, "a", "b", 0, 0)
  {
    forall u, s ensures u in View(M, s) <==> (u == "a" || u == "b") && s == "" {
      assert u in View(M, s) <==> u in known && s == "";
    }
  }

  /** The busier load when the idler one has just become m. */
  function Top(m: nat): nat
  {
    if m == 0 then 1 else m
  }

  ghost predicate AtTop(r: Router, p: string, q: string, m: nat)
    reads r, r.tree, r.tree.at.Values
  {
    At(r, p, q, Top(m), m)
  }

  method NextLevel(r: Router, p: string, q: string, m: nat)
    requires AtTop(r, p, q, m)
    modifies r`running, r`processed, r`log, r.tree, r.tree.at.Values
    ensures AtTop(r, p, q, m + 1) && fresh(r.tree.at.Values - old(r.tree.at.Values))
  {
    if m > 0 { SendToBusier(r, p, q, m, m); }
    SendToIdler(r, p, q, m + 1, m);
  }

  lemma StillWithin(n: nat, i: nat, m: nat, abs: nat, rel: real)
    requires m <= i < n && WithinBound(n, m, abs, rel)
    ensures !Imbalanced(i, m, abs, rel)
  {
  }

  /** Requests go to the busier worker until the bound is reached. */
  method Climb(r: Router, p: string, q: string, from: nat, n: nat, m: nat)
    requires At(r, p, q, from, m) && 0 < from && m <= from <= n && WithinBound(n, m, r.balanceAbs, r.balanceRel)
    modifies r`running, r`processed, r`log, r.tree, r.tree.at.Values
    ensures At(r, p, q, n, m)
    decreases n - from
  {
    if from < n {
      StillWithin(n, from, m, r.balanceAbs, r.balanceRel);
      SendToBusier(r, p, q, from, m);
      Climb(r, p, q, from + 1, n, m);
    }
  }

  /** Requests go to the busier worker and to the idler one in turn, and then to the busier one. */
  method LoadUnevenly(r: Router, p: string, q: string, from: nat, n: nat, m: nat)
    requires AtTop(r, p, q, from) && from <= m <= n && 0 < n && WithinBound(n, m, r.balanceAbs, r.balanceRel)
    modifies r`running, r`processed, r`log, r.tree, r.tree.at.Values
    ensures At(r, p, q, n, m)
    decreases m - from
  {
    if from < m {
      NextLevel(r, p, q, from);
      LoadUnevenly(r, p, q, from + 1, n, m);
    } else {
      Climb(r, p, q, Top(m), n, m);
    }
  }

  method Load(r: Router, n: nat, m: nat) returns (p: string, q: string)
    requires At(r, "a", "b", 0, 0) && m <= n && WithinBound(n, m, r.balanceAbs, r.balanceRel)
    modifies r`running, r`processed, r`log, r.tree, r.tree.at.Values
    ensures At(r, p, q, n, m)
  {
    p, q := "a", "b";
    if n > 0 {
      p, q := SendFirst(r);
      LoadUnevenly(r, p, q, 0, n, m);
    }
  }

  /** Whatever the thresholds, requests alone load the two workers of a new router up to any point of the bound. */
  method BoundIsReachedByRouter(cacheThreshold: real, balanceAbs: nat, balanceRel: real, n: nat, m: nat)
    returns (r: Router, p: string, q: string)
    requires 0.0 <= cacheThreshold < 1.0 && m <= n && WithinBound(n, m, balanceAbs, balanceRel)
    ensures r.cacheThreshold == cacheThreshold && r.balanceAbs == balanceAbs && r.balanceRel == balanceRel
    ensures r.Valid() && Loaded(r.Counts(), p, q, n, m)
  {
    r := Start(cacheThreshold, balanceAbs, balanceRel);
    p, q := Load(r, n, m);
  }
}
