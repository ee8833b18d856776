/** The cache-aware router: a list of workers, two counters per worker, and the tree of what was sent where. */
module CacheAwareRouter {
  import opened Collections
  import opened Options
  import opened RadixSpec
  import opened RadixSteps
  import opened RadixRuns
  import opened RadixTree
  import opened LoadBound
  import opened Routing

  /** The highest load; zero without workers. */
  method MaxLoad(q: Loads) returns (max: nat)
    ensures Highest(q, max)
  {
    max := 0;
    var todo := q.Keys;
    while todo != {}
      invariant todo <= q.Keys
      invariant if todo == q.Keys then max == 0 else exists w :: w in q && q[w] == max
      invariant forall w :: w in q && w !in todo ==> q[w] <= max
      decreases todo
    {
      var w :| w in todo;
      if todo == q.Keys || max < q[w] { max := q[w]; }
      todo := todo - {w};
    }
  }

  /** A worker with the lowest load. */
  method LeastLoaded(q: Loads) returns (w: string)
    requires q != map[]
    ensures Least(q, w)
  {
    w :| w in q;
    var todo := q.Keys - {w};
    while todo != {}
      invariant w in q && todo <= q.Keys
      invariant forall v :: v in q && v !in todo ==> q[w] <= q[v]
      decreases todo
    {
      var v :| v in todo;
      todo := todo - {v};
      if q[v] < q[w] { w := v; }
    }
  }

  /** The lowest load; zero without workers. */
  method MinLoad(q: Loads) returns (min: nat)
    ensures Lowest(q, min)
  {
    min := 0;
    if q != map[] {
      var w := LeastLoaded(q);
      min := q[w];
    }
  }

  /** The place of the first entry equal to w. */
  method Position(workers: seq<string>, w: string) returns (i: nat)
    ensures i <= |workers| && w !in workers[..i] && (i < |workers| ==> workers[i] == w)
  {
    i := 0;
    while i < |workers| && workers[i] != w
      invariant i <= |workers| && w !in workers[..i]
    {
      i := i + 1;
    }
  }

  /** What a router knows: the tree's value, counts and nodes, and its own counters. */
  datatype Snapshot = Snapshot(value: Nodes, counts: map<Tenant, nat>, nodes: set<Node>, counters: Counters)

  class Router {
    var workers: seq<string>
    const tree: Tree
    var running: Loads
    var processed: Loads
    const cacheThreshold: real
    const balanceAbs: nat
    const balanceRel: real
    ghost var log: History

    /** The counters know exactly the given workers, all of them listed, and add up. */
    ghost predicate Knows(known: set<string>)
      reads `workers, `running, `processed, `log
    {
      known <= Elements(workers) && Counts().Agree(known)
    }

    ghost function Counts(): Counters
      reads `running, `processed, `log
    {
      Counters(running, processed, log)
    }

    ghost function Seen(): Snapshot
      reads this, tree, tree.at.Values
    {
      Snapshot(tree.Abs(), tree.charCount, tree.at.Values, Counts())
    }

    /** What every operation keeps: the counters and the tree know the same workers. */
    ghost predicate Valid()
      reads this, tree, tree.at.Values
    {
      tree.Valid() && Knows(tree.charCount.Keys)
    }

    /** Every listed worker is known, and listed once. */
    ghost predicate Consistent()
      reads this
    {
      NoRepeats(workers) && Elements(workers) == running.Keys
    }

    /** new, once all workers are healthy. */
    constructor (initial: seq<string>, cacheThreshold: real, balanceAbs: nat, balanceRel: real, now: Time)
      ensures Valid() && fresh(tree) && fresh(tree.at.Values)
      ensures workers == initial && Elements(workers) == running.Keys
      ensures NoRepeats(initial) ==> Consistent()
      ensures Counts().Idle() && log == Additions(initial) && OnlyKnown(tree.Abs(), Elements(initial))
      ensures this.cacheThreshold == cacheThreshold && this.balanceAbs == balanceAbs && this.balanceRel == balanceRel
    {
      workers := initial;
      tree := new Tree();
      running, processed, log := map[], map[], Nothing;
      this.cacheThreshold, this.balanceAbs, this.balanceRel := cacheThreshold, balanceAbs, balanceRel;
      new;
      NobodyKnown();
      RegisterAll(now);
      Counts().InitialAll(workers);
    }

    /** The counters and the tree get to know every initial worker. */
    method RegisterAll(now: Time)
      requires RegisteredUpto(0)
      modifies `running, `processed, `log, tree, tree.at.Values
      ensures RegisteredUpto(|workers|) && fresh(tree.at.Values - old(tree.at.Values))
    {
      for i := 0 to |workers|
        invariant RegisteredUpto(i)
        invariant fresh(tree.at.Values - old(tree.at.Values))
      {
        RegisterNext(i, now);
      }
    }

    ghost predicate RegisteredUpto(n: nat)
      reads this, tree, tree.at.Values
    {
      && Valid() && n <= |workers| && Counts().Initial(workers, n)
      && OnlyKnown(tree.Abs(), Elements(workers[..n]))
    }

    method RegisterNext(i: nat, now: Time)
      requires i < |workers| && RegisteredUpto(i)
      modifies `running, `processed, `log, tree, tree.at.Values
      ensures RegisteredUpto(i + 1) && fresh(tree.at.Values - old(tree.at.Values))
    {
      Counts().InitialNext(workers, i);
      Counts().NextElement(workers, i);
      ghost var M := tree.Abs();
      Register(workers[i], now, M);
      OneMoreKnown(M, Elements(workers[..i]), workers[i], tree.Abs());
    }

    // ----- the tree's side of each operation -----

    /** The tree learns that text was sent to url. */
    method Record(text: string, url: string, now: Time, ghost M: Nodes, ghost k: Counters, ghost N: set<Node>)
      requires tree.Valid() && M == tree.Abs() && Knows(tree.charCount.Keys + {url}) && k == Counts()
      requires N == tree.at.Values
      modifies tree, tree.at.Values
      ensures k == Counts()
      ensures Valid() && fresh(tree.at.Values - N)
      ensures tree.charCount.Keys == old(tree.charCount.Keys) + {url}
      ensures NowHolds(M, tree.Abs(), url, text) && Step(M, Insert(text, url, now), tree.Abs())
    {
      tree.Insert(text, url, now);
      StepRootOwners(M, Insert(text, url, now), tree.Abs());
      InsertedHolds(M, text, url, now, tree.Abs());
    }

    /** The tree forgets url. */
    method Forget(url: string, ghost k: Counters, ghost M: Nodes)
      requires tree.Valid() && k == Counts() && M == tree.Abs()
      modifies tree, tree.at.Values
      ensures k == Counts() && tree.Valid() && tree.at.Values <= old(tree.at.Values)
      ensures tree.charCount.Keys == old(tree.charCount.Keys) - {url} && Step(M, Remove(url), tree.Abs())
    {
      tree.RemoveTenant(url);
    }

    /** get_smallest_tenant changes nothing. */
    method SmallestTenant(ghost M: Nodes) returns (url: string)
      requires tree.Valid() && M == tree.Abs()
      ensures tree.Valid() && M == tree.Abs() && Smallest(tree.charCount, url)
    {
      url := tree.GetSmallestTenant();
    }

    // ----- the counters' side -----

    method StartCounting(url: string, ghost M: Nodes)
      requires Valid() && url in workers && M == tree.Abs()
      modifies `running, `processed, `log
      ensures tree.Valid() && M == tree.Abs()
      ensures Knows(tree.charCount.Keys + {url}) && Counts() == old(Counts()).With(url)
    {
      ResetCounts(url, tree.charCount.Keys);
    }

    method ResetCounts(url: string, ghost known: set<string>)
      requires Knows(known) && url in workers
      modifies `running, `processed, `log
      ensures Knows(known + {url}) && Counts() == old(Counts()).With(url)
    {
      Counts().WithAgrees(known, url);
      running := running[url := 0];
      processed := processed[url := 0];
      log := Added(log, url);
    }

    method StopCounting(url: string, ghost known: set<string>, ghost k: Counters, ghost M: Nodes)
      requires M == tree.Abs()
      requires tree.Valid() && tree.charCount.Keys == known - {url}
      requires k == Counts() && k.Agree(known) && known - {url} <= Elements(workers)
      modifies `running, `processed, `log
      ensures Valid() && Counts() == k.Without(url) && M == tree.Abs()
    {
      k.WithoutAgrees(known, url);
      running := running - {url};
      processed := processed - {url};
      log := Removed(log, url);
    }

    // ----- operations -----

    /** Counters and the tree get to know a worker. */
    method Register(url: string, now: Time, ghost M: Nodes)
      requires Valid() && url in workers && M == tree.Abs()
      modifies `running, `processed, `log, tree, tree.at.Values
      ensures Valid() && fresh(tree.at.Values - old(tree.at.Values)) && Counts() == old(Counts()).With(url)
      ensures NowHolds(M, tree.Abs(), url, "") && Step(M, Insert("", url, now), tree.Abs())
    {
      StartCounting(url, M);
      Record("", url, now, M, Counts(), tree.at.Values);
    }

    /** add_worker, once the worker is healthy: a worker that is already listed is refused. */
    method AddWorker(url: string, now: Time) returns (added: bool)
      requires Valid()
      modifies this, tree, tree.at.Values
      ensures Valid() && fresh(tree.at.Values - old(tree.at.Values))
      ensures added <==> url !in old(workers)
      ensures workers == if added then old(workers) + [url] else old(workers)
      ensures added ==> running == old(running)[url := 0] && processed == old(processed)[url := 0]
      ensures added ==> log == Added(old(log), url) && Step(old(tree.Abs()), Insert("", url, now), tree.Abs())
      ensures !added ==> Counts() == old(Counts()) && tree.Abs() == old(tree.Abs())
      ensures old(Consistent()) ==> Consistent()
    {
      added := url !in workers;
      if added {
        Enlist(url, now, tree.Abs());
      }
    }

    method Enlist(url: string, now: Time, ghost M: Nodes)
      requires Valid() && M == tree.Abs()
      modifies this, tree, tree.at.Values
      ensures Valid() && fresh(tree.at.Values - old(tree.at.Values))
      ensures workers == old(workers) + [url] && Counts() == old(Counts()).With(url)
      ensures Step(M, Insert("", url, now), tree.Abs())
    {
      workers := workers + [url];
      Register(url, now, M);
    }

    /** remove_worker: the first entry of that name goes, and everything known about it. */
    method RemoveWorker(url: string)
      requires Valid()
      modifies this, tree, tree.at.Values
      ensures Valid() && tree.at.Values <= old(tree.at.Values)
      ensures url in old(workers) ==> FirstTakenOut(old(workers), url, workers)
      ensures url in old(workers) ==> running == old(running) - {url} && processed == old(processed) - {url}
      ensures url in old(workers) ==> log == Removed(old(log), url) && Step(old(tree.Abs()), Remove(url), tree.Abs())
      ensures url !in old(workers) ==>
        workers == old(workers) && Counts() == old(Counts()) && tree.Abs() == old(tree.Abs())
      ensures old(Consistent()) ==> Consistent()
      ensures old(Elements(workers) == running.Keys) && url in old(workers) ==>
        (Elements(workers) == running.Keys <==> multiset(old(workers))[url] == 1)
    {
      var i := Position(workers, url);
      if i < |workers| {
        Departed(workers, i, running.Keys);
        RemoveAt(i, url, tree.Abs());
      }
    }

    method RemoveAt(i: nat, url: string, ghost M: Nodes)
      requires M == tree.Abs()
      requires Valid() && i < |workers| && workers[i] == url && url !in workers[..i]
      modifies this, tree, tree.at.Values
      ensures Valid() && tree.at.Values <= old(tree.at.Values)
      ensures workers == Without(old(workers), i) && Counts() == old(Counts()).Without(url)
      ensures Step(M, Remove(url), tree.Abs())
    {
      WithoutElements(workers, i);
      ghost var k := Counts();
      workers := workers[..i] + workers[i + 1..];
      Forget(url, k, M);
      StopCounting(url, k.running.Keys, k, tree.Abs());
    }

    /** The worker chosen by the contents of the tree. */
    method FollowCache(text: string, now: Time, ghost M: Nodes) returns (url: string)
      requires tree.Valid() && M == tree.Abs()
      modifies tree.at.Values`owners
      ensures tree.Valid()
      ensures CacheChoice(M, tree.charCount, text, cacheThreshold, url)
      ensures Step(M, Match(text, now), tree.Abs())
    {
      var found, owner, path := tree.PrefixMatch(text, now);
      url := owner;
      if !(|found| as real > cacheThreshold * |text| as real) {
        url := SmallestTenant(tree.Abs());
      }
      IsChoice(M, tree.charCount, text, cacheThreshold, url, found, path);
    }

    /** Are the loads too far apart? */
    method IsTilted(ghost M: Nodes) returns (tilted: bool)
      requires tree.Valid() && M == tree.Abs()
      ensures tree.Valid() && M == tree.Abs()
      ensures tilted <==> Tilted(running, balanceAbs, balanceRel)
    {
      var max := MaxLoad(running);
      var min := MinLoad(running);
      TiltIsDecided(running, balanceAbs, balanceRel, max, min);
      tilted := Imbalanced(max, min, balanceAbs, balanceRel);
    }

    method ShortestQueue(ghost M: Nodes) returns (url: string)
      requires tree.Valid() && M == tree.Abs() && Tilted(running, balanceAbs, balanceRel)
      ensures tree.Valid() && M == tree.Abs() && Least(running, url)
    {
      url := LeastLoaded(running);
    }

    /** Shortest queue while the loads are imbalanced, and the tree otherwise. */
    method Choose(text: string, now: Time, ghost M: Nodes) returns (url: string, ghost imbalanced: bool)
      requires Valid() && M == tree.Abs()
      modifies tree.at.Values`owners
      ensures Valid()
      ensures imbalanced <==> Tilted(running, balanceAbs, balanceRel)
      ensures imbalanced ==> Least(running, url) && tree.Abs() == M
      ensures !imbalanced ==> CacheChoice(M, tree.charCount, text, cacheThreshold, url)
      ensures !imbalanced ==> Step(M, Match(text, now), tree.Abs())
    {
      var tilted := IsTilted(M);
      imbalanced := tilted;
      if tilted {
        url := ShortestQueue(M);
      } else {
        url := FollowCache(text, now, M);
      }
    }

    /** A request is counted for url. */
    method Count(url: string, ghost M: Nodes, ghost k: Counters, ghost N: set<Node>, ghost known: set<string>)
      requires tree.Valid() && Knows(known) && url in known && M == tree.Abs() && k == Counts() && N == tree.at.Values
      modifies `running, `processed, `log
      ensures tree.Valid() && Knows(known) && M == tree.Abs() && N == tree.at.Values
      ensures url in k.running && url in k.processed && Counts() == k.Selecting(url)
    {
      Tally(url, known);
    }

    method Tally(url: string, ghost known: set<string>)
      requires Knows(known) && url in running && url in processed
      modifies `running, `processed, `log
      ensures Knows(known) && Counts() == old(Counts()).Selecting(url)
    {
      Counts().SelectingAgrees(known, url);
      Increment(url);
    }

    method Increment(url: string)
      requires url in running && url in processed
      modifies `running, `processed, `log
      ensures Counts() == old(Counts()).Selecting(url)
    {
      running := running[url := running[url] + 1];
      processed := processed[url := processed[url] + 1];
      log := Selected(log, url);
    }

    /** The counters and the tree learn that text is sent to url. */
    method Assign(text: string, url: string, now: Time, ghost M: Nodes, ghost k: Counters, ghost N: set<Node>,
                  ghost known: set<string>)
      requires tree.Valid() && Knows(known) && known == tree.charCount.Keys + {url}
      requires M == tree.Abs() && k == Counts() && N == tree.at.Values
      modifies `running, `processed, `log, tree, tree.at.Values
      ensures Valid() && fresh(tree.at.Values - N)
      ensures Counts() == k.Selecting(url) && NowHolds(M, tree.Abs(), url, text)
      ensures Step(M, Insert(text, url, now), tree.Abs())
    {
      Count(url, M, k, N, known);
      Record(text, url, now, M, Counts(), N);
    }

    /** Choose, judged against what the router knew before. */
    method Pick(text: string, now: Time, ghost was: Snapshot) returns (url: string)
      requires Valid() && was == Seen()
      modifies tree.at.Values`owners
      ensures Valid() && was.counters == Counts() && SameHolders(was.value, tree.Abs()) && was.nodes == tree.at.Values
      ensures Choice(was, text, url) && LookedUp(was, text, now, tree.Abs())
    {
      ghost var imbalanced: bool;
      url, imbalanced := Choose(text, now, was.value);
      if imbalanced {
        NobodyMoved(was.value);
      } else {
        MatchMovesNobody(was.value, text, now, tree.Abs());
        ChoiceIsKnown(was.value, was.counts, text, cacheThreshold, url);
        if was.counts != map[] { ChoiceIsDecided(was.value, was.counts, text, cacheThreshold, url); }
      }
    }

    /** While the loads are balanced text is looked up in the tree, at that time; the tree is left alone otherwise. */
    ghost predicate LookedUp(was: Snapshot, text: string, now: Time, M: Nodes)
    {
      if Tilted(was.counters.running, balanceAbs, balanceRel) then M == was.value
      else Step(was.value, Match(text, now), M)
    }

    /** url is a least loaded worker while the loads are imbalanced, and what the tree says otherwise, decided by the
        threshold; it is a worker with a counter exactly when one of these decides. */
    ghost predicate Choice(was: Snapshot, text: string, url: string)
    {
      var q := was.counters.running;
      && Branching(was.value.Keys)
      && (url in q <==> Tilted(q, balanceAbs, balanceRel) || Choosable(was.value, was.counts, text, cacheThreshold))
      && if Tilted(q, balanceAbs, balanceRel) then Least(q, url)
         else
           && CacheChoice(was.value, was.counts, text, cacheThreshold, url)
           && (was.counts != map[] ==> DecidedByThreshold(was.value, was.counts, text, cacheThreshold, url))
    }

    /** The second half of a selection: a worker without a counter makes the caller panic. */
    method Commit(text: string, url: string, now: Time, ghost was: Snapshot, ghost M: Nodes) returns (counted: bool)
      requires M == tree.Abs()
      requires Valid() && SameHolders(was.value, tree.Abs()) && was.counters == Counts() && was.nodes == tree.at.Values
      requires Choice(was, text, url)
      modifies `running, `processed, `log, tree, tree.at.Values
      ensures Valid() && fresh(tree.at.Values - was.nodes)
      ensures counted <==> url in was.counters.running
      ensures if counted then Assigned(url, text, was) && Step(M, Insert(text, url, now), tree.Abs())
        else Counts() == was.counters && tree.Abs() == M
    {
      counted := url in running;
      if counted {
        ghost var known := tree.charCount.Keys;
        assert known == known + {url};
        ChosenIsSelected(was, text, url);
        Assign(text, url, now, M, was.counters, was.nodes, known);
        HoldsAfterAll(was.value, M, tree.Abs(), url, text);
      }
    }

    lemma ChosenIsSelected(was: Snapshot, text: string, url: string)
      requires Choice(was, text, url) && url in was.counters.running && url in was.counters.processed
      ensures Selection(was.counters.running, url, balanceAbs, balanceRel, was.counters.Selecting(url).running)
    {
    }

    /** The cache-aware arm of select_generate_worker; None stands for the panic on a worker without a counter. The text
        is looked up now, which makes M of the tree, and inserted later. */
    method SelectWorker(text: string, now: Time, later: Time, ghost was: Snapshot)
      returns (r: Option<string>, ghost M: Nodes)
      requires Valid() && was == Seen()
      modifies `running, `processed, `log, tree, tree.at.Values
      ensures Valid() && fresh(tree.at.Values - was.nodes)
      ensures r.Some? <==>
        (Tilted(was.counters.running, balanceAbs, balanceRel) || Choosable(was.value, was.counts, text, cacheThreshold))
      ensures LookedUp(was, text, now, M)
      ensures r.None? ==> Counts() == was.counters && tree.Abs() == M
      ensures r.Some? ==> Choice(was, text, r.value) && Assigned(r.value, text, was)
      ensures r.Some? ==> Step(M, Insert(text, r.value, later), tree.Abs())
    {
      var url := Pick(text, now, was);
      M := tree.Abs();
      var counted := Commit(text, url, later, was, M);
      r := if counted then Some(url) else None;
    }

    /** A request with this text has been sent to url: the counters and the tree have learned it, and nothing else. */
    ghost predicate Assigned(url: string, text: string, was: Snapshot)
      reads this, tree, tree.at.Values
    {
      && url in workers && Selection(was.counters.running, url, balanceAbs, balanceRel, running)
      && url in was.counters.processed && Counts() == was.counters.Selecting(url)
      && NowHolds(was.value, tree.Abs(), url, text)
    }

    /** A response has been delivered in one piece. */
    method Complete(url: string)
      requires Valid()
      modifies `running
      ensures Valid()
      ensures running == if url in old(running)
        then old(running)[url := if old(running)[url] == 0 then 0 else old(running)[url] - 1]
        else old(running)
    {
      if url in running {
        running := running[url := if running[url] == 0 then 0 else running[url] - 1];
      }
    }

    /** A streamed response has ended; a worker removed in the meantime makes the stream panic. */
    method CompleteStream(url: string) returns (panics: bool)
      requires Valid()
      modifies `running
      ensures Valid() && (panics <==> url !in old(running))
      ensures !panics ==> running == old(running)[url := if old(running)[url] == 0 then 0 else old(running)[url] - 1]
      ensures panics ==> running == old(running)
    {
      panics := url !in running;
      Complete(url);
    }

    /** One round of the eviction thread. */
    method Evict(max: nat)
      requires Valid()
      modifies tree, tree.at.Values
      ensures Valid() && tree.at.Values <= old(tree.at.Values)
      ensures Step(old(tree.Abs()), RadixRuns.Evict(max), tree.Abs())
      ensures tree.charCount.Keys == old(tree.charCount.Keys)
    {
      var trace := tree.EvictTenantBySize(max);
      StepRootOwners(old(tree.Abs()), RadixRuns.Evict(max), tree.Abs());
    }
  }

  // ----- where the conditions fail -----

  /** A worker listed twice: once it is removed it is still listed, without a counter. */
  method DuplicateStaysListed(cacheThreshold: real, balanceAbs: nat, balanceRel: real, now: Time) returns (r: Router)
    ensures r.Valid() && r.workers == ["a"] && "a" !in r.running && !r.Consistent()
  {
    r := new Router(["a", "a"], cacheThreshold, balanceAbs, balanceRel, now);
    r.RemoveWorker("a");
  }

  /** A router without workers has nothing to choose from. */
  method NobodyToSelect(text: string, cacheThreshold: real, balanceAbs: nat, balanceRel: real, now: Time)
    returns (selected: Option<string>)
    ensures selected.None?
  {
    var r := new Router([], cacheThreshold, balanceAbs, balanceRel, now);
    assert r.running == map[] && r.tree.charCount == map[];
    TiltIsDecided(map[], balanceAbs, balanceRel, 0, 0);
    ghost var M;
    selected, M := r.SelectWorker(text, now, now, r.Seen());
  }
}
