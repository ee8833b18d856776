/** How far apart the request counts of the workers can drift. */
module LoadBound {
  /** Running requests per worker. */
  type Loads = map<string, nat>

  ghost predicate Highest(q: Loads, max: nat)
  {
    && (if q == map[] then max == 0 else exists w :: w in q && q[w] == max)
    && forall w :: w in q ==> q[w] <= max
  }

  ghost predicate Lowest(q: Loads, min: nat)
  {
    && (if q == map[] then min == 0 else exists w :: w in q && q[w] == min)
    && forall w :: w in q ==> min <= q[w]
  }

  function Scaled(n: nat, rel: real): real
  {
    n as real * rel
  }

  /** The router stops following the cache: too far apart both absolutely and relatively. */
  predicate Imbalanced(max: nat, min: nat, abs: nat, rel: real)
  {
    var apart := if min <= max then max - min else 0;
    apart > abs && max as real > Scaled(min, rel)
  }

  ghost predicate Tilted(q: Loads, abs: nat, rel: real)
  {
    exists max, min :: Highest(q, max) && Lowest(q, min) && Imbalanced(max, min, abs, rel)
  }

  ghost predicate Least(q: Loads, w: string)
  {
    w in q && forall v :: v in q ==> q[w] <= q[v]
  }

  ghost predicate Incremented(q: Loads, w: string, q': Loads)
  {
    w in q && q' == q[w := q[w] + 1]
  }

  /** A request goes to w: to anybody while the loads are balanced, to a least loaded worker otherwise. */
  ghost predicate Selection(q: Loads, w: string, abs: nat, rel: real, q': Loads)
  {
    Incremented(q, w, q') && (Tilted(q, abs, rel) ==> Least(q, w))
  }

  lemma TiltIsDecided(q: Loads, abs: nat, rel: real, max: nat, min: nat)
    requires Highest(q, max) && Lowest(q, min)
    ensures Tilted(q, abs, rel) <==> Imbalanced(max, min, abs, rel)
  {
    if max', min' :| Highest(q, max') && Lowest(q, min') && Imbalanced(max', min', abs, rel) {
      assert max' == max && min' == min;
    }
  }

  /** picks are selected one after the other, starting from q0. */
  ghost predicate SelectionRun(q0: Loads, picks: seq<string>, abs: nat, rel: real, q: Loads)
  {
    if picks == [] then q == q0
    else
      var n := |picks| - 1;
      exists q1 :: SelectionRun(q0, picks[..n], abs, rel, q1) && Selection(q1, picks[n], abs, rel, q)
  }

  ghost predicate WithinBound(max: nat, min: nat, abs: nat, rel: real)
  {
    max - min <= abs + 1 || max as real <= rel * min as real + 1.0
  }

  lemma Extremes(q: Loads) returns (max: nat, min: nat)
    ensures Highest(q, max) && Lowest(q, min)
    decreases |q|
  {
    if q == map[] {
      max, min := 0, 0;
    } else {
      var w :| w in q;
      var rest := q - {w};
      max, min := Extremes(rest);
      if rest == map[] {
        assert forall v :: v in q ==> v == w by {
          forall v | v in q ensures v == w { assert v != w ==> v in rest; }
        }
        max, min := q[w], q[w];
      } else {
        var a :| a in rest && rest[a] == max;
        var b :| b in rest && rest[b] == min;
        assert forall v :: v in q && v != w ==> v in rest;
        max, min := if max < q[w] then q[w] else max, if q[w] < min then q[w] else min;
      }
    }
  }

  lemma ScaledMonotone(rel: real, a: nat, b: nat)
    requires a <= b
    ensures if 0.0 <= rel then Scaled(a, rel) <= Scaled(b, rel) else Scaled(a, rel) <= 0.0
  {
    if 0.0 <= rel {
      assert 0.0 <= (b - a) as real * rel;
    }
  }

  /** While the loads are imbalanced a selection never raises the highest load. */
  lemma ImbalancedKeepsHighest(q: Loads, w: string, abs: nat, rel: real, q': Loads, max: nat, min: nat, max': nat)
    requires Selection(q, w, abs, rel, q') && Highest(q, max) && Lowest(q, min) && Highest(q', max')
    requires Imbalanced(max, min, abs, rel)
    ensures max' == max
  {
    TiltIsDecided(q, abs, rel, max, min);
    var top :| top in q && q[top] == max;
    var low :| low in q && q[low] == min;
    assert q'[top] == max;
    var v :| v in q' && q'[v] == max';
  }

  lemma HighestGrowsByOne(q: Loads, w: string, max: nat, max': nat, min: nat, min': nat)
    requires w in q && Highest(q, max) && Lowest(q, min)
    requires Highest(q[w := q[w] + 1], max') && Lowest(q[w := q[w] + 1], min')
    ensures max' <= max + 1 && min <= min' <= max'
  {
    var q' := q[w := q[w] + 1];
    assert w in q';
    var v :| v in q' && q'[v] == max';
    var u :| u in q' && q'[u] == min';
  }

  /** One selection, with the scaled lowest loads before and after as x and y. */
  lemma BoundIsKept(max: nat, min: nat, max': nat, min': nat, abs: nat, x: real, y: real)
    requires max - min <= abs + 1 || max as real <= x + 1.0
    requires min <= max && max' <= max + 1 && min <= min' <= max'
    requires max - min > abs && max as real > x ==> max' == max
    requires x <= y || x <= 0.0
    ensures max' - min' <= abs + 1 || max' as real <= y + 1.0
  {
    if max as real <= x {
      assert max' as real <= x + 1.0;
    }
  }

  lemma SelectionKeepsBound(q: Loads, w: string, abs: nat, rel: real, q': Loads, max: nat, min: nat, max': nat,
                            min': nat)
    requires Selection(q, w, abs, rel, q') && Highest(q, max) && Lowest(q, min) && Highest(q', max') && Lowest(q', min')
    requires WithinBound(max, min, abs, rel)
    ensures WithinBound(max', min', abs, rel)
  {
    HighestGrowsByOne(q, w, max, max', min, min');
    if Imbalanced(max, min, abs, rel) {
      ImbalancedKeepsHighest(q, w, abs, rel, q', max, min, max');
    }
    ScaledMonotone(rel, min, min');
    BoundIsKept(max, min, max', min', abs, Scaled(min, rel), Scaled(min', rel));
  }

  /** From idle workers, however requests are chosen while balanced, the loads stay within one of a threshold. */
  lemma {:induction false} LoadsStayClose(q0: Loads, picks: seq<string>, abs: nat, rel: real, q: Loads, max: nat,
                                          min: nat)
    requires forall w :: w in q0 ==> q0[w] == 0
    requires SelectionRun(q0, picks, abs, rel, q) && Highest(q, max) && Lowest(q, min)
    ensures WithinBound(max, min, abs, rel)
  {
    if picks != [] {
      var n := |picks| - 1;
      var q1 :| SelectionRun(q0, picks[..n], abs, rel, q1) && Selection(q1, picks[n], abs, rel, q);
      var max1, min1 := Extremes(q1);
      LoadsStayClose(q0, picks[..n], abs, rel, q1, max1, min1);
      SelectionKeepsBound(q1, picks[n], abs, rel, q, max1, min1, max, min);
    }
  }

  /** One more selection after a run. */
  lemma OneMore(q0: Loads, picks: seq<string>, abs: nat, rel: real, q: Loads, w: string)
    requires SelectionRun(q0, picks, abs, rel, q) && w in q && (Tilted(q, abs, rel) ==> Least(q, w))
    ensures SelectionRun(q0, picks + [w], abs, rel, q[w := q[w] + 1])
  {
    assert (picks + [w])[..|picks|] == picks;
    assert Selection(q, w, abs, rel, q[w := q[w] + 1]);
  }

  /** When two workers are balanced, the next request may go to the busier one. */
  lemma BusierOneMore(a: string, b: string, n: nat, m: nat, abs: nat, rel: real, picks: seq<string>)
    requires a != b && m <= n && !Imbalanced(n, m, abs, rel)
    requires SelectionRun(map[a := 0, b := 0], picks, abs, rel, map[a := n, b := m])
    ensures SelectionRun(map[a := 0, b := 0], picks + [a], abs, rel, map[a := n + 1, b := m])
  {
    var q := map[a := n, b := m];
    assert a in q && b in q;
    TiltIsDecided(q, abs, rel, n, m);
    OneMore(map[a := 0, b := 0], picks, abs, rel, q, a);
    assert q[a := n + 1] == map[a := n + 1, b := m];
  }

  /** The next request may always go to the idler one. */
  lemma IdlerOneMore(a: string, b: string, n: nat, m: nat, abs: nat, rel: real, picks: seq<string>)
    requires a != b && m <= n
    requires SelectionRun(map[a := 0, b := 0], picks, abs, rel, map[a := n, b := m])
    ensures SelectionRun(map[a := 0, b := 0], picks + [b], abs, rel, map[a := n, b := m + 1])
  {
    var q := map[a := n, b := m];
    OneMore(map[a := 0, b := 0], picks, abs, rel, q, b);
    assert q[b := m + 1] == map[a := n, b := m + 1];
  }

  /** Two workers can be loaded in step. */
  lemma {:induction false} LoadedInStep(a: string, b: string, abs: nat, rel: real, m: nat) returns (picks: seq<string>)
    requires a != b
    ensures SelectionRun(map[a := 0, b := 0], picks, abs, rel, map[a := m, b := m])
  {
    picks := [];
    if m > 0 {
      picks := LoadedInStep(a, b, abs, rel, m - 1);
      BusierOneMore(a, b, m - 1, m - 1, abs, rel, picks);
      IdlerOneMore(a, b, m, m - 1, abs, rel, picks + [a]);
      picks := picks + [a] + [b];
    }
  }

  lemma OneLessIsBalanced(n: nat, m: nat, abs: nat, rel: real)
    requires m < n && WithinBound(n, m, abs, rel)
    ensures !Imbalanced(n - 1, m, abs, rel) && WithinBound(n - 1, m, abs, rel)
  {
  }

  /** Neither part of the bound can be improved: every pair of loads within it is reached from two idle workers. */
  lemma {:induction false} BoundIsReached(a: string, b: string, abs: nat, rel: real, n: nat, m: nat)
    returns (picks: seq<string>)
    requires a != b && m <= n && WithinBound(n, m, abs, rel)
    ensures SelectionRun(map[a := 0, b := 0], picks, abs, rel, map[a := n, b := m])
    decreases n
  {
    if n == m {
      picks := LoadedInStep(a, b, abs, rel, m);
    } else {
      OneLessIsBalanced(n, m, abs, rel);
      picks := BoundIsReached(a, b, abs, rel, n - 1, m);
      BusierOneMore(a, b, n - 1, m, abs, rel, picks);
      picks := picks + [a];
    }
  }
}
