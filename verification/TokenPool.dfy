/** Recording where the tokens of a batch are cached: a sequential loop and two parallel kernels that must agree. */
module TokenPool {
  import opened Arithmetic

  /** A request owns a row of the table; the new tokens of its sequence are those from pre to len. */
  datatype Request = Request(row: nat, pre: nat, len: nat, extend: nat)

  datatype Store = Store(cell: nat, value: int)

  datatype Batch = Batch(requests: seq<Request>, locations: seq<int>, stride: nat)
  {
    /** Where the locations of request r start. */
    function Start(r: nat): nat
      requires r <= |requests|
    {
      if r == 0 then 0 else Start(r - 1) + requests[r - 1].extend
    }

    /** The first cell of a row: every row before it takes stride cells. */
    function RowStart(row: nat): nat
    {
      if row == 0 then 0 else RowStart(row - 1) + stride
    }

    lemma {:induction false} RowStartIsProduct(row: nat)
      ensures RowStart(row) == row * stride
    {
      if row > 0 {
        RowStartIsProduct(row - 1);
        assert row * stride == (row - 1) * stride + stride;
      }
    }

    function Row(r: nat): nat
      requires r < |requests|
    {
      requests[r].row
    }

    /** The first cell that request r fills. */
    function Base(r: nat): nat
      requires r < |requests|
    {
      RowStart(requests[r].row) + requests[r].pre
    }

    /** The batch fits a table of size cells. */
    ghost predicate Fits(size: nat)
    {
      && (forall r {:trigger requests[r]} :: 0 <= r < |requests| ==>
        && requests[r].pre <= requests[r].len <= stride
        && requests[r].extend == requests[r].len - requests[r].pre
        && RowStart(requests[r].row) + stride <= size)
      && (forall r: nat, q: nat {:trigger Row(r), Row(q)} :: r < q < |requests| ==> Row(r) != Row(q))
      && Start(|requests|) <= |locations|
    }

    lemma {:induction false} StartsGrow(r: nat, q: nat)
      requires r <= q <= |requests|
      ensures Start(r) <= Start(q)
      decreases q
    {
      if r < q { StartsGrow(r, q - 1); }
    }

    /** The cells and locations of a request are in range. */
    lemma InRange(size: nat, r: nat)
      requires Fits(size) && r < |requests|
      ensures Base(r) + requests[r].extend <= size && Start(r) + requests[r].extend <= |locations|
    {
      StartsGrow(r + 1, |requests|);
    }

    /** s stores the k-th new token of request r. */
    ghost predicate StoresToken(r: nat, k: nat, s: Store)
    {
      && r < |requests| && k < requests[r].extend && Start(r) + k < |locations|
      && s == Store(Base(r) + k, locations[Start(r) + k])
    }

    /** s has to be stored. */
    ghost predicate Wanted(s: Store)
    {
      exists r: nat, k: nat :: StoresToken(r, k, s)
    }

    /** No two tokens go to the same cell. */
    lemma WantedOnce(size: nat, s: Store, s': Store)
      requires Fits(size) && Wanted(s) && Wanted(s') && s.cell == s'.cell
      ensures s == s'
    {
      var r: nat, k: nat :| StoresToken(r, k, s);
      var q: nat, l: nat :| StoresToken(q, l, s');
      TokensApart(size, r, k, q, l);
    }

    lemma TokensApart(size: nat, r: nat, k: nat, q: nat, l: nat)
      requires Fits(size) && r < |requests| && q < |requests| && k < requests[r].extend && l < requests[q].extend
      requires Base(r) + k == Base(q) + l
      ensures r == q && k == l
    {
      if r != q {
        assert Row(r) != Row(q);
        RowsApart(requests[r].row, requests[q].row, requests[r].pre + k, requests[q].pre + l);
      }
    }

    /** Cells of different rows are different. */
    lemma RowsApart(p: nat, q: nat, a: nat, b: nat)
      requires p != q && a < stride && b < stride
      ensures RowStart(p) + a != RowStart(q) + b
    {
      if p < q { RowsGrow(p + 1, q); } else { RowsGrow(q + 1, p); }
    }

    lemma {:induction false} RowsGrow(p: nat, q: nat)
      requires p <= q
      ensures RowStart(p) <= RowStart(q)
      decreases q
    {
      if p < q { RowsGrow(p, q - 1); }
    }

    /** What the table should hold afterwards. */
    ghost predicate Target(before: seq<int>, after: seq<int>)
    {
      && |after| == |before|
      && (forall s :: Wanted(s) && s.cell < |after| ==> after[s.cell] == s.value)
      && forall a :: 0 <= a < |after| && (forall s :: Wanted(s) ==> s.cell != a) ==> after[a] == before[a]
    }

    /** The locations of a request come after those of all requests before it. */
    lemma StartsFollow(r: nat)
      requires r < |requests|
      ensures Start(0) == 0 && Start(r + 1) == Start(r) + requests[r].extend
    {
    }

    /** Column by column: the new tokens of a request are found at their positions in its row, and nothing else has
        changed there. */
    lemma TargetByColumn(before: seq<int>, after: seq<int>, r: nat, column: nat)
      requires Fits(|before|) && Target(before, after) && r < |requests| && column < stride
      ensures var request := requests[r];
        var cell := request.row * stride + column;
        && cell < |after|
        && if request.pre <= column < request.len then
            var k := column - request.pre;
            Start(r) + k < |locations| && after[cell] == locations[Start(r) + k]
          else after[cell] == before[cell]
    {
      RowStartIsProduct(requests[r].row);
      if requests[r].pre <= column < requests[r].len {
        InRange(|before|, r);
        var k := column - requests[r].pre;
        assert StoresToken(r, k, Store(Base(r) + k, locations[Start(r) + k]));
        assert Wanted(Store(Base(r) + k, locations[Start(r) + k]));
      } else {
        NotWanted(|before|, r, column);
      }
    }

    lemma NotWanted(size: nat, r: nat, column: nat)
      requires Fits(size) && r < |requests| && column < stride && !(requests[r].pre <= column < requests[r].len)
      ensures forall s :: Wanted(s) ==> s.cell != RowStart(requests[r].row) + column
    {
      forall s | Wanted(s) ensures s.cell != RowStart(requests[r].row) + column {
        var q: nat, l: nat :| StoresToken(q, l, s);
        if q != r {
          assert Row(r) != Row(q);
          RowsApart(requests[q].row, requests[r].row, requests[q].pre + l, column);
        }
      }
    }

    /** Rows that belong to no request stay as they were. */
    lemma OtherRowsStay(before: seq<int>, after: seq<int>, row: nat, column: nat)
      requires Fits(|before|) && Target(before, after) && column < stride && row * stride + column < |before|
      requires forall r: nat :: r < |requests| ==> Row(r) != row
      ensures after[row * stride + column] == before[row * stride + column]
    {
      RowStartIsProduct(row);
      forall s | Wanted(s) ensures s.cell != RowStart(row) + column {
        var q: nat, l: nat :| StoresToken(q, l, s);
        assert Row(q) != row;
        RowsApart(requests[q].row, row, requests[q].pre + l, column);
      }
    }

    lemma TargetIsUnique(before: seq<int>, a: seq<int>, b: seq<int>)
      requires Target(before, a) && Target(before, b)
      ensures a == b
    {
      forall i | 0 <= i < |a| ensures a[i] == b[i] {
        if s :| Wanted(s) && s.cell == i {
        }
      }
    }

    /** The cells of the tokens of request r from lo to hi have been filled. */
    ghost predicate Filled(before: seq<int>, after: seq<int>, r: nat, lo: nat, hi: nat)
      requires r < |requests| && Base(r) + hi <= |before| && Start(r) + hi <= |locations|
    {
      && |after| == |before|
      && forall a {:trigger after[a]} :: 0 <= a < |after| ==>
        after[a] == if Base(r) + lo <= a < Base(r) + hi then locations[Start(r) + (a - Base(r))] else before[a]
    }

    lemma FilledMore(t0: seq<int>, t1: seq<int>, t2: seq<int>, r: nat, lo: nat, mid: nat, hi: nat)
      requires r < |requests| && lo <= mid <= hi && Base(r) + hi <= |t0| && Start(r) + hi <= |locations|
      requires Filled(t0, t1, r, lo, mid) && Filled(t1, t2, r, mid, hi)
      ensures Filled(t0, t2, r, lo, hi)
    {
    }

    lemma FilledAt(before: seq<int>, after: seq<int>, r: nat, hi: nat, a: nat)
      requires r < |requests| && Base(r) + hi <= |before| && Start(r) + hi <= |locations|
      requires Filled(before, after, r, 0, hi) && a < |after|
      ensures after[a] == if Base(r) <= a < Base(r) + hi then locations[Start(r) + (a - Base(r))] else before[a]
    {
    }

    /** The tokens of the first n requests are in their cells. */
    ghost predicate StoredUpto(after: seq<int>, n: nat)
    {
      forall r: nat, k: nat, s {:trigger StoresToken(r, k, s)} ::
        r < n && StoresToken(r, k, s) && s.cell < |after| ==> after[s.cell] == s.value
    }

    /** Cells that none of the first n requests owns are untouched. */
    ghost predicate KeptUpto(before: seq<int>, after: seq<int>, n: nat)
      requires |after| == |before|
    {
      forall a {:trigger after[a]} :: 0 <= a < |after| && !OwnedUpto(a, n) ==> after[a] == before[a]
    }

    ghost predicate OwnedUpto(a: int, n: nat)
    {
      exists r: nat, k: nat, s {:trigger StoresToken(r, k, s)} :: r < n && StoresToken(r, k, s) && s.cell == a
    }

    ghost predicate Upto(before: seq<int>, after: seq<int>, n: nat)
    {
      |after| == |before| && StoredUpto(after, n) && KeptUpto(before, after, n)
    }

    lemma UptoNext(before: seq<int>, mid: seq<int>, after: seq<int>, n: nat)
      requires Fits(|before|) && n < |requests| && Upto(before, mid, n)
      requires Base(n) + requests[n].extend <= |mid| && Start(n) + requests[n].extend <= |locations|
      requires Filled(mid, after, n, 0, requests[n].extend)
      ensures Upto(before, after, n + 1)
    {
      forall r: nat, k: nat, s | r < n + 1 && StoresToken(r, k, s) && s.cell < |after|
        ensures after[s.cell] == s.value
      {
        FilledBy(mid, after, n, r, k, s);
      }
      forall a | 0 <= a < |after| && !OwnedUpto(a, n + 1) ensures after[a] == before[a] {
        if Base(n) <= a < Base(n) + requests[n].extend {
          assert StoresToken(n, a - Base(n), Store(a, locations[Start(n) + (a - Base(n))]));
        }
        assert mid[a] == before[a];
      }
    }

    lemma FilledBy(mid: seq<int>, after: seq<int>, n: nat, r: nat, k: nat, s: Store)
      requires Fits(|mid|) && n < |requests|
      requires Base(n) + requests[n].extend <= |mid| && Start(n) + requests[n].extend <= |locations|
      requires Filled(mid, after, n, 0, requests[n].extend)
      requires r <= n && StoresToken(r, k, s) && s.cell < |after| && (r < n ==> mid[s.cell] == s.value)
      ensures after[s.cell] == s.value
    {
      if r < n {
        NotOverwritten(|mid|, n, r, k, s);
        KeptOutside(mid, after, n, s.cell);
      } else {
        assert r == n;
        TokenFilled(mid, after, n, k, s);
      }
    }

    lemma KeptOutside(mid: seq<int>, after: seq<int>, n: nat, a: nat)
      requires n < |requests| && Base(n) + requests[n].extend <= |mid| && Start(n) + requests[n].extend <= |locations|
      requires Filled(mid, after, n, 0, requests[n].extend)
      requires a < |after| && !(Base(n) <= a < Base(n) + requests[n].extend)
      ensures after[a] == mid[a]
    {
      FilledAt(mid, after, n, requests[n].extend, a);
    }

    lemma TokenFilled(mid: seq<int>, after: seq<int>, r: nat, k: nat, s: Store)
      requires StoresToken(r, k, s) && s.cell < |after|
      requires Base(r) + requests[r].extend <= |mid| && Start(r) + requests[r].extend <= |locations|
      requires Filled(mid, after, r, 0, requests[r].extend)
      ensures after[s.cell] == s.value
    {
      FilledAt(mid, after, r, requests[r].extend, s.cell);
    }

    /** The cell of an earlier request is not among those of request n. */
    lemma NotOverwritten(size: nat, n: nat, r: nat, k: nat, s: Store)
      requires Fits(size) && r < n < |requests| && StoresToken(r, k, s)
      ensures !(Base(n) <= s.cell < Base(n) + requests[n].extend)
    {
      if Base(n) <= s.cell < Base(n) + requests[n].extend {
        TokensApart(size, r, k, n, s.cell - Base(n));
      }
    }

    lemma OwnedIsWanted(a: int, n: nat)
      ensures OwnedUpto(a, n) ==> exists s :: Wanted(s) && s.cell == a
    {
      if OwnedUpto(a, n) {
        var r: nat, k: nat, s :| r < n && StoresToken(r, k, s) && s.cell == a;
        assert Wanted(s);
      }
    }

    lemma UptoAll(before: seq<int>, after: seq<int>)
      requires Upto(before, after, |requests|)
      ensures Target(before, after)
    {
      forall s | Wanted(s) && s.cell < |after| ensures after[s.cell] == s.value {
        var r: nat, k: nat :| StoresToken(r, k, s);
      }
      forall a | 0 <= a < |after| && (forall s :: Wanted(s) ==> s.cell != a) ensures after[a] == before[a] {
        OwnedIsWanted(a, |requests|);
      }
    }
  }

  // ----- stores in any order -----

  /** The memory after some stores, one after the other. */
  function Apply(t: seq<int>, stores: seq<Store>): (t': seq<int>)
    ensures |t'| == |t|
  {
    if stores == [] then t
    else
      var before := Apply(t, stores[..|stores| - 1]);
      var s := stores[|stores| - 1];
      if s.cell < |t| then before[s.cell := s.value] else before
  }

  lemma OneMoreStore(t: seq<int>, stores: seq<Store>, s: Store)
    requires s.cell < |t|
    ensures Apply(t, stores + [s]) == Apply(t, stores)[s.cell := s.value]
  {
    assert (stores + [s])[..|stores|] == stores;
  }

  /** stores are exactly what the batch wants, in whatever order and however often. */
  ghost predicate Exactly(batch: Batch, stores: seq<Store>)
  {
    forall s :: s in stores <==> batch.Wanted(s)
  }

  lemma {:induction false} Applied(batch: Batch, t: seq<int>, stores: seq<Store>, a: nat)
    requires a < |t|
    ensures (exists s :: s in stores && s.cell == a) ==> Store(a, Apply(t, stores)[a]) in stores
    ensures (forall s :: s in stores ==> s.cell != a) ==> Apply(t, stores)[a] == t[a]
  {
    if stores != [] {
      var n := |stores| - 1;
      var init, last := stores[..n], stores[n];
      Applied(batch, t, init, a);
      assert stores == init + [last];
      assert Apply(t, stores)[a] == if last.cell == a then last.value else Apply(t, init)[a];
    }
  }

  /** Whatever the order in which the stores of a launch reach memory, the table ends up as it should. */
  lemma AnyOrder(batch: Batch, t: seq<int>, stores: seq<Store>)
    requires batch.Fits(|t|) && Exactly(batch, stores)
    ensures batch.Target(t, Apply(t, stores))
  {
    var t' := Apply(t, stores);
    forall s | batch.Wanted(s) && s.cell < |t'| ensures t'[s.cell] == s.value {
      Applied(batch, t, stores, s.cell);
      batch.WantedOnce(|t|, s, Store(s.cell, t'[s.cell]));
    }
    forall a | 0 <= a < |t'| && (forall s :: batch.Wanted(s) ==> s.cell != a) ensures t'[a] == t[a] {
      Applied(batch, t, stores, a);
    }
  }

  // ----- the sequential reference -----

  /** cumsum_start: the lengths before request n. */
  method CumSum(batch: Batch, n: nat) returns (sum: nat)
    requires n <= |batch.requests|
    ensures sum == batch.Start(n)
  {
    sum := 0;
    for i := 0 to n
      invariant sum == batch.Start(i)
    {
      sum := sum + batch.requests[i].extend;
    }
  }

  /** The address of a cell. */
  method CellOf(batch: Batch, row: nat, column: nat) returns (cell: nat)
    ensures cell == batch.RowStart(row) + column
  {
    batch.RowStartIsProduct(row);
    cell := row * batch.stride + column;
  }

  /** The slice of locations that belongs to request r goes to the row of r. */
  method CopySlice(table: array<int>, batch: Batch, r: nat)
    requires r < |batch.requests| && batch.Fits(table.Length)
    modifies table
    ensures batch.Base(r) + batch.requests[r].extend <= table.Length
    ensures batch.Start(r) + batch.requests[r].extend <= |batch.locations|
    ensures batch.Filled(old(table[..]), table[..], r, 0, batch.requests[r].extend)
  {
    batch.InRange(table.Length, r);
    var request := batch.requests[r];
    var start := CumSum(batch, r);
    var base := CellOf(batch, request.row, request.pre);
    forall k | 0 <= k < request.len - request.pre {
      table[base + k] := batch.locations[start + k];
    }
  }

  /** write_req_to_token_pool_reference. */
  method Reference(table: array<int>, batch: Batch)
    requires batch.Fits(table.Length)
    modifies table
    ensures batch.Target(old(table[..]), table[..])
  {
    for r := 0 to |batch.requests|
      invariant batch.Upto(old(table[..]), table[..], r)
    {
      ghost var mid := table[..];
      CopySlice(table, batch, r);
      batch.UptoNext(old(table[..]), mid, table[..], r);
    }
    batch.UptoAll(old(table[..]), table[..]);
  }

  // ----- the kernels -----

  const BLOCK: nat := 512

  /** One masked block of stores: the tokens of request r from first on, as far as there are any. */
  method StoreBlock(table: array<int>, batch: Batch, r: nat, start: nat, first: nat, block: nat)
    requires r < |batch.requests| && batch.Fits(table.Length) && start == batch.Start(r)
    modifies table
    ensures batch.Base(r) + batch.requests[r].extend <= table.Length
    ensures batch.Start(r) + batch.requests[r].extend <= |batch.locations|
    ensures batch.Filled(old(table[..]), table[..], r, Capped(batch, r, first), Capped(batch, r, first + block))
  {
    batch.InRange(table.Length, r);
    var request := batch.requests[r];
    var base := CellOf(batch, request.row, request.pre);
    forall lane | 0 <= lane < block && first + lane < request.len - request.pre {
      table[base + (first + lane)] := batch.locations[start + (first + lane)];
    }
  }

  function Capped(batch: Batch, r: nat, n: nat): nat
    requires r < |batch.requests|
  {
    if n < batch.requests[r].extend then n else batch.requests[r].extend
  }

  /** How many blocks of this size n tokens take. */
  function Blocks(n: nat, block: nat): nat
    requires block > 0
  {
    (n + block - 1) / block
  }

  /** write_req_to_token_pool_triton: program r stores all tokens of request r, block by block. */
  method Program(table: array<int>, batch: Batch, r: nat)
    requires r < |batch.requests| && batch.Fits(table.Length)
    modifies table
    ensures batch.Base(r) + batch.requests[r].extend <= table.Length
    ensures batch.Start(r) + batch.requests[r].extend <= |batch.locations|
    ensures batch.Filled(old(table[..]), table[..], r, 0, batch.requests[r].extend)
  {
    batch.InRange(table.Length, r);
    var request := batch.requests[r];
    var start := CumSum(batch, r);
    for i := 0 to Blocks(request.len - request.pre, BLOCK)
      invariant batch.Filled(old(table[..]), table[..], r, 0, Capped(batch, r, i * BLOCK))
    {
      ghost var mid := table[..];
      StoreBlock(table, batch, r, start, i * BLOCK, BLOCK);
      batch.FilledMore(old(table[..]), mid, table[..], r, 0, Capped(batch, r, i * BLOCK),
        Capped(batch, r, (i + 1) * BLOCK));
    }
  }

  /** write_req_to_token_pool_triton_optimize: program (r, b) stores block b of request r. */
  method ProgramOfGrid(table: array<int>, batch: Batch, r: nat, b: nat, block: nat)
    requires r < |batch.requests| && batch.Fits(table.Length)
    modifies table
    ensures batch.Base(r) + batch.requests[r].extend <= table.Length
    ensures batch.Start(r) + batch.requests[r].extend <= |batch.locations|
    ensures batch.Filled(old(table[..]), table[..], r, Capped(batch, r, b * block), Capped(batch, r, b * block + block))
  {
    var start := CumSum(batch, r);
    StoreBlock(table, batch, r, start, b * block, block);
  }

  // ----- launches -----

  /** The stores of a program that fills the tokens of request r from lo to hi. */
  function StoresOf(batch: Batch, r: nat, lo: nat, hi: nat): (stores: seq<Store>)
    requires r < |batch.requests| && batch.Start(r) + hi <= |batch.locations|
    ensures forall s {:trigger s in stores} :: s in stores ==> batch.Base(r) + lo <= s.cell < batch.Base(r) + hi
    decreases hi
  {
    if hi <= lo then []
    else StoresOf(batch, r, lo, hi - 1) + [Store(batch.Base(r) + (hi - 1), batch.locations[batch.Start(r) + (hi - 1)])]
  }

  /** A program does to the table what its stores do, one after the other. */
  lemma {:induction false} ProgramIsItsStores(batch: Batch, t: seq<int>, r: nat, lo: nat, hi: nat)
    requires r < |batch.requests| && batch.Start(r) + hi <= |batch.locations| && batch.Base(r) + hi <= |t| && lo <= hi
    ensures batch.Filled(t, Apply(t, StoresOf(batch, r, lo, hi)), r, lo, hi)
    decreases hi
  {
    if lo < hi {
      var init := StoresOf(batch, r, lo, hi - 1);
      var last := Store(batch.Base(r) + (hi - 1), batch.locations[batch.Start(r) + (hi - 1)]);
      ProgramIsItsStores(batch, t, r, lo, hi - 1);
      assert StoresOf(batch, r, lo, hi) == init + [last];
      OneMoreStore(t, init, last);
    }
  }

  lemma {:induction false} StoresOfTokens(batch: Batch, r: nat, lo: nat, hi: nat, s: Store)
    requires r < |batch.requests| && batch.Start(r) + hi <= |batch.locations| && hi <= batch.requests[r].extend
    ensures s in StoresOf(batch, r, lo, hi) <==> exists k: nat :: lo <= k < hi && batch.StoresToken(r, k, s)
    decreases hi
  {
    if lo < hi {
      StoresOfTokens(batch, r, lo, hi - 1, s);
      assert batch.StoresToken(r, hi - 1, Store(batch.Base(r) + (hi - 1), batch.locations[batch.Start(r) + (hi - 1)]));
    }
  }

  /** s is a store of program r of the plain kernel. */
  ghost predicate OfProgram(batch: Batch, size: nat, r: nat, s: Store)
    requires batch.Fits(size) && r < |batch.requests|
  {
    batch.InRange(size, r);
    s in StoresOf(batch, r, 0, batch.requests[r].extend)
  }

  /** The stores that reached memory are those of all programs of the plain kernel, in some order. */
  ghost predicate PlainLaunch(batch: Batch, size: nat, stores: seq<Store>)
    requires batch.Fits(size)
  {
    forall s {:trigger s in stores} :: s in stores <==>
      exists r: nat :: r < |batch.requests| && OfProgram(batch, size, r, s)
  }

  /** However the programs of the plain kernel interleave, the table ends up as the sequential loop, which ensures
      Target, leaves it. */
  lemma PlainKernelAgrees(batch: Batch, t: seq<int>, stores: seq<Store>)
    requires batch.Fits(|t|) && PlainLaunch(batch, |t|, stores)
    ensures batch.Target(t, Apply(t, stores))
    ensures forall t' :: batch.Target(t, t') ==> Apply(t, stores) == t'
  {
    forall s ensures s in stores <==> batch.Wanted(s) {
      PlainStores(batch, |t|, s);
    }
    AnyOrder(batch, t, stores);
    OnlyTarget(batch, t, Apply(t, stores));
  }

  lemma OnlyTarget(batch: Batch, t: seq<int>, after: seq<int>)
    requires batch.Target(t, after)
    ensures forall t' :: batch.Target(t, t') ==> after == t'
  {
    forall t' | batch.Target(t, t') ensures after == t' {
      batch.TargetIsUnique(t, after, t');
    }
  }

  lemma PlainStores(batch: Batch, size: nat, s: Store)
    requires batch.Fits(size)
    ensures (exists r: nat :: r < |batch.requests| && OfProgram(batch, size, r, s)) <==> batch.Wanted(s)
  {
    if r: nat :| r < |batch.requests| && OfProgram(batch, size, r, s) {
      batch.InRange(size, r);
      StoresOfTokens(batch, r, 0, batch.requests[r].extend, s);
    }
    if batch.Wanted(s) {
      var r: nat, k: nat :| batch.StoresToken(r, k, s);
      batch.InRange(size, r);
      StoresOfTokens(batch, r, 0, batch.requests[r].extend, s);
      assert OfProgram(batch, size, r, s);
    }
  }

  /** s is a store of program (r, b) of the grid kernel. */
  ghost predicate OfBlock(batch: Batch, size: nat, r: nat, b: nat, block: nat, s: Store)
    requires batch.Fits(size) && r < |batch.requests|
  {
    batch.InRange(size, r);
    s in StoresOf(batch, r, Capped(batch, r, b * block), Capped(batch, r, b * block + block))
  }

  /** The stores that reached memory are those of all programs of the grid kernel, in some order. */
  ghost predicate GridLaunch(batch: Batch, size: nat, blocks: nat, block: nat, stores: seq<Store>)
    requires batch.Fits(size)
  {
    forall s {:trigger s in stores} :: s in stores <==>
      exists r: nat, b: nat :: r < |batch.requests| && b < blocks && OfBlock(batch, size, r, b, block, s)
  }

  /** The grid has a program for every token. */
  ghost predicate GridCovers(batch: Batch, blocks: nat, block: nat)
  {
    forall r {:trigger batch.requests[r]} :: 0 <= r < |batch.requests| ==> batch.requests[r].extend <= blocks * block
  }

  lemma TokenOfBlock(batch: Batch, size: nat, r: nat, b: nat, block: nat, s: Store)
    requires batch.Fits(size) && r < |batch.requests|
    ensures OfBlock(batch, size, r, b, block, s) <==> TokenWithin(batch, r, b * block, b * block + block, s)
  {
    batch.InRange(size, r);
    TokenOfStretch(batch, r, b * block, b * block + block, s);
  }

  /** s stores one of the tokens of request r from first to last. */
  ghost predicate TokenWithin(batch: Batch, r: nat, first: nat, last: nat, s: Store)
  {
    exists k: nat :: first <= k < last && batch.StoresToken(r, k, s)
  }

  /** Capping a stretch of tokens leaves out no token of the request. */
  lemma TokenOfStretch(batch: Batch, r: nat, first: nat, last: nat, s: Store)
    requires r < |batch.requests| && batch.Start(r) + batch.requests[r].extend <= |batch.locations|
    ensures s in StoresOf(batch, r, Capped(batch, r, first), Capped(batch, r, last)) <==>
      TokenWithin(batch, r, first, last, s)
  {
    var lo, hi := Capped(batch, r, first), Capped(batch, r, last);
    StoresOfTokens(batch, r, lo, hi, s);
    if k: nat :| first <= k < last && batch.StoresToken(r, k, s) {
      assert lo <= k < hi;
    }
  }

  /** The block of token k. */
  lemma BlockOf(k: nat, blocks: nat, block: nat) returns (b: nat)
    requires k < blocks * block
    ensures b < blocks && b * block <= k < b * block + block
  {
    b := 0;
    while b * block + block <= k
      invariant b * block <= k && b < blocks
      decreases blocks - b
    {
      assert (b + 1) * block == b * block + block;
      assert b + 1 == blocks ==> (b + 1) * block == blocks * block;
      b := b + 1;
    }
  }

  lemma GridStores(batch: Batch, size: nat, blocks: nat, block: nat, s: Store)
    requires batch.Fits(size) && GridCovers(batch, blocks, block)
    ensures (exists r: nat, b: nat ::
      r < |batch.requests| && b < blocks && OfBlock(batch, size, r, b, block, s)) <==> batch.Wanted(s)
  {
    if r: nat, b: nat :| r < |batch.requests| && b < blocks && OfBlock(batch, size, r, b, block, s) {
      TokenOfBlock(batch, size, r, b, block, s);
    }
    if batch.Wanted(s) {
      var r: nat, k: nat :| batch.StoresToken(r, k, s);
      var b := BlockOf(k, blocks, block);
      TokenOfBlock(batch, size, r, b, block, s);
    }
  }

  /** A grid that is too small leaves out a token, whose cell then keeps whatever it held. */
  lemma TokenLeftOut(batch: Batch, size: nat, blocks: nat, block: nat, stores: seq<Store>, r: nat) returns (t: seq<int>)
    requires batch.Fits(size) && GridLaunch(batch, size, blocks, block, stores)
    requires r < |batch.requests| && blocks * block < batch.requests[r].extend
    ensures |t| == size && !batch.Target(t, Apply(t, stores))
  {
    batch.InRange(size, r);
    var k := blocks * block;
    var cell, value := batch.Base(r) + k, batch.locations[batch.Start(r) + k];
    var left := Store(cell, value);
    assert batch.StoresToken(r, k, left) && batch.Wanted(left);
    t := seq(size, i => value + 1);
    forall s | s in stores ensures batch.Wanted(s) && s.cell != cell {
      NotOfGrid(batch, size, blocks, block, r, s);
    }
    Applied(batch, t, stores, cell);
    assert Apply(t, stores)[left.cell] != left.value;
  }

  lemma NotOfGrid(batch: Batch, size: nat, blocks: nat, block: nat, r: nat, s: Store)
    requires batch.Fits(size) && r < |batch.requests| && blocks * block < batch.requests[r].extend
    requires exists q: nat, b: nat :: q < |batch.requests| && b < blocks && OfBlock(batch, size, q, b, block, s)
    ensures batch.Wanted(s) && s.cell != batch.Base(r) + blocks * block
  {
    var q: nat, b: nat :| q < |batch.requests| && b < blocks && OfBlock(batch, size, q, b, block, s);
    TokenOfBlock(batch, size, q, b, block, s);
    var l: nat :| b * block <= l < b * block + block && batch.StoresToken(q, l, s);
    ProductGrows(b + 1, blocks, block);
    assert (b + 1) * block == b * block + block;
    if s.cell == batch.Base(r) + blocks * block {
      batch.TokensApart(size, r, blocks * block, q, l);
    }
  }

  /** The grid kernel agrees with the sequential loop, however its programs interleave and whatever the table held,
      exactly when the grid covers the longest extension. */
  lemma GridKernelAgrees(batch: Batch, size: nat, blocks: nat, block: nat, stores: seq<Store>)
    requires batch.Fits(size) && GridLaunch(batch, size, blocks, block, stores)
    ensures GridCovers(batch, blocks, block) <==>
      forall t: seq<int> :: |t| == size ==> batch.Target(t, Apply(t, stores))
    ensures GridCovers(batch, blocks, block) ==>
      forall t: seq<int>, t' :: |t| == size && batch.Target(t, t') ==> Apply(t, stores) == t'
  {
    if GridCovers(batch, blocks, block) {
      forall s ensures s in stores <==> batch.Wanted(s) {
        GridStores(batch, size, blocks, block, s);
      }
      forall t: seq<int> | |t| == size ensures batch.Target(t, Apply(t, stores)) {
        AnyOrder(batch, t, stores);
      }
      forall t: seq<int>, t' | |t| == size && batch.Target(t, t') ensures Apply(t, stores) == t' {
        batch.TargetIsUnique(t, Apply(t, stores), t');
      }
    } else {
      var r: nat :| r < |batch.requests| && blocks * block < batch.requests[r].extend;
      var t := TokenLeftOut(batch, size, blocks, block, stores, r);
    }
  }
}
